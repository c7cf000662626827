/** The request text that `http_get` of src/http_client.c builds in its 256-byte buffer,
    and what it is by RFC 7230. */
module HttpRequest {
  import opened Machine
  import opened CLib
  import opened HttpReader

  const BUFFER_SIZE: nat := 256

  datatype Target = Target(host: string, path: string)

  /** The fixed texts of a request. */
  datatype Template = Template(verb: string, middle: string, ending: string)

  const GET: Template := Template("GET ", " HTTP/1.1\r\nHost: ", "\r\nConnection: close\r\n\r\n")

  function Fill(t: Template, host: string, path: string): string {
    t.verb + path + t.middle + host + t.ending
  }

  function RequestText(host: string, path: string): string {
    Fill(GET, host, path)
  }

  /** The text and its terminator fit the buffer exactly for these lengths. */
  lemma FitsIff(host: string, path: string)
    ensures |RequestText(host, path)| + 1 <= BUFFER_SIZE <==> |path| + |host| <= 211
  {
    assert |GET.verb| == 4 && |GET.middle| == 17 && |GET.ending| == 23;
  }

  /** `strcpy(buf + strlen(buf), text)`. */
  method Append(buf: array<char>, text: string)
    requires NUL in buf[..] && NUL !in text
    requires |CStr(buf[..])| + |text| < buf.Length
    modifies buf
    ensures NUL in buf[..] && CStr(buf[..]) == old(CStr(buf[..])) + text
  {
    ghost var before := CStr(buf[..]);
    var n := Strlen(buf);
    Strcpy(buf, n, text);
    assert before == old(buf[..])[..n] == old(buf[..n]);
    assert buf[..][n + |text|] == NUL;
    assert buf[..][..n + |text|] == before + text;
    CStrIs(buf[..], n + |text|);
  }

  /** The five copies of `http_get`. */
  method Build(buf: array<char>, t: Template, host: string, path: string)
    requires NUL !in Fill(t, host, path)
    requires |Fill(t, host, path)| < buf.Length
    modifies buf
    ensures NUL in buf[..] && CStr(buf[..]) == Fill(t, host, path)
  {
    Strcpy(buf, 0, t.verb);
    assert buf[..][|t.verb|] == NUL && buf[..][..|t.verb|] == t.verb;
    CStrIs(buf[..], |t.verb|);
    Append(buf, path);
    Append(buf, t.middle);
    Append(buf, host);
    Append(buf, t.ending);
  }

  // ----- reading it back

  /** A header line, as the client writes it. */
  function Line(name: string, value: string): string {
    name + ([':'] + ([' '] + value))
  }

  /** What the fixed texts of a template are made of: method, version, and the names of the
      two fields with the value of the second. */
  datatype Parts = Parts(verb: string, version: string, name: string, last: Field)

  ghost predicate MadeOf(t: Template, p: Parts) {
    && t.verb == p.verb + [' ']
    && t.middle == [' '] + (p.version + (CRLF + Line(p.name, "")))
    && t.ending == CRLF + (Line(p.last.name, p.last.value) + (CRLF + CRLF))
  }

  predicate Fit(p: Parts) {
    && IsToken(p.verb) && '\r' !in p.version
    && IsToken(p.name) && IsToken(p.last.name) && IsValue(p.last.value)
  }

  function FieldLines(p: Parts, host: string): string {
    Line(p.name, host) + (CRLF + (Line(p.last.name, p.last.value) + (CRLF + CRLF)))
  }

  lemma Regroup(t: Template, p: Parts, host: string, path: string)
    requires MadeOf(t, p)
    ensures Fill(t, host, path)
         == p.verb + ([' '] + (path + ([' '] + (p.version + (CRLF + FieldLines(p, host))))))
  {
    assert Line(p.name, "") + host == Line(p.name, host);
    assert t.middle + host == [' '] + (p.version + (CRLF + Line(p.name, host)));
    assert t.verb + path == p.verb + ([' '] + path);
  }

  lemma LineIsRead(name: string, value: string)
    requires IsToken(name) && IsFieldText(value)
    ensures Line(name, value) != [] && '\r' !in Line(name, value)
    ensures ReadField(Line(name, value)) == Some(Field(name, Trim(value)))
  {
    var text := [' '] + value;
    assert text[1..] == value;
    TokenEnds(name);
    TrimKeepsText(value);
    ReadOneField(name, text);
  }

  lemma FieldsAreRead(p: Parts, host: string)
    requires Fit(p) && IsFieldText(host)
    ensures ReadFields(FieldLines(p, host)) == Some([Field(p.name, Trim(host))] + [p.last])
  {
    var last := Line(p.last.name, p.last.value);
    LineIsRead(p.name, host);
    LineIsRead(p.last.name, p.last.value);
    ReadNoFields();
    ReadFirstField(last, p.last, CRLF, []);
    assert [p.last] + [] == [p.last];
    ReadFirstField(Line(p.name, host), Field(p.name, Trim(host)), last + (CRLF + CRLF), [p.last]);
  }

  lemma TextIsRead(t: Template, p: Parts, host: string, path: string)
    requires MadeOf(t, p) && Fit(p) && IsTarget(path) && IsFieldText(host)
    ensures ReadRequest(Fill(t, host, path))
         == Some(Request(p.verb, path, p.version, [Field(p.name, Trim(host))] + [p.last]))
  {
    FieldsAreRead(p, host);
    Regroup(t, p, host, path);
    ReadHead(p.verb, path, p.version, FieldLines(p, host), [Field(p.name, Trim(host))] + [p.last]);
  }

  /** A reader that accepts only targets and trimmed field text tells when it read back
      what was written. */
  lemma ReadBackIff(r: Option<Request>, verb: string, path: string, version: string, name: string, host: string, f: Field)
    requires r.Some? ==> IsTarget(r.value.target)
    requires r.Some? ==> forall i :: 0 <= i < |r.value.fields| ==> IsValue(r.value.fields[i].value)
    requires IsTarget(path) && IsFieldText(host) ==>
               r == Some(Request(verb, path, version, [Field(name, Trim(host))] + [f]))
    ensures r == Some(Request(verb, path, version, [Field(name, Trim(host)), f]))
       <==> IsTarget(path) && IsFieldText(host)
    ensures r == Some(Request(verb, path, version, [Field(name, host), f]))
       <==> IsTarget(path) && IsFieldText(host) && IsTrimmed(host)
  {
    TrimKeepsText(host);
    assert [Field(name, Trim(host))] + [f] == [Field(name, Trim(host)), f];
    if r.Some? && |r.value.fields| > 0 {
      assert IsValue(r.value.fields[0].value);
    }
  }

  lemma MiddleText()
    ensures GET.middle == [' '] + ("HTTP/1.1" + (CRLF + Line("Host", "")))
  {
    assert Line("Host", "") == "Host: ";
  }

  lemma EndingText()
    ensures GET.ending == CRLF + (Line("Connection", "close") + (CRLF + CRLF))
  {
    CloseText();
    var last := "Connection: close";
    assert last + (CRLF + CRLF) == "Connection: close\r\n\r\n";
  }

  lemma CloseText()
    ensures Line("Connection", "close") == "Connection: close"
  {
  }

  lemma TextsAreFit()
    ensures IsToken("GET") && IsToken("Host") && IsToken("Connection")
    ensures '\r' !in "HTTP/1.1" && IsValue("close")
  {
    AllLetters("GET");
    AllLetters("Host");
    AllLetters("Connection");
  }

  lemma AllLetters(s: string)
    requires s != [] && forall i :: 0 <= i < |s| ==> IsLetter(s[i])
    ensures IsToken(s)
  {
  }

  lemma GetIsRead(host: string, path: string)
    requires IsTarget(path) && IsFieldText(host)
    ensures ReadRequest(RequestText(host, path))
         == Some(Request("GET", path, "HTTP/1.1", [Field("Host", Trim(host))] + [Field("Connection", "close")]))
  {
    var p := Parts("GET", "HTTP/1.1", "Host", Field("Connection", "close"));
    assert GET.verb == "GET" + [' '];
    MiddleText();
    EndingText();
    TextsAreFit();
    TextIsRead(GET, p, host, path);
  }

  /** By RFC 7230 the request is a GET of the path, by HTTP/1.1, with the host, less the
      blanks around it, in the Host field and with the connection to be closed, exactly
      when the path is a request target and the host has no control characters. */
  lemma RequestReadsBack(host: string, path: string)
    ensures ReadRequest(RequestText(host, path))
            == Some(Request("GET", path, "HTTP/1.1", [Field("Host", Trim(host)), Field("Connection", "close")]))
       <==> IsTarget(path) && IsFieldText(host)
  {
    if IsTarget(path) && IsFieldText(host) {
      GetIsRead(host, path);
    }
    ReadBackIff(ReadRequest(RequestText(host, path)), "GET", path, "HTTP/1.1", "Host", host, Field("Connection", "close"));
  }

  /** It has the very host it was built from exactly when, besides, the host has no blank
      at either end. */
  lemma RequestRoundTrip(host: string, path: string)
    ensures ReadRequest(RequestText(host, path))
            == Some(Request("GET", path, "HTTP/1.1", [Field("Host", host), Field("Connection", "close")]))
       <==> IsTarget(path) && IsFieldText(host) && IsTrimmed(host)
  {
    if IsTarget(path) && IsFieldText(host) {
      GetIsRead(host, path);
    }
    ReadBackIff(ReadRequest(RequestText(host, path)), "GET", path, "HTTP/1.1", "Host", host, Field("Connection", "close"));
  }
}
