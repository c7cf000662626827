/** A reader for the head of an HTTP/1.1 request by the rules of RFC 7230: the request
    line of section 3.1.1, the header fields of section 3.2, and the empty line that ends
    the message. It knows nothing of the client that writes requests. */
module HttpReader {
  import opened Machine

  datatype Field = Field(name: string, value: string)

  datatype Request = Request(verb: string, target: string, version: string, fields: seq<Field>)

  const CRLF: string := "\r\n"

  /** The length of `s` before the first `c`. */
  function Until(s: string, c: char): (n: nat)
    ensures n <= |s| && c !in s[..n] && (n < |s| ==> s[n] == c)
  {
    if s == [] || s[0] == c then 0 else 1 + Until(s[1..], c)
  }

  /** The length of `s` before the first CRLF. */
  function LineEnd(s: string): (n: nat)
    ensures n <= |s| && (n < |s| ==> n + 2 <= |s| && s[n] == '\r' && s[n + 1] == '\n')
  {
    if |s| < 2 then |s|
    else if s[0] == '\r' && s[1] == '\n' then 0
    else 1 + LineEnd(s[1..])
  }

  predicate IsLetter(c: char) {
    'A' <= c <= 'Z' || 'a' <= c <= 'z'
  }

  /** Methods and field names are tokens: letters, digits and certain other characters
      (section 3.2.6). */
  predicate IsToken(s: string) {
    s != [] && forall i :: 0 <= i < |s| ==> IsTokenChar(s[i])
  }

  predicate IsTokenChar(c: char) {
    IsLetter(c) || '0' <= c <= '9' || c in "!#$%&'*+-.^_`|~"
  }

  lemma TokenEnds(s: string)
    requires IsToken(s)
    ensures ' ' !in s && ':' !in s && '\r' !in s
  {
    assert !IsTokenChar(' ') && !IsTokenChar(':') && !IsTokenChar('\r');
  }

  /** A request target has visible characters only, and at least one (section 3.1.1). */
  predicate IsTarget(path: string) {
    path != [] && forall i :: 0 <= i < |path| ==> '!' <= path[i] <= '~'
  }

  predicate IsBlank(c: char) {
    c == ' ' || c == '\t'
  }

  /** A field value has no control characters but the tab (section 3.2). */
  predicate IsFieldText(host: string) {
    forall i :: 0 <= i < |host| ==> IsBlank(host[i]) || '!' <= host[i] <= '~' || host[i] as int >= 0x80
  }

  /** No blank at either end. */
  predicate IsTrimmed(s: string) {
    s == [] || (!IsBlank(s[0]) && !IsBlank(s[|s| - 1]))
  }

  /** Blanks around a field value are not part of it (section 3.2.4). */
  function Trim(s: string): (t: string)
    ensures IsTrimmed(t) && (IsTrimmed(s) ==> t == s)
    decreases |s|
  {
    if s == [] then []
    else if IsBlank(s[0]) then Trim(s[1..])
    else if IsBlank(s[|s| - 1]) then Trim(s[..|s| - 1])
    else s
  }

  predicate IsValue(s: string) {
    IsFieldText(s) && IsTrimmed(s)
  }

  /** A field line: a name, a colon, and the value. */
  function ReadField(line: string): (f: Option<Field>)
    ensures f.Some? ==> IsValue(f.value.value)
  {
    var n := Until(line, ':');
    if n == |line| || !IsToken(line[..n]) then None
    else
      var value := Trim(line[n + 1..]);
      if IsFieldText(value) then Some(Field(line[..n], value)) else None
  }

  /** Field lines up to the empty line, with nothing after it. */
  function ReadFields(s: string): (fields: Option<seq<Field>>)
    ensures fields.Some? ==> forall i :: 0 <= i < |fields.value| ==> IsValue(fields.value[i].value)
    decreases |s|
  {
    var n := LineEnd(s);
    if n == |s| then None
    else if n == 0 then (if |s| == 2 then Some([]) else None)
    else
      var f, rest := ReadField(s[..n]), ReadFields(s[n + 2..]);
      if f.Some? && rest.Some? then Some([f.value] + rest.value) else None
  }

  function ReadVersion(verb: string, target: string, s: string): (r: Option<Request>)
    requires IsTarget(target)
    ensures r.Some? ==> IsTarget(r.value.target)
    ensures r.Some? ==> forall i :: 0 <= i < |r.value.fields| ==> IsValue(r.value.fields[i].value)
  {
    var n := LineEnd(s);
    if n == |s| then None
    else
      match ReadFields(s[n + 2..])
      case None => None
      case Some(fields) => Some(Request(verb, target, s[..n], fields))
  }

  function ReadTarget(verb: string, s: string): (r: Option<Request>)
    ensures r.Some? ==> IsTarget(r.value.target)
    ensures r.Some? ==> forall i :: 0 <= i < |r.value.fields| ==> IsValue(r.value.fields[i].value)
  {
    var n := Until(s, ' ');
    if n == |s| || !IsTarget(s[..n]) then None else ReadVersion(verb, s[..n], s[n + 1..])
  }

  /** Every request read has a request target, and values that are field text without
      blanks around it. */
  function ReadRequest(s: string): (r: Option<Request>)
    ensures r.Some? ==> IsTarget(r.value.target)
    ensures r.Some? ==> forall i :: 0 <= i < |r.value.fields| ==> IsValue(r.value.fields[i].value)
  {
    var n := Until(s, ' ');
    if n == |s| || !IsToken(s[..n]) then None else ReadTarget(s[..n], s[n + 1..])
  }

  // ----- reading texts put together

  lemma {:induction false} UntilAt(a: string, c: char, rest: string)
    requires c !in a
    ensures Until(a + ([c] + rest), c) == |a|
  {
    var s := a + ([c] + rest);
    if a == [] {
      assert s[0] == c;
    } else {
      assert s[0] == a[0] && s[1..] == a[1..] + ([c] + rest);
      UntilAt(a[1..], c, rest);
    }
  }

  lemma {:induction false} LineEndAt(a: string, rest: string)
    requires '\r' !in a
    ensures LineEnd(a + (CRLF + rest)) == |a|
  {
    var s := a + (CRLF + rest);
    if a == [] {
      assert s[0] == '\r' && s[1] == '\n';
    } else {
      assert s[0] == a[0] && s[1..] == a[1..] + (CRLF + rest);
      LineEndAt(a[1..], rest);
    }
  }

  lemma Around(a: string, mark: string, rest: string)
    ensures (a + (mark + rest))[..|a|] == a && (a + (mark + rest))[|a| + |mark|..] == rest
  {
  }

  lemma ReadOneField(name: string, text: string)
    requires IsToken(name) && ':' !in name && IsFieldText(Trim(text))
    ensures ReadField(name + ([':'] + text)) == Some(Field(name, Trim(text)))
  {
    var line := name + ([':'] + text);
    UntilAt(name, ':', text);
    Around(name, [':'], text);
  }

  lemma ReadFirstField(line: string, f: Field, rest: string, fields: seq<Field>)
    requires line != [] && '\r' !in line && ReadField(line) == Some(f) && ReadFields(rest) == Some(fields)
    ensures ReadFields(line + (CRLF + rest)) == Some([f] + fields)
  {
    LineEndAt(line, rest);
    Around(line, CRLF, rest);
    ReadFieldsStep(line + (CRLF + rest), line, rest);
  }

  lemma ReadFieldsStep(s: string, line: string, rest: string)
    requires line != [] && LineEnd(s) == |line| && s[..|line|] == line
    requires |line| + 2 <= |s| && s[|line| + 2..] == rest
    ensures ReadField(line).Some? && ReadFields(rest).Some? ==>
              ReadFields(s) == Some([ReadField(line).value] + ReadFields(rest).value)
  {
  }

  lemma ReadVersionLine(verb: string, target: string, version: string, rest: string, fields: seq<Field>)
    requires IsTarget(target) && '\r' !in version && ReadFields(rest) == Some(fields)
    ensures ReadVersion(verb, target, version + (CRLF + rest)) == Some(Request(verb, target, version, fields))
  {
    var s := version + (CRLF + rest);
    LineEndAt(version, rest);
    Around(version, CRLF, rest);
  }

  lemma ReadTargetPart(verb: string, target: string, rest: string, r: Option<Request>)
    requires IsTarget(target) && ReadVersion(verb, target, rest) == r
    ensures ReadTarget(verb, target + ([' '] + rest)) == r
  {
    var s := target + ([' '] + rest);
    UntilAt(target, ' ', rest);
    Around(target, [' '], rest);
  }

  lemma ReadVerbPart(verb: string, rest: string, r: Option<Request>)
    requires IsToken(verb) && ' ' !in verb && ReadTarget(verb, rest) == r
    ensures ReadRequest(verb + ([' '] + rest)) == r
  {
    var s := verb + ([' '] + rest);
    UntilAt(verb, ' ', rest);
    Around(verb, [' '], rest);
  }

  lemma ReadHead(verb: string, target: string, version: string, rest: string, fields: seq<Field>)
    requires IsToken(verb) && IsTarget(target) && '\r' !in version && ReadFields(rest) == Some(fields)
    ensures ReadRequest(verb + ([' '] + (target + ([' '] + (version + (CRLF + rest))))))
         == Some(Request(verb, target, version, fields))
  {
    var r, line := Some(Request(verb, target, version, fields)), version + (CRLF + rest);
    TokenEnds(verb);
    ReadVersionLine(verb, target, version, rest, fields);
    ReadTargetPart(verb, target, line, r);
    ReadVerbPart(verb, target + ([' '] + line), r);
  }

  /** The empty line at the end. */
  lemma ReadNoFields()
    ensures ReadFields(CRLF) == Some([])
  {
    assert LineEnd(CRLF) == 0;
  }

  lemma {:induction false} TrimKeepsText(s: string)
    ensures IsFieldText(Trim(s)) <==> IsFieldText(s)
    decreases |s|
  {
    if s != [] {
      if IsBlank(s[0]) {
        TrimKeepsText(s[1..]);
        assert s == [s[0]] + s[1..];
      } else if IsBlank(s[|s| - 1]) {
        var n := |s| - 1;
        TrimKeepsText(s[..n]);
        assert s == s[..n] + [s[n]];
      }
    }
  }
}
