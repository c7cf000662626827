/** The `curl` command of src/main.c, from the typed line to the request. */
module Shell {
  import opened Machine
  import opened CLib
  import opened LineEditor
  import opened HttpReader
  import opened HttpRequest
  import opened HttpClient

  const CMD_MAX: int := 64

  /** `curl`'s host name, if the line is a `curl` command. */
  method CurlHost(cmd: seq<char>) returns (isCurl: bool, host: seq<char>)
    requires NUL in cmd
    ensures isCurl <==> Take(CStr(cmd), 5) == "curl "
    ensures isCurl ==> NUL in host && CStr(host) == CStr(cmd)[5..]
  {
    var pattern := "curl " + [NUL];
    CStrIs(pattern, 5);
    var r := Strncmp(cmd, pattern, 5);
    isCurl, host := r == 0, [];
    assert Take("curl ", 5) == "curl ";
    CompareZero(Take(CStr(cmd), 5), "curl ");
    if isCurl {
      ghost var text := CStr(cmd);
      host := cmd[5..];
      assert host[|text| - 5] == NUL;
      assert host[..|text| - 5] == text[5..];
      CStrIs(host, |text| - 5);
    }
  }

  /** The command a typed line leaves in the buffer, as a C string. */
  function Command(line: string): string {
    CStr(EditAll(line, CMD_MAX) + [NUL])
  }

  /** Every line `getline` accepts as a `curl` command meets the demands of `http_get`:
      its request fits the buffer. */
  lemma CurlFits(line: string, s: State, lookup: Lookup)
    requires Take(Command(line), 5) == "curl "
    requires lookup.Cached? ==> Fresh(s.stack, lookup.attempt)
    ensures var host := Command(line)[5..];
            && |RequestText(host, "/")| < BUFFER_SIZE
            && Enabled(s, Get(host, "/", lookup))
  {
    CommandLength(line);
    FitsIff(Command(line)[5..], "/");
  }

  /** Keys that type field text: no control character but backspace and tab. */
  predicate TypesText(line: string) {
    forall k :: 0 <= k < |line| ==> IsFieldText([line[k]]) || line[k] as int in {8, 127}
  }

  /** What a `curl` line sends reads back to the path "/" and its host, without blanks
      around it, exactly when no control character is left in the host. */
  lemma CurlReadsBack(line: string)
    requires Take(Command(line), 5) == "curl "
    ensures var host := Command(line)[5..];
            IsFieldText(host) <==>
              ReadRequest(RequestText(host, "/"))
              == Some(Request("GET", "/", "HTTP/1.1", [Field("Host", Trim(host)), Field("Connection", "close")]))
  {
    RequestReadsBack(Command(line)[5..], "/");
  }

  /** That is so whenever none was typed; Enter, which `getline` stops at, cannot be part
      of the line. */
  lemma TypedTextReadsBack(line: string)
    requires Take(Command(line), 5) == "curl " && TypesText(line)
    ensures var host := Command(line)[5..];
            ReadRequest(RequestText(host, "/"))
            == Some(Request("GET", "/", "HTTP/1.1", [Field("Host", Trim(host)), Field("Connection", "close")]))
  {
    CurlReadsBack(line);
    var host := Command(line)[5..];
    forall i | 0 <= i < |host| ensures IsFieldText([host[i]]) {
      CommandCharacter(line, 5 + i);
    }
    assert IsFieldText(host) by {
      forall i | 0 <= i < |host|
        ensures IsBlank(host[i]) || '!' <= host[i] <= '~' || host[i] as int >= 0x80
      {
        assert IsFieldText([host[i]]) && [host[i]][0] == host[i];
      }
    }
  }

  /** Typing `curl` and a host, of up to 58 characters, asks that host for "/". */
  lemma CurlAsks(host: string)
    requires |host| <= 58 && forall i :: 0 <= i < |host| ==> ' ' <= host[i] <= '~'
    ensures Take(Command("curl " + host), 5) == "curl " && Command("curl " + host)[5..] == host
    ensures RequestText(host, "/") == "GET / HTTP/1.1\r\nHost: " + host + "\r\nConnection: close\r\n\r\n"
  {
    CommandTyped("curl " + host);
    assert ("curl " + host)[..5] == "curl " && ("curl " + host)[5..] == host;
    assert "GET " + "/" + " HTTP/1.1\r\nHost: " == "GET / HTTP/1.1\r\nHost: ";
  }

  /** Without backspaces and NULs the command is what was typed, up to 63 characters. */
  lemma CommandTyped(line: string)
    requires forall i :: 0 <= i < |line| ==> line[i] as int !in {0, 8, 127}
    ensures Command(line) == Take(line, 63)
  {
    EditIsTyping(line, CMD_MAX);
    var text := Take(line, 63);
    assert (text + [NUL])[..|text|] == text;
    CStrIs(text + [NUL], |text|);
  }

  lemma CommandCharacter(line: string, i: nat)
    requires TypesText(line) && i < |Command(line)|
    ensures IsFieldText([Command(line)[i]])
  {
    CommandLength(line);
    var c, text := Command(line)[i], EditAll(line, CMD_MAX);
    assert c == (text + [NUL])[i] && c != NUL;
    EditKeepsCharacters(line, CMD_MAX, c);
  }

  lemma CommandLength(line: string)
    ensures |Command(line)| < CMD_MAX && NUL !in Command(line)
  {
    EditBound(line, CMD_MAX);
    var text := EditAll(line, CMD_MAX);
    assert (text + [NUL])[|text|] == NUL;
  }

  lemma CommandInBuffer(line: string, buf: seq<char>)
    requires var text := EditAll(line, CMD_MAX); |text| < |buf| && buf[..|text|] == text && buf[|text|] == NUL
    ensures CStr(buf) == Command(line)
  {
    var text := EditAll(line, CMD_MAX);
    var t := text + [NUL];
    assert buf[..|t|] == t && t[|text|] == NUL;
    var n := |Command(line)|;
    assert t[n] == NUL && buf[n] == t[n] && buf[..n] == t[..n];
    CStrIs(buf, n);
  }

  /** One turn of the shell loop, from the typed characters to the client: a `curl`
      line starts the request for the host after the command word, and any other
      line leaves the client alone. */
  method RunCurl(client: Client, input: string, lookup: Lookup) returns (isCurl: bool)
    requires client.Valid()
    requires FirstEnter(input) < |input|
    requires lookup.Cached? ==> Fresh(client.stack, lookup.attempt)
    modifies client, client.requestBuf
    ensures client.Valid()
    ensures var line := LineOf(input);
            && (isCurl <==> Take(Command(line), 5) == "curl ")
            && if isCurl then
                 Enabled(old(client.View()), Get(Command(line)[5..], "/", lookup))
                 && client.View() == Next(old(client.View()), Get(Command(line)[5..], "/", lookup))
               else client.View() == old(client.View())
  {
    var cmd := new char[CMD_MAX];
    var echo := GetLine(cmd, CMD_MAX, input);
    ghost var line := LineOf(input);
    ghost var text := EditAll(line, CMD_MAX);
    assert cmd[..][..|text|] == text && cmd[..][|text|] == NUL;
    CommandInBuffer(line, cmd[..]);
    var host: seq<char>;
    isCurl, host := CurlHost(cmd[..]);
    if isCurl {
      CurlFits(line, client.View(), lookup);
      client.HttpGet(CStr(host), "/", lookup);
    }
  }
}
