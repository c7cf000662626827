/** `getline` of src/main.c: a line editor that echoes to a terminal. */
module LineEditor {
  import opened CLib

  predicate IsEnter(c: char) {
    c == '\r' || c == '\n'
  }

  predicate IsBackspace(c: char) {
    c == 127 as char || c == 8 as char
  }

  const BS: char := 8 as char

  // ----- the edit

  /** The text after one more character: backspace takes the last one away, and a text
      of `max - 1` characters takes no more. */
  function Edit(text: string, c: char, max: int): string {
    if IsBackspace(c) then text[..if text == [] then 0 else |text| - 1]
    else if |text| < max - 1 then text + [c]
    else text
  }

  function Echo(text: string, c: char, max: int): string {
    if IsBackspace(c) then (if text == [] then [] else [BS, ' ', BS])
    else if |text| < max - 1 then [c]
    else []
  }

  function EditAll(input: string, max: int): string {
    if input == [] then [] else Edit(EditAll(input[..|input| - 1], max), input[|input| - 1], max)
  }

  function EchoAll(input: string, max: int): string {
    if input == [] then []
    else
      var before := input[..|input| - 1];
      EchoAll(before, max) + Echo(EditAll(before, max), input[|input| - 1], max)
  }

  lemma {:induction false} EditBound(input: string, max: int)
    ensures |EditAll(input, max)| <= if max < 1 then 0 else max - 1
    decreases |input|
  {
    if input != [] {
      EditBound(input[..|input| - 1], max);
    }
  }

  /** The text has no characters but those typed, and no backspace. */
  lemma {:induction false} EditKeepsCharacters(input: string, max: int, c: char)
    requires c in EditAll(input, max)
    ensures c in input && c as int !in {8, 127}
    decreases |input|
  {
    var n := |input| - 1;
    if c in EditAll(input[..n], max) {
      EditKeepsCharacters(input[..n], max, c);
    }
  }

  /** Without backspaces the text is what was typed, as far as it fits, and so is the
      echo. */
  lemma {:induction false} EditIsTyping(input: string, max: int)
    requires forall k :: 0 <= k < |input| ==> input[k] as int !in {8, 127}
    ensures EditAll(input, max) == Take(input, if max < 1 then 0 else max - 1)
    ensures EchoAll(input, max) == EditAll(input, max)
    decreases |input|
  {
    var room := if max < 1 then 0 else max - 1;
    if input != [] {
      EditIsTyping(input[..|input| - 1], max);
      TakeOneMore(input, room);
    }
  }

  lemma TakeOneMore(s: string, room: nat)
    requires s != []
    ensures var t := Take(s[..|s| - 1], room);
            Take(s, room) == if |t| < room then t + [s[|s| - 1]] else t
  {
  }

  /** A backspace takes away the last character of the text, if there is one. */
  lemma BackspaceErases(input: string, b: char, max: int)
    requires b as int in {8, 127}
    ensures var text := EditAll(input, max);
            EditAll(input + [b], max) == if text == [] then [] else text[..|text| - 1]
  {
    OneMore(input, b, max);
  }

  /** Where the text has room, a backspace takes back the character typed before it. */
  lemma BackspaceUndoes(input: string, c: char, b: char, max: int)
    requires c as int !in {8, 127} && b as int in {8, 127}
    requires |EditAll(input, max)| < max - 1
    ensures EditAll(input + [c, b], max) == EditAll(input, max)
  {
    var text := EditAll(input, max);
    OneMore(input, c, max);
    assert EditAll(input + [c], max) == text + [c];
    BackspaceErases(input + [c], b, max);
    assert (text + [c])[..|text|] == text;
    assert input + [c] + [b] == input + [c, b];
  }

  lemma OneMore(typed: string, c: char, max: int)
    ensures EditAll(typed + [c], max) == Edit(EditAll(typed, max), c, max)
    ensures EchoAll(typed + [c], max) == EchoAll(typed, max) + Echo(EditAll(typed, max), c, max)
  {
    assert (typed + [c])[..|typed|] == typed;
  }

  /** The body of `getline`'s loop for a character other than Enter. */
  method KeyPress(buf: array<char>, at: nat, c: char, max: int) returns (i: nat, out: string)
    requires at < buf.Length && max <= buf.Length
    modifies buf
    ensures i < buf.Length
    ensures buf[..i] == Edit(old(buf[..at]), c, max)
    ensures out == Echo(old(buf[..at]), c, max)
  {
    i, out := at, "";
    if IsBackspace(c) {
      if i > 0 {
        i := i - 1;
        out := [BS, ' ', BS];
      }
    } else if i < max - 1 {
      buf[i] := c;
      i := i + 1;
      out := [c];
    }
  }

  /** Where the first Enter is. */
  function FirstEnter(input: string): (n: nat)
    ensures n <= |input| && forall k :: 0 <= k < n ==> input[k] != '\r' && input[k] != '\n'
    ensures n < |input| ==> input[n] == '\r' || input[n] == '\n'
  {
    if input == [] || IsEnter(input[0]) then 0 else 1 + FirstEnter(input[1..])
  }

  /** The keys before it. */
  function LineOf(input: string): string {
    input[..FirstEnter(input)]
  }

  /** `getline`. It reads up to the first Enter, and would wait for one; `lwip_poll`
      between characters does not touch the line. */
  method GetLine(buf: array<char>, max: int, input: string) returns (echo: string)
    requires buf.Length >= 1 && max <= buf.Length
    requires FirstEnter(input) < |input|
    modifies buf
    ensures var text := EditAll(LineOf(input), max);
            |text| < buf.Length && buf[..|text|] == text && buf[|text|] == NUL
    ensures echo == EchoAll(LineOf(input), max) + "\n"
  {
    var i, n := 0, 0;
    echo := "";
    while !IsEnter(input[n])
      invariant 0 <= n <= FirstEnter(input)
      invariant 0 <= i < buf.Length && buf[..i] == EditAll(input[..n], max)
      invariant echo == EchoAll(input[..n], max)
      decreases |input| - n
    {
      var c := input[n];
      assert input[..n + 1] == input[..n] + [c];
      OneMore(input[..n], c, max);
      var out: string;
      i, out := KeyPress(buf, i, c, max);
      echo := echo + out;
      n := n + 1;
    }
    echo := echo + "\n";
    buf[i] := NUL;
  }

  // ----- the terminal

  /** One line of a terminal: its cells and where the cursor is. */
  datatype Terminal = Terminal(cells: string, cursor: nat)

  predicate Printable(c: char) {
    ' ' <= c <= '~'
  }

  /** A printable character overwrites the cell under the cursor and moves right; a
      backspace only moves left. */
  function Put(t: Terminal, c: char): Terminal {
    if c == BS then t.(cursor := if t.cursor == 0 then 0 else t.cursor - 1)
    else if !Printable(c) then t
    else if t.cursor < |t.cells| then Terminal(t.cells[t.cursor := c], t.cursor + 1)
    else Terminal(t.cells + [c], t.cursor + 1)
  }

  function PutAll(t: Terminal, s: string): Terminal
    decreases |s|
  {
    if s == [] then t else PutAll(Put(t, s[0]), s[1..])
  }

  /** The line shows `text` and then blanks, with the cursor after the text. */
  ghost predicate Shows(t: Terminal, text: string) {
    && t.cursor == |text| <= |t.cells|
    && t.cells[..t.cursor] == text
    && forall i :: t.cursor <= i < |t.cells| ==> t.cells[i] == ' '
  }

  lemma {:induction false} PutAllConcat(t: Terminal, a: string, b: string)
    ensures PutAll(t, a + b) == PutAll(PutAll(t, a), b)
    decreases |a|
  {
    if a == [] {
      assert a + b == b;
    } else {
      assert (a + b)[1..] == a[1..] + b;
      PutAllConcat(Put(t, a[0]), a[1..], b);
    }
  }

  lemma ShowsPush(t: Terminal, text: string, c: char)
    requires Shows(t, text) && Printable(c)
    ensures Shows(PutAll(t, [c]), text + [c])
  {
    var one: string := [c];
    assert one[1..] == [];
    assert PutAll(t, one) == Put(t, c);
    assert Put(t, c).cells[..|text| + 1] == t.cells[..|text|] + [c];
  }

  lemma ShowsPop(t: Terminal, text: string)
    requires Shows(t, text) && text != []
    ensures Shows(PutAll(t, [BS, ' ', BS]), text[..|text| - 1])
  {
    var n := |text| - 1;
    var t1 := Put(t, BS);
    var t2 := Put(t1, ' ');
    var t3 := Put(t2, BS);
    var s: string := [BS, ' ', BS];
    assert s[1..] == [' ', BS] && s[1..][1..] == [BS] && s[1..][1..][1..] == [];
    assert PutAll(t, s) == PutAll(t1, s[1..]) == PutAll(t2, s[1..][1..]) == t3;
    assert t3.cells[..n] == t.cells[..n] == t.cells[..t.cursor][..n] == text[..n];
  }

  /** After every prefix of what is typed, the terminal that interprets the echo shows
      the prompt and then exactly the text in the buffer. */
  lemma {:induction false} ScreenAgrees(t: Terminal, prompt: string, input: string, max: int)
    requires Shows(t, prompt)
    requires forall k :: 0 <= k < |input| ==> ' ' <= input[k] <= '~' || input[k] as int in {8, 127}
    ensures Shows(PutAll(t, EchoAll(input, max)), prompt + EditAll(input, max))
    decreases |input|
  {
    if input == [] {
      assert prompt + [] == prompt;
    } else {
      var n := |input| - 1;
      var c, text := input[n], EditAll(input[..n], max);
      ScreenAgrees(t, prompt, input[..n], max);
      PutAllConcat(t, EchoAll(input[..n], max), Echo(text, c, max));
      ScreenStep(PutAll(t, EchoAll(input[..n], max)), prompt, text, c, max);
    }
  }

  lemma ScreenStep(t: Terminal, prompt: string, text: string, c: char, max: int)
    requires Shows(t, prompt + text)
    requires Printable(c) || IsBackspace(c)
    ensures Shows(PutAll(t, Echo(text, c, max)), prompt + Edit(text, c, max))
  {
    if IsBackspace(c) {
      if text == [] {
        assert text[..0] == text;
      } else {
        ShowsPop(t, prompt + text);
        assert (prompt + text)[..|prompt + text| - 1] == prompt + text[..|text| - 1];
      }
    } else if |text| < max - 1 {
      ShowsPush(t, prompt + text, c);
      assert (prompt + text) + [c] == prompt + (text + [c]);
    }
  }
}
