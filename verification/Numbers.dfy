/** Numbers as text: `uart_print_int` of src/uart.c and `atoi` of src/strings.c. */
module Numbers {

  function Digit(d: nat): char
    requires d < 10
  {
    '0' + d as char
  }

  predicate IsDigit(c: char) {
    '0' <= c <= '9'
  }

  function DigitValue(c: char): nat
    requires IsDigit(c)
  {
    c as int - '0' as int
  }

  function Decimal(n: nat): (s: string)
    ensures s != []
  {
    if n < 10 then [Digit(n)] else Decimal(n / 10) + [Digit(n % 10)]
  }

  /** The number a text of digits denotes. */
  function Value(s: string): nat
    requires forall i :: 0 <= i < |s| ==> IsDigit(s[i])
  {
    if s == [] then 0 else 10 * Value(s[..|s| - 1]) + DigitValue(s[|s| - 1])
  }

  function DigitPrefix(s: string): (t: string)
    ensures t <= s && forall i :: 0 <= i < |t| ==> IsDigit(t[i])
    ensures |t| < |s| ==> !IsDigit(s[|t|])
  {
    if s == [] || !IsDigit(s[0]) then [] else [s[0]] + DigitPrefix(s[1..])
  }

  /** The 32-bit signed integer congruent to `x`. */
  function ToInt32(x: int): int {
    (x + 0x8000_0000) % 0x1_0000_0000 - 0x8000_0000
  }

  /** What `uart_print_int` prints: nothing at all for a negative number. */
  function Printed(n: int): string {
    if n < 0 then "" else Decimal(n)
  }

  /** What `atoi` returns. */
  function Parsed(s: string): int {
    ToInt32(Value(DigitPrefix(s)))
  }

  // ----- positional notation

  function Pow10(k: nat): nat {
    if k == 0 then 1 else 10 * Pow10(k - 1)
  }

  /** What a text means in decimal notation: each character its code less that of '0',
      times ten to the number of characters after it. */
  function Positional(s: string): int {
    if s == [] then 0 else (s[0] as int - 48) * Pow10(|s| - 1) + Positional(s[1..])
  }

  lemma {:induction false} ValueIsPositional(s: string)
    requires forall i :: 0 <= i < |s| ==> IsDigit(s[i])
    ensures Value(s) == Positional(s)
  {
    if s != [] {
      var n := |s| - 1;
      ValueIsPositional(s[..n]);
      PositionalSnoc(s[..n], s[n]);
      assert s == s[..n] + [s[n]];
    }
  }

  lemma {:induction false} PositionalSnoc(s: string, c: char)
    ensures Positional(s + [c]) == 10 * Positional(s) + (c as int - 48)
  {
    if s == [] {
      var one: string := [c];
      assert s + [c] == one && one[1..] == [];
    } else {
      PositionalSnoc(s[1..], c);
      assert (s + [c])[1..] == s[1..] + [c];
      Times10(s[0] as int - 48, Pow10(|s| - 1));
    }
  }

  lemma Times10(d: int, p: nat)
    ensures d * (10 * p) == 10 * (d * p)
  {
  }

  // ----- the code

  function Reverse(s: string): string {
    if s == [] then [] else [s[|s| - 1]] + Reverse(s[..|s| - 1])
  }

  /** The inner loop: division by ten by subtraction. */
  method DivideByTen(n: nat) returns (quotient: nat, remainder: nat)
    ensures quotient == n / 10 && remainder == n % 10
  {
    quotient, remainder := 0, n;
    while remainder >= 10
      invariant n == 10 * quotient + remainder
    {
      remainder := remainder - 10;
      quotient := quotient + 1;
    }
  }

  /** `uart_print_int`; `used` is how many bytes of its buffer it fills. */
  method PrintInt(n: int) returns (out: string, ghost used: nat)
    requires -0x8000_0000 <= n < 0x8000_0000
    ensures out == Printed(n)
    ensures used <= 10
  {
    var buf := new char[16];
    out, used := "", 0;
    if n == 0 {
      out := "0";
    } else if n > 0 {
      var i := StoreDigits(n, buf);
      used := i;
      while i > 0
        invariant 0 <= i <= 10
        invariant out + Reverse(buf[..i]) == Decimal(n)
      {
        i := i - 1;
        assert buf[..i + 1][..i] == buf[..i];
        out := out + [buf[i]];
      }
      assert out + [] == out;
    }
  }

  /** The outer loop: the digits of `n`, lowest first. */
  method StoreDigits(n: nat, buf: array<char>) returns (i: nat)
    requires 0 < n < 0x8000_0000 && buf.Length == 16
    modifies buf
    ensures i <= 10 && Reverse(buf[..i]) == Decimal(n)
  {
    DecimalLength(n);
    i := 0;
    var m := n;
    while m > 0
      invariant i <= 10
      invariant Decimal(n) == Higher(m) + Reverse(buf[..i])
      invariant |Decimal(n)| == |Higher(m)| + i
      decreases m
    {
      var quotient, remainder := DivideByTen(m);
      ghost var before, c := buf[..i], Digit(remainder);
      HigherStep(m, Reverse(before));
      buf[i] := Digit(remainder);
      assert buf[..i + 1] == before + [c];
      ReverseSnoc(before, c);
      i := i + 1;
      m := quotient;
    }
    assert [] + Reverse(buf[..i]) == Reverse(buf[..i]);
  }

  lemma HigherStep(m: nat, low: string)
    requires m > 0
    ensures Higher(m) + low == Higher(m / 10) + ([Digit(m % 10)] + low)
    ensures |Higher(m)| == |Higher(m / 10)| + 1
  {
    if m >= 10 {
      assert Decimal(m / 10) + [Digit(m % 10)] + low == Decimal(m / 10) + ([Digit(m % 10)] + low);
    }
  }

  /** The digits still to be stored. */
  ghost function Higher(m: nat): string {
    if m == 0 then [] else Decimal(m)
  }

  /** `atoi`, with the wrap-around of 32-bit arithmetic. */
  method Atoi(s: string) returns (res: int)
    ensures res == Parsed(s)
  {
    ghost var t := DigitPrefix(s);
    res := 0;
    var i := 0;
    while i < |s| && IsDigit(s[i])
      invariant i <= |t|
      invariant res == ToInt32(Value(t[..i]))
    {
      assert t[..i + 1][..i] == t[..i];
      WrapStep(Value(t[..i]), DigitValue(s[i]));
      res := ToInt32(10 * res + DigitValue(s[i]));
      i := i + 1;
    }
    assert t[..i] == t;
  }

  lemma WrapStep(v: nat, d: nat)
    ensures ToInt32(10 * ToInt32(v) + d) == ToInt32(10 * v + d)
  {
    var k := (v + 0x8000_0000) / 0x1_0000_0000;
    assert ToInt32(v) == v - 0x1_0000_0000 * k;
    WrapMultiple(10 * v + d, 10 * k);
  }

  lemma WrapMultiple(x: int, k: int)
    ensures ToInt32(x - 0x1_0000_0000 * k) == ToInt32(x)
  {
    var y := x + 0x8000_0000;
    var q, r := y / 0x1_0000_0000, y % 0x1_0000_0000;
    assert y - 0x1_0000_0000 * k == 0x1_0000_0000 * (q - k) + r;
  }

  lemma ReverseSnoc(s: string, c: char)
    ensures Reverse(s + [c]) == [c] + Reverse(s)
  {
    assert (s + [c])[..|s|] == s;
  }

  lemma {:induction false} ShortDecimal(n: nat, k: nat)
    requires k >= 1 && n < Pow10(k)
    ensures |Decimal(n)| <= k
  {
    if n >= 10 {
      ShortDecimal(n / 10, k - 1);
    }
  }

  lemma DecimalLength(n: nat)
    requires n < 0x8000_0000
    ensures |Decimal(n)| <= 10
  {
    assert Pow10(3) == 1000;
    assert Pow10(6) == 1000 * Pow10(3);
    assert Pow10(9) == 1000 * Pow10(6);
    assert Pow10(10) == 10 * Pow10(9);
    ShortDecimal(n, 10);
  }

  /** What `uart_print_int` prints for a number from 0 on is its decimal notation: digits
      only, no leading zero, and the number is what they mean. It prints nothing for a
      negative number. */
  lemma PrintedNotation(n: int)
    ensures n < 0 ==> Printed(n) == ""
    ensures n >= 0 ==> Printed(n) != "" && Positional(Printed(n)) == n
    ensures n >= 0 ==> forall i :: 0 <= i < |Printed(n)| ==> '0' <= Printed(n)[i] <= '9'
    ensures n >= 0 && |Printed(n)| > 1 ==> Printed(n)[0] != '0'
  {
    if n >= 0 {
      DecimalDigits(n);
      ValueIsPositional(Decimal(n));
    }
  }

  /** What `atoi` returns is the 32-bit integer that agrees, modulo 2^32, with what the
      leading digits mean. */
  lemma ParsedNotation(s: string, k: nat)
    requires k <= |s| && forall i :: 0 <= i < k ==> '0' <= s[i] <= '9'
    requires k < |s| ==> !('0' <= s[k] <= '9')
    ensures -0x8000_0000 <= Parsed(s) < 0x8000_0000
    ensures (Positional(s[..k]) - Parsed(s)) % 0x1_0000_0000 == 0
  {
    var t := DigitPrefix(s);
    assert t == s[..k];
    ValueIsPositional(t);
    Int32Difference(Value(t));
  }

  lemma Int32Difference(x: int)
    ensures (x - ToInt32(x)) % 0x1_0000_0000 == 0
  {
    var y := x + 0x8000_0000;
    assert x - ToInt32(x) == 0x1_0000_0000 * (y / 0x1_0000_0000);
  }

  // ----- printing and parsing undo each other

  lemma {:induction false} DecimalDigits(n: nat)
    ensures forall i :: 0 <= i < |Decimal(n)| ==> IsDigit(Decimal(n)[i])
    ensures Value(Decimal(n)) == n
    ensures |Decimal(n)| > 1 ==> Decimal(n)[0] != '0'
    ensures n > 0 ==> Decimal(n)[0] != '0'
  {
    if n < 10 {
      assert Decimal(n)[..0] == [];
    } else {
      DecimalDigits(n / 10);
      var s := Decimal(n);
      assert s[..|s| - 1] == Decimal(n / 10);
    }
  }

  lemma {:induction false} AllDigits(s: string)
    requires forall i :: 0 <= i < |s| ==> IsDigit(s[i])
    ensures DigitPrefix(s) == s
  {
    if s != [] {
      AllDigits(s[1..]);
    }
  }

  lemma Int32Unchanged(n: int)
    requires -0x8000_0000 <= n < 0x8000_0000
    ensures ToInt32(n) == n
  {
  }

  /** Parsing what was printed gives the number back. */
  lemma ParseOfPrint(n: nat)
    requires n < 0x8000_0000
    ensures Parsed(Printed(n)) == n
  {
    DecimalDigits(n);
    AllDigits(Decimal(n));
    Int32Unchanged(n);
  }

  /** The decimal notation of a number: digits, no leading zero. */
  predicate Canonical(s: string) {
    && s != [] && (forall i :: 0 <= i < |s| ==> IsDigit(s[i]))
    && (|s| > 1 ==> s[0] != '0')
  }

  lemma {:induction false} DecimalOfValue(s: string)
    requires Canonical(s)
    ensures Decimal(Value(s)) == s
    ensures s[0] != '0' ==> Value(s) > 0
    decreases |s|
  {
    var n := |s| - 1;
    var d := DigitValue(s[n]);
    if n == 0 {
      assert s[..0] == [];
      assert s == [Digit(d)];
    } else {
      DecimalOfValue(s[..n]);
      var v := Value(s[..n]);
      assert Value(s) / 10 == v && Value(s) % 10 == d;
      assert s == s[..n] + [Digit(d)];
    }
  }

  /** Printing what was parsed gives the text back exactly for the decimal notations
      of the numbers below 2^31. */
  lemma PrintOfParse(s: string)
    ensures Printed(Parsed(s)) == s <==> Canonical(s) && Value(s) < 0x8000_0000
  {
    if Canonical(s) && Value(s) < 0x8000_0000 {
      AllDigits(s);
      Int32Unchanged(Value(s));
      DecimalOfValue(s);
    } else if Printed(Parsed(s)) == s {
      Int32Unchanged(0);
      assert Parsed("") == 0;
      assert Parsed(s) >= 0;
      DecimalDigits(Parsed(s));
    }
  }
}
