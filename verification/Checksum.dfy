/** The Internet checksum of src/net.c, against RFC 1071.

    The code adds little-endian 16-bit words into a 32-bit accumulator and folds
    the carries afterwards. The reference is section 1 of RFC 1071: add the words
    one at a time, each time adding the carry back in (one's-complement addition),
    and complement the result. */
module Checksum {
  import opened Machine

  datatype Order = Little | Big

  function Word(order: Order, first: byte, second: byte): uint16 {
    match order
    case Little => first + 0x100 * second
    case Big => 0x100 * first + second
  }

  function Count(s: seq<byte>): nat {
    (|s| + 1) / 2
  }

  /** Word `i` of a buffer. An odd last byte is the first byte of a word whose
      second byte is zero. */
  function WordAt(order: Order, s: seq<byte>, i: nat): uint16
    requires i < Count(s)
  {
    Word(order, s[2 * i], if 2 * i + 1 < |s| then s[2 * i + 1] else 0)
  }

  /** The unbounded sum of the first `n` words. */
  function SumFirst(order: Order, s: seq<byte>, n: nat): nat
    requires n <= Count(s)
  {
    if n == 0 then 0 else SumFirst(order, s, n - 1) + WordAt(order, s, n - 1)
  }

  function WordSum(order: Order, s: seq<byte>): nat {
    SumFirst(order, s, Count(s))
  }

  /** One's-complement addition: 16-bit addition with end-around carry. */
  function OnesAdd(a: uint16, b: uint16): uint16 {
    if a + b < 0x1_0000 then a + b else a + b - 0x1_0000 + 1
  }

  /** The one's-complement sum of the first `n` words, added in order. */
  function OnesFirst(order: Order, s: seq<byte>, n: nat): uint16
    requires n <= Count(s)
  {
    if n == 0 then 0 else OnesAdd(OnesFirst(order, s, n - 1), WordAt(order, s, n - 1))
  }

  /** The checksum of RFC 1071. */
  function Rfc1071(order: Order, s: seq<byte>): uint16 {
    0xFFFF - OnesFirst(order, s, Count(s))
  }

  /** The 16-bit value congruent to `n` modulo 65535 that is 0 only for 0. */
  function Canon(n: nat): uint16 {
    if n == 0 then 0 else (n - 1) % 0xFFFF + 1
  }

  /** The value the code computes: its accumulator keeps the sum modulo 2^32. */
  function CodeChecksum(s: seq<byte>): uint16 {
    0xFFFF - Canon(WordSum(Little, s) % 0x1_0000_0000)
  }

  function Ntons(n: uint16): uint16 {
    n % 0x100 * 0x100 + n / 0x100
  }

  // ----- the code

  /** The fold loop. It ends within two rounds. */
  method Fold(total: uint32) returns (sum: uint16, ghost rounds: nat)
    ensures sum == Canon(total)
    ensures rounds <= 2
    ensures rounds == 0 <==> total < 0x1_0000
  {
    var acc: uint32 := total;
    rounds := 0;
    while acc / 0x1_0000 != 0
      invariant Canon(acc) == Canon(total)
      invariant rounds == 0 ==> acc == total
      invariant rounds == 1 ==> acc <= 0x1_FFFE
      invariant rounds == 2 ==> acc < 0x1_0000
      invariant rounds <= 2
      invariant rounds > 0 ==> total >= 0x1_0000
      decreases acc
    {
      CanonUnique(acc, Canon(acc % 0x1_0000 + acc / 0x1_0000), FoldQuotient(acc));
      acc := acc % 0x1_0000 + acc / 0x1_0000;
      rounds := rounds + 1;
    }
    sum := acc;
  }

  /** `checksum`, over `length` bytes of `p` from `off`. */
  method Compute(p: array<byte>, off: nat, length: nat) returns (c: uint16)
    requires off + length <= p.Length
    ensures c == CodeChecksum(p[off..off + length])
  {
    var sum := AddWords(p, off, length);
    var folded, _ := Fold(sum);
    c := 0xFFFF - folded;
  }

  /** The summing loop, with its wrapping 32-bit accumulator. */
  method AddWords(p: array<byte>, off: nat, length: nat) returns (sum: uint32)
    requires off + length <= p.Length
    ensures sum == WordSum(Little, p[off..off + length]) % 0x1_0000_0000
  {
    sum := 0;
    ghost var s, lost: nat := p[off..off + length], 0;
    for i := 0 to length / 2
      invariant sum + 0x1_0000_0000 * lost == SumFirst(Little, s, i)
    {
      var w := Word(Little, p[off + 2 * i], p[off + 2 * i + 1]);
      lost := if sum + w < 0x1_0000_0000 then lost else lost + 1;
      sum := Add32(sum, w);
    }
    if length % 2 == 1 {
      var last := p[off + length - 1];
      lost := if sum + last < 0x1_0000_0000 then lost else lost + 1;
      sum := Add32(sum, last);
    }
    WrapUnique(WordSum(Little, s), sum, lost);
  }

  lemma WrapUnique(n: nat, r: uint32, q: nat)
    requires n == r + 0x1_0000_0000 * q
    ensures n % 0x1_0000_0000 == r
  {
  }

  // ----- canonical representatives

  lemma CanonUnique(n: nat, r: uint16, q: nat)
    requires n == r + 0xFFFF * q
    requires r == 0 ==> n == 0
    ensures Canon(n) == r
  {
    if n > 0 {
      assert n - 1 == (r - 1) + 0xFFFF * q;
    }
  }

  lemma CanonSplit(n: nat) returns (q: nat)
    ensures n == Canon(n) + 0xFFFF * q
    ensures Canon(n) == 0 <==> n == 0
  {
    q := if n == 0 then 0 else (n - 1) / 0xFFFF;
  }

  ghost function FoldQuotient(n: uint32): nat {
    var t := n % 0x1_0000 + n / 0x1_0000;
    n / 0x1_0000 + (if t == 0 then 0 else (t - 1) / 0xFFFF)
  }

  lemma CanonAdd(a: nat, b: uint16)
    ensures OnesAdd(Canon(a), b) == Canon(a + b)
  {
    var q := CanonSplit(a);
    var t := Canon(a) + b;
    CanonUnique(a + b, OnesAdd(Canon(a), b), if t < 0x1_0000 then q else q + 1);
  }

  // ----- the code meets RFC 1071

  lemma {:induction false} OnesIsCanon(order: Order, s: seq<byte>, n: nat)
    requires n <= Count(s)
    ensures OnesFirst(order, s, n) == Canon(SumFirst(order, s, n))
  {
    if n > 0 {
      OnesIsCanon(order, s, n - 1);
      CanonAdd(SumFirst(order, s, n - 1), WordAt(order, s, n - 1));
    }
  }

  lemma Rfc1071IsCanon(order: Order, s: seq<byte>)
    ensures Rfc1071(order, s) == 0xFFFF - Canon(WordSum(order, s))
  {
    OnesIsCanon(order, s, Count(s));
  }

  lemma {:induction false} SumFirstBound(s: seq<byte>, n: nat)
    requires n <= Count(s)
    ensures SumFirst(Little, s, n) <= if 2 * n <= |s| then 0xFFFF * n else 0xFFFF * (n - 1) + 0xFF
  {
    if n > 0 {
      SumFirstBound(s, n - 1);
    }
  }

  lemma {:induction false} SumFirstZero(order: Order, s: seq<byte>, n: nat)
    requires n <= Count(s)
    ensures SumFirst(order, s, n) == 0 <==> forall i :: 0 <= i < 2 * n && i < |s| ==> s[i] == 0
  {
    if n > 0 {
      SumFirstZero(order, s, n - 1);
    }
  }

  /** A buffer sums to zero exactly when all its bytes are zero. */
  lemma WordSumZero(order: Order, s: seq<byte>)
    ensures WordSum(order, s) == 0 <==> forall i :: 0 <= i < |s| ==> s[i] == 0
  {
    SumFirstZero(order, s, Count(s));
  }

  lemma WordSumBound(s: seq<byte>)
    ensures WordSum(Little, s) <= 0xFFFF * (|s| / 2) + 0xFF * (|s| % 2)
  {
    SumFirstBound(s, Count(s));
  }

  /** The code computes the RFC 1071 checksum exactly on the buffers whose word
      sum fits its 32-bit accumulator; on every other buffer the lost carries
      make the result wrong. */
  lemma CodeMeetsRfc1071(s: seq<byte>)
    requires |s| < 0x1_0000_0000
    ensures CodeChecksum(s) == Rfc1071(Little, s) <==> WordSum(Little, s) < 0x1_0000_0000
  {
    Rfc1071IsCanon(Little, s);
    WordSumBound(s);
    LostCarries(WordSum(Little, s));
  }

  lemma LostCarries(w: nat)
    requires w < 0x8000_0000_0000
    ensures Canon(w) == Canon(w % 0x1_0000_0000) <==> w < 0x1_0000_0000
  {
    var q, r := w / 0x1_0000_0000, w % 0x1_0000_0000;
    var a := CanonSplit(w);
    var b := CanonSplit(r);
    assert w == 0x1_0000_0000 * q + r;
    assert q > 0 ==> Canon(w) != Canon(r);
  }

  /** No buffer of at most 131074 bytes overflows the accumulator; every longer
      length has a buffer that does. */
  lemma AccumulatorBound(n: nat)
    ensures n <= 131074 <==> forall s: seq<byte> :: |s| == n ==> WordSum(Little, s) < 0x1_0000_0000
  {
    if n <= 131074 {
      forall s: seq<byte> | |s| == n ensures WordSum(Little, s) < 0x1_0000_0000 {
        WordSumBound(s);
      }
    } else {
      var ones: seq<byte> := seq(n, _ => 0xFF);
      AllOnes(ones, n / 2);
    }
  }

  lemma {:induction false} AllOnes(s: seq<byte>, n: nat)
    requires 2 * n <= |s|
    requires forall i :: 0 <= i < |s| ==> s[i] == 0xFF
    ensures SumFirst(Little, s, n) == 0xFFFF * n
    ensures |s| % 2 == 1 && n == |s| / 2 ==> WordSum(Little, s) == 0xFFFF * n + 0xFF
  {
    if n > 0 {
      AllOnes(s, n - 1);
    }
  }

  /** Section 2 (B) of RFC 1071: swapping the bytes of the little-endian result
      gives the checksum over big-endian words, for odd lengths too. */
  lemma ByteOrderIndependence(s: seq<byte>)
    ensures Ntons(Rfc1071(Little, s)) == Rfc1071(Big, s)
  {
    Rfc1071IsCanon(Little, s);
    Rfc1071IsCanon(Big, s);
    var q := SwappedSums(s, Count(s));
    CanonSwapped(WordSum(Little, s), WordSum(Big, s), q);
  }

  lemma NtonsTwice(n: uint16)
    ensures Ntons(Ntons(n)) == n
  {
    var hi, lo := n / 0x100, n % 0x100;
    var m: int := 0x100 * lo + hi;
    assert m / 0x100 == lo && m % 0x100 == hi;
  }

  /** The code's own result, byte-swapped as it is stored and read on the wire, is the
      checksum over big-endian words exactly when no carry is lost. */
  lemma CodeByteOrder(s: seq<byte>)
    requires |s| < 0x1_0000_0000
    ensures Ntons(CodeChecksum(s)) == Rfc1071(Big, s) <==> WordSum(Little, s) < 0x1_0000_0000
  {
    ByteOrderIndependence(s);
    CodeMeetsRfc1071(s);
    NtonsTwice(CodeChecksum(s));
    NtonsTwice(Rfc1071(Little, s));
  }

  lemma CanonSwapped(little: nat, big: nat, q: nat)
    requires 0x100 * little == big + 0xFFFF * q
    requires little == 0 <==> big == 0
    ensures Canon(big) == Ntons(Canon(little))
    ensures Ntons(0xFFFF - Canon(little)) == 0xFFFF - Canon(big)
  {
    var a := CanonSplit(little);
    var c := Canon(little);
    var hi, lo := c / 0x100, c % 0x100;
    assert c == 0x100 * hi + lo;
    assert Ntons(c) == 0x100 * lo + hi;
    assert big == Ntons(c) + 0xFFFF * (0x100 * a + hi - q);
    CanonUnique(big, Ntons(c), 0x100 * a + hi - q);
    NtonsComplement(c);
  }

  lemma NtonsComplement(c: uint16)
    ensures Ntons(0xFFFF - c) == 0xFFFF - Ntons(c)
  {
    var hi, lo := c / 0x100, c % 0x100;
    assert 0xFFFF - c == 0x100 * (0xFF - hi) + (0xFF - lo);
  }

  lemma {:induction false} SwappedSums(s: seq<byte>, n: nat) returns (q: nat)
    requires n <= Count(s)
    ensures 0x100 * SumFirst(Little, s, n) == SumFirst(Big, s, n) + 0xFFFF * q
    ensures SumFirst(Little, s, n) == 0 <==> SumFirst(Big, s, n) == 0
  {
    q := 0;
    if n > 0 {
      var rest := SwappedSums(s, n - 1);
      q := rest + if 2 * n - 1 < |s| then s[2 * n - 1] else 0;
    }
  }

  // ----- sums of parts, and filling in the checksum field

  lemma {:induction false} SumPrefix(order: Order, a: seq<byte>, b: seq<byte>, n: nat)
    requires |a| % 2 == 0 && 2 * n <= |a|
    ensures SumFirst(order, a + b, n) == SumFirst(order, a, n)
  {
    if n > 0 {
      SumPrefix(order, a, b, n - 1);
    }
  }

  lemma {:induction false} SumSuffix(order: Order, a: seq<byte>, b: seq<byte>, n: nat)
    requires |a| % 2 == 0 && n <= Count(b)
    ensures SumFirst(order, a + b, |a| / 2 + n) == WordSum(order, a) + SumFirst(order, b, n)
  {
    if n == 0 {
      SumPrefix(order, a, b, |a| / 2);
    } else {
      SumSuffix(order, a, b, n - 1);
      assert WordAt(order, a + b, |a| / 2 + n - 1) == WordAt(order, b, n - 1);
    }
  }

  lemma WordSumConcat(order: Order, a: seq<byte>, b: seq<byte>)
    requires |a| % 2 == 0
    ensures WordSum(order, a + b) == WordSum(order, a) + WordSum(order, b)
  {
    SumSuffix(order, a, b, Count(b));
  }

  function Le16(w: uint16): (bytes: seq<byte>)
    ensures |bytes| == 2 && Word(Little, bytes[0], bytes[1]) == w
  {
    [w % 0x100, w / 0x100]
  }

  lemma {:induction false} SumPointwise(order: Order, s: seq<byte>, a: seq<byte>, b: seq<byte>, n: nat)
    requires |s| == |a| == |b| && n <= Count(s)
    requires forall i :: 0 <= i < |s| ==> s[i] as int == a[i] as int + b[i] as int
    ensures SumFirst(order, s, n) == SumFirst(order, a, n) + SumFirst(order, b, n)
  {
    if n > 0 {
      SumPointwise(order, s, a, b, n - 1);
    }
  }

  /** A message verifies exactly when its words add up to a multiple of 65535, not 0. */
  lemma VerifiesIff(order: Order, s: seq<byte>)
    ensures Rfc1071(order, s) == 0 <==> WordSum(order, s) > 0 && WordSum(order, s) % 0xFFFF == 0
  {
    Rfc1071IsCanon(order, s);
    CanonFull(WordSum(order, s));
  }

  lemma CanonFull(n: nat)
    ensures Canon(n) == 0xFFFF <==> n > 0 && n % 0xFFFF == 0
  {
    var q := CanonSplit(n);
  }

  lemma WordSumPair(order: Order, first: byte, second: byte)
    ensures WordSum(order, [first, second]) == Word(order, first, second)
  {
    assert SumFirst(order, [first, second], 0) == 0;
  }

  /** The words of a message around one aligned 16-bit field. */
  lemma FieldSum(order: Order, before: seq<byte>, first: byte, second: byte, after: seq<byte>)
    requires |before| % 2 == 0
    ensures WordSum(order, before + [first, second] + after)
         == WordSum(order, before) + Word(order, first, second) + WordSum(order, after)
  {
    WordSumConcat(order, before + [first, second], after);
    WordSumConcat(order, before, [first, second]);
    WordSumPair(order, first, second);
  }

  lemma FieldChecksum(order: Order, before: seq<byte>, first: byte, second: byte, after: seq<byte>)
    requires |before| % 2 == 0
    ensures Rfc1071(order, before + [first, second] + after)
         == 0xFFFF - Canon(WordSum(order, before) + WordSum(order, after) + Word(order, first, second))
  {
    FieldSum(order, before, first, second, after);
    Rfc1071IsCanon(order, before + [first, second] + after);
  }

  /** A message checksummed with a zero field verifies once the result is stored
      in the field: the checksum over the whole message is then 0. */
  lemma FilledFieldVerifies(before: seq<byte>, after: seq<byte>)
    requires |before| % 2 == 0
    ensures var c := Rfc1071(Little, before + [0, 0] + after);
            Rfc1071(Little, before + Le16(c) + after) == 0
  {
    var w := WordSum(Little, before) + WordSum(Little, after);
    var c := 0xFFFF - Canon(w);
    FieldChecksum(Little, before, 0, 0, after);
    FieldChecksum(Little, before, c % 0x100, c / 0x100, after);
    ComplementFills(w);
  }

  lemma ComplementFills(w: nat)
    ensures Canon(w + (0xFFFF - Canon(w))) == 0xFFFF
  {
    var q := CanonSplit(w);
    CanonUnique(w + (0xFFFF - Canon(w)), 0xFFFF, q);
  }

  /** The same of the code, at every length: even where it loses carries, it checks its
      own filled message to 0. */
  lemma CodeChecksFilledField(before: seq<byte>, after: seq<byte>)
    requires |before| % 2 == 0
    ensures var c := CodeChecksum(before + [0, 0] + after);
            CodeChecksum(before + Le16(c) + after) == 0
  {
    var c := CodeChecksum(before + [0, 0] + after);
    FieldSum(Little, before, 0, 0, after);
    FieldSum(Little, before, c % 0x100, c / 0x100, after);
    FilledAccumulator(WordSum(Little, before) + WordSum(Little, after));
  }

  lemma FilledAccumulator(w: nat)
    ensures var c := 0xFFFF - Canon(w % 0x1_0000_0000);
            Canon((w + c) % 0x1_0000_0000) == 0xFFFF
  {
    var q, r := w / 0x1_0000_0000, w % 0x1_0000_0000;
    var c := 0xFFFF - Canon(r);
    var k := CanonSplit(r);
    assert r + c == 0xFFFF * (k + 1) < 0x1_0000_0000;
    WrapUnique(w + c, r + c, q);
    ComplementFills(r);
  }

  /** Messages of the lengths in use, up to 131074 bytes, verify by RFC 1071 once the
      code's result is stored. */
  lemma StoredChecksumVerifies(before: seq<byte>, after: seq<byte>)
    requires |before| % 2 == 0 && |before| + 2 + |after| <= 131074
    ensures var c := CodeChecksum(before + [0, 0] + after);
            Rfc1071(Big, before + Le16(c) + after) == 0
  {
    var zeroed := before + [0, 0] + after;
    ShortIsExact(zeroed);
    FilledFieldVerifies(before, after);
    VerifiesInBothOrders(before + Le16(CodeChecksum(zeroed)) + after);
  }

  lemma ShortIsExact(s: seq<byte>)
    requires |s| <= 131074
    ensures CodeChecksum(s) == Rfc1071(Little, s)
  {
    WordSumBound(s);
    CodeMeetsRfc1071(s);
  }

  lemma ShortCodeByteOrder(s: seq<byte>)
    requires |s| <= 131074
    ensures Ntons(CodeChecksum(s)) == Rfc1071(Big, s)
  {
    WordSumBound(s);
    CodeByteOrder(s);
  }

  /** A message verifies in one byte order exactly when it does in the other. */
  lemma VerifiesInBothOrders(s: seq<byte>)
    ensures Rfc1071(Little, s) == 0 <==> Rfc1071(Big, s) == 0
  {
    ByteOrderIndependence(s);
  }
}
