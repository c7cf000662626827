/** The string and memory routines of src/strings.c.

    A C string that a routine only reads is a sequence holding a NUL; `CStr` is
    the text it denotes. Memory a routine writes is an array. */
module CLib {

  const NUL: char := '\0'

  /** The text before the first NUL. */
  function CStr(s: seq<char>): (t: string)
    ensures |t| <= |s| && t == s[..|t|] && NUL !in t
    ensures |t| < |s| ==> s[|t|] == NUL
  {
    if s == [] || s[0] == NUL then [] else [s[0]] + CStr(s[1..])
  }

  lemma {:induction false} CStrIs(s: seq<char>, n: nat)
    requires n < |s| && s[n] == NUL
    requires NUL !in s[..n]
    ensures CStr(s) == s[..n]
  {
    if n > 0 {
      assert s[..n][0] == s[0];
      assert s[1..][..n - 1] == s[..n][1..];
      CStrIs(s[1..], n - 1);
    }
  }

  method Strlen(s: array<char>) returns (n: nat)
    requires NUL in s[..]
    ensures n == |CStr(s[..])|
  {
    n := 0;
    while s[n] != NUL
      invariant n < s.Length
      invariant NUL !in s[..n]
      decreases s.Length - n
    {
      assert s[..n + 1] == s[..n] + [s[n]];
      assert s[..] == s[..n + 1] + s[n + 1..];
      n := n + 1;
    }
    CStrIs(s[..], n);
    assert s[..][..n] == s[..n];
  }

  /** Where two C strings, or their first `n` characters, first differ or both end. */
  predicate ComparedAt(a: seq<char>, b: seq<char>, i: nat) {
    && i < |a| && i < |b|
    && (forall j :: 0 <= j < i ==> a[j] == b[j] && a[j] != NUL)
    && (a[i] != b[i] || a[i] == NUL)
  }

  /** The difference of two texts: of their codes at the first place they differ, where
      the end of a text counts as NUL. */
  function Compare(x: string, y: string): int {
    if x == [] && y == [] then 0
    else if x == [] then -(y[0] as int)
    else if y == [] then x[0] as int
    else if x[0] != y[0] then x[0] as int - y[0] as int
    else Compare(x[1..], y[1..])
  }

  /** It is zero exactly on equal texts. */
  lemma {:induction false} CompareZero(x: string, y: string)
    requires NUL !in x && NUL !in y
    ensures Compare(x, y) == 0 <==> x == y
    decreases |x|
  {
    if x != [] && y != [] {
      CompareZero(x[1..], y[1..]);
      assert x == [x[0]] + x[1..] && y == [y[0]] + y[1..];
    }
  }

  lemma {:induction false} ComparePrefix(x: string, y: string, i: nat)
    requires i <= |x| && i <= |y|
    requires forall j :: 0 <= j < i ==> x[j] == y[j]
    ensures Compare(x, y) == Compare(x[i..], y[i..])
  {
    if i > 0 {
      ComparePrefix(x[1..], y[1..], i - 1);
      assert x[1..][i - 1..] == x[i..] && y[1..][i - 1..] == y[i..];
    }
  }

  lemma CStrReaches(a: seq<char>, i: nat)
    requires i <= |a| && forall j :: 0 <= j < i ==> a[j] != NUL
    ensures i <= |CStr(a)|
    ensures i < |a| ==> (i < |CStr(a)| <==> a[i] != NUL)
  {
  }

  lemma ComparedTexts(a: seq<char>, b: seq<char>, n: nat, i: nat)
    requires NUL in a && NUL in b && i < n && ComparedAt(a, b, i)
    ensures Compare(Take(CStr(a), n), Take(CStr(b), n)) == a[i] as int - b[i] as int
  {
    var x, y := Take(CStr(a), n), Take(CStr(b), n);
    CStrReaches(a, i);
    CStrReaches(b, i);
    ComparePrefix(x, y, i);
  }

  lemma NotYetEnded(a: seq<char>, i: nat)
    requires NUL in a && i <= |a| && forall j :: 0 <= j < i ==> a[j] != NUL
    ensures i < |a|
  {
  }

  /** `strcmp`. */
  method Strcmp(a: seq<char>, b: seq<char>) returns (r: int)
    requires NUL in a && NUL in b
    ensures exists i: nat :: ComparedAt(a, b, i) && r == a[i] as int - b[i] as int
    ensures r == Compare(CStr(a), CStr(b))
  {
    var i := 0;
    while a[i] != NUL && a[i] == b[i]
      invariant i < |a| && i < |b|
      invariant forall j :: 0 <= j < i ==> a[j] == b[j] && a[j] != NUL
      decreases |a| - i
    {
      i := i + 1;
      NotYetEnded(a, i);
      NotYetEnded(b, i);
    }
    assert ComparedAt(a, b, i);
    r := a[i] as int - b[i] as int;
    var n := |a| + |b| + 1;
    ComparedTexts(a, b, n, i);
    assert Take(CStr(a), n) == CStr(a) && Take(CStr(b), n) == CStr(b);
  }

  /** `strncmp`: the difference of the first `n` characters. */
  method Strncmp(a: seq<char>, b: seq<char>, n: nat) returns (r: int)
    requires NUL in a && NUL in b
    ensures || (exists i: nat :: i < n && ComparedAt(a, b, i) && r == a[i] as int - b[i] as int)
            || (r == 0 && n <= |a| && n <= |b| && forall j :: 0 <= j < n ==> a[j] == b[j] && a[j] != NUL)
    ensures r == Compare(Take(CStr(a), n), Take(CStr(b), n))
  {
    for i := 0 to n
      invariant i <= |a| && i <= |b|
      invariant forall j :: 0 <= j < i ==> a[j] == b[j] && a[j] != NUL
    {
      if a[i] != b[i] || a[i] == NUL || b[i] == NUL {
        assert ComparedAt(a, b, i);
        ComparedTexts(a, b, n, i);
        return a[i] as int - b[i] as int;
      }
    }
    SameTexts(a, b, n);
    return 0;
  }

  lemma SameTexts(a: seq<char>, b: seq<char>, n: nat)
    requires n <= |a| && n <= |b| && forall j :: 0 <= j < n ==> a[j] == b[j] && a[j] != NUL
    ensures Compare(Take(CStr(a), n), Take(CStr(b), n)) == 0
  {
    CStrReaches(a, n);
    CStrReaches(b, n);
    ComparePrefix(Take(CStr(a), n), Take(CStr(b), n), n);
  }

  function Take<T>(s: seq<T>, n: nat): (t: seq<T>)
    ensures t <= s && |t| == if n < |s| then n else |s|
  {
    if n < |s| then s[..n] else s
  }

  /** `strcpy(dest + at, src)` for a source text outside `dest`. */
  method Strcpy(dest: array<char>, at: nat, src: string)
    requires NUL !in src
    requires at + |src| < dest.Length
    modifies dest
    ensures dest[..] == old(dest[..at]) + src + [NUL] + old(dest[at + |src| + 1..])
  {
    for i := 0 to |src|
      invariant dest[..at] == old(dest[..at])
      invariant dest[at..at + i] == src[..i]
      invariant dest[at + i..] == old(dest[at + i..])
    {
      dest[at + i] := src[i];
      assert dest[at..at + i + 1] == dest[at..at + i] + [src[i]];
      assert dest[at + i + 1..] == dest[at + i..][1..];
    }
    dest[at + |src|] := NUL;
    assert dest[..] == dest[..at] + dest[at..at + |src|] + [NUL] + dest[at + |src| + 1..];
  }

  /** What `strncpy` leaves in the first `n` cells. */
  function Padded(src: string, n: nat): (r: seq<char>)
    ensures |r| == n
  {
    Take(src, n) + seq(n - |Take(src, n)|, _ => NUL)
  }

  /** `strncpy` into a buffer held as a value: the caller stores the result back. */
  method Strncpy(dest: seq<char>, src: string, n: nat) returns (r: seq<char>)
    requires NUL !in src
    requires n <= |dest|
    ensures |r| == |dest| && r[n..] == dest[n..]
    ensures forall j :: 0 <= j < n ==> r[j] == if j < |src| then src[j] else NUL
    ensures r[..n] == Padded(src, n)
  {
    r := dest;
    var i := 0;
    while i < n && i < |src|
      invariant i <= n && i <= |src|
      invariant |r| == |dest|
      invariant r[..i] == src[..i] && r[n..] == dest[n..]
    {
      r := r[i := src[i]];
      i := i + 1;
    }
    ghost var copied := i;
    while i < n
      invariant copied <= i <= n
      invariant |r| == |dest|
      invariant r[..copied] == src[..copied] && r[n..] == dest[n..]
      invariant forall j :: copied <= j < i ==> r[j] == NUL
    {
      r := r[i := NUL];
      i := i + 1;
    }
    assert Take(src, n) == src[..copied];
  }

  // ----- memory

  /** What copying upwards leaves: a destination cell whose source lies in the part
      of the destination already written holds that cell's new value. */
  ghost predicate CopiedUp<T>(before: seq<T>, after: seq<T>, d: nat, s: nat, n: nat)
    requires |before| == |after| && d + n <= |before| && s + n <= |before|
  {
    forall k :: d <= k < d + n ==>
      after[k] == if d <= k - d + s < k then after[k - d + s] else before[k - d + s]
  }

  /** `memcpy(mem + d, mem + s, n)`. */
  method Memcpy<T>(mem: array<T>, d: nat, s: nat, n: nat)
    requires d + n <= mem.Length && s + n <= mem.Length
    modifies mem
    ensures CopiedUp(old(mem[..]), mem[..], d, s, n)
    ensures forall k :: 0 <= k < mem.Length && !(d <= k < d + n) ==> mem[k] == old(mem[k])
  {
    for i := 0 to n
      invariant CopiedUp(old(mem[..]), mem[..], d, s, i)
      invariant forall k :: 0 <= k < mem.Length && !(d <= k < d + i) ==> mem[k] == old(mem[k])
    {
      mem[d + i] := mem[s + i];
    }
  }

  /** `memcpy` from an object that is not part of `dest`. */
  method MemcpyFrom<T>(dest: array<T>, at: nat, src: seq<T>)
    requires at + |src| <= dest.Length
    modifies dest
    ensures forall k :: at <= k < at + |src| ==> dest[k] == src[k - at]
    ensures forall k :: 0 <= k < dest.Length && !(at <= k < at + |src|) ==> dest[k] == old(dest[k])
  {
    for i := 0 to |src|
      invariant forall k :: at <= k < at + i ==> dest[k] == src[k - at]
      invariant forall k :: 0 <= k < dest.Length && !(at <= k < at + i) ==> dest[k] == old(dest[k])
    {
      dest[at + i] := src[i];
    }
  }

  /** `memmove(mem + d, mem + s, n)`: the destination is the old source for every
      overlap, and nothing else changes. */
  method Memmove<T>(mem: array<T>, d: nat, s: nat, n: nat)
    requires d + n <= mem.Length && s + n <= mem.Length
    modifies mem
    ensures mem[d..d + n] == old(mem[s..s + n])
    ensures forall k :: 0 <= k < mem.Length && !(d <= k < d + n) ==> mem[k] == old(mem[k])
  {
    if d < s {
      for i := 0 to n
        invariant forall k :: d <= k < d + i ==> mem[k] == old(mem[k - d + s])
        invariant forall k :: 0 <= k < mem.Length && !(d <= k < d + i) ==> mem[k] == old(mem[k])
      {
        mem[d + i] := mem[s + i];
      }
    } else {
      for i := n downto 0
        invariant forall k :: d + i <= k < d + n ==> mem[k] == old(mem[k - d + s])
        invariant forall k :: 0 <= k < mem.Length && !(d + i <= k < d + n) ==> mem[k] == old(mem[k])
      {
        mem[d + i] := mem[s + i];
      }
    }
  }

  /** The source repeats with period d - s. */
  ghost predicate Periodic<T>(before: seq<T>, d: nat, s: nat, n: nat)
    requires s < d && s + n <= |before|
  {
    forall k :: d <= k < s + n ==> before[k] == before[k - d + s]
  }

  /** `memcpy` does what `memmove` does exactly when the destination does not start
      inside the source, or the source repeats with the distance between them. */
  lemma MemcpyAgreesWithMemmove<T>(before: seq<T>, after: seq<T>, d: nat, s: nat, n: nat)
    requires |before| == |after| && d + n <= |before| && s + n <= |before|
    requires CopiedUp(before, after, d, s, n)
    ensures after[d..d + n] == before[s..s + n] <==> !(s < d < s + n) || Periodic(before, d, s, n)
  {
    if !(s < d < s + n) || Periodic(before, d, s, n) {
      CopiedPrefix(before, after, d, s, n, n);
    } else if after[d..d + n] == before[s..s + n] {
      forall k | d <= k < s + n ensures before[k] == before[k - d + s] {
        assert after[k + d - s] == before[s..s + n][k - s];
        assert after[k] == before[s..s + n][k - d];
      }
    }
  }

  lemma {:induction false} CopiedPrefix<T>(before: seq<T>, after: seq<T>, d: nat, s: nat, n: nat, i: nat)
    requires |before| == |after| && d + n <= |before| && s + n <= |before| && i <= n
    requires CopiedUp(before, after, d, s, n)
    requires !(s < d < s + n) || Periodic(before, d, s, n)
    ensures after[d..d + i] == before[s..s + i]
  {
    if i > 0 {
      CopiedPrefix(before, after, d, s, n, i - 1);
      var k := d + i - 1;
      if d <= k - d + s < k {
        var j := k - d + s;
        assert after[j] == after[d..k][j - d] == before[s..s + i - 1][j - d] == before[j - d + s];
        assert before[j] == before[j - d + s];
      }
      assert after[d..d + i] == after[d..d + i - 1] + [after[k]];
      assert before[s..s + i] == before[s..s + i - 1] + [before[s + i - 1]];
    }
  }
}
