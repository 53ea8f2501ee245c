/** Byte strings and the handful of operations on them that the SDK takes from
    Python: fixed-width integers, clamping slices, joins and substring search. */
module ByteStrings {
  type byte = b: int | 0 <= b < 256
  type Bytes = seq<byte>

  datatype Option<+T> = None | Some(value: T)

  const TWO_16: nat := 0x1_0000
  const TWO_32: nat := 0x1_0000_0000

  function Min(a: int, b: int): int { if a < b then a else b }

  function Max(a: int, b: int): int { if a < b then b else a }

  lemma ConcatAssoc<T>(a: seq<T>, b: seq<T>, c: seq<T>)
    ensures a + b + c == a + (b + c)
  {
  }

  // ---------------------------------------------------------- integers

  /** 256 to the power n: the first value that n bytes cannot hold. */
  function Pow256(n: nat): (p: nat)
    ensures p > 0
  {
    if n == 0 then 1 else 256 * Pow256(n - 1)
  }

  lemma PowersOf256()
    ensures Pow256(2) == TWO_16 && Pow256(4) == TWO_32
  {
    assert Pow256(1) == 256;
    assert Pow256(3) == 256 * Pow256(2);
  }

  /** `v.to_bytes(n, "little")` for a value that fits. */
  function Little(v: nat, n: nat): (b: Bytes)
    ensures |b| == n
  {
    if n == 0 then [] else [v % 256] + Little(v / 256, n - 1)
  }

  /** `int.from_bytes(b, "little")`. */
  function FromLittle(b: Bytes): nat {
    if b == [] then 0 else b[0] + 256 * FromLittle(b[1..])
  }

  /** `v.to_bytes(n, "big")` for a value that fits. */
  function Big(v: nat, n: nat): (b: Bytes)
    ensures |b| == n
  {
    if n == 0 then [] else Big(v / 256, n - 1) + [v % 256]
  }

  /** `int.from_bytes(b, "big")`. */
  function FromBig(b: Bytes): nat {
    if b == [] then 0 else 256 * FromBig(b[..|b| - 1]) + b[|b| - 1]
  }

  lemma {:induction false} LittleRoundTrip(v: nat, n: nat)
    requires v < Pow256(n)
    ensures FromLittle(Little(v, n)) == v
  {
    if n > 0 {
      LittleRoundTrip(v / 256, n - 1);
      assert Little(v, n)[1..] == Little(v / 256, n - 1);
    }
  }

  lemma {:induction false} FromLittleRoundTrip(b: Bytes)
    ensures FromLittle(b) < Pow256(|b|)
    ensures Little(FromLittle(b), |b|) == b
  {
    if b != [] {
      FromLittleRoundTrip(b[1..]);
      var v := FromLittle(b);
      assert v % 256 == b[0] && v / 256 == FromLittle(b[1..]);
      assert [b[0]] + b[1..] == b;
    }
  }

  lemma {:induction false} BigRoundTrip(v: nat, n: nat)
    requires v < Pow256(n)
    ensures FromBig(Big(v, n)) == v
  {
    if n > 0 {
      BigRoundTrip(v / 256, n - 1);
      assert Big(v, n)[..n - 1] == Big(v / 256, n - 1);
    }
  }

  lemma {:induction false} FromBigRoundTrip(b: Bytes)
    ensures FromBig(b) < Pow256(|b|)
    ensures Big(FromBig(b), |b|) == b
  {
    if b != [] {
      var n := |b| - 1;
      FromBigRoundTrip(b[..n]);
      var v := FromBig(b);
      assert v % 256 == b[n] && v / 256 == FromBig(b[..n]);
      assert b[..n] + [b[n]] == b;
    }
  }

  // ------------------------------------------------------------ slices

  /** The number that four bytes are, and two, given from the lowest up. */
  function Four(b0: int, b1: int, b2: int, b3: int): int {
    b0 + 0x100 * b1 + 0x1_0000 * b2 + 0x100_0000 * b3
  }

  function Two(b0: int, b1: int): int { b0 + 0x100 * b1 }

  lemma NumberOf(b: Bytes)
    ensures |b| == 4 ==> FromLittle(b) == Four(b[0], b[1], b[2], b[3])
    ensures |b| == 2 ==> FromLittle(b) == Two(b[0], b[1])
    ensures |b| == 4 ==> FromBig(b) == Four(b[3], b[2], b[1], b[0])
    ensures |b| == 2 ==> FromBig(b) == Two(b[1], b[0])
  {
    if |b| == 4 {
      var upper, lower := b[1..], b[..3];
      assert FromLittle(b) == b[0] + 256 * FromLittle(upper);
      assert FromLittle(upper) == upper[0] + 256 * FromLittle(upper[1..]);
      OfTwo(upper[1..]);
      assert FromBig(b) == 256 * FromBig(lower) + b[3];
      assert FromBig(lower) == 256 * FromBig(lower[..2]) + lower[2];
      OfTwo(lower[..2]);
    } else if |b| == 2 {
      OfTwo(b);
    }
  }

  lemma OfTwo(b: Bytes)
    requires |b| == 2
    ensures FromLittle(b) == Two(b[0], b[1]) && FromBig(b) == Two(b[1], b[0])
  {
    var last, first := b[1..], b[..1];
    assert FromLittle(b) == b[0] + 256 * FromLittle(last);
    assert FromLittle(last) == last[0] + 256 * FromLittle(last[1..]) && last[1..] == [];
    assert FromBig(b) == 256 * FromBig(first) + b[1];
    assert FromBig(first) == 256 * FromBig(first[..0]) + first[0] && first[..0] == [];
  }

  /** `b[lo:hi]`, which clamps both ends instead of failing. */
  function Slice(b: Bytes, lo: nat, hi: nat): (s: Bytes)
    ensures |s| <= |b|
    ensures lo <= hi <= |b| ==> s == b[lo..hi]
    ensures lo <= hi ==> |s| == Max(0, Min(hi, |b|) - lo)
  {
    var end := Min(hi, |b|);
    if lo >= end then [] else b[lo..end]
  }

  /** `b"".join(parts)`. */
  function Join(parts: seq<Bytes>): (j: Bytes)
  {
    if parts == [] then [] else Join(parts[..|parts| - 1]) + parts[|parts| - 1]
  }

  lemma {:induction false} JoinConcat(a: seq<Bytes>, b: seq<Bytes>)
    ensures Join(a + b) == Join(a) + Join(b)
  {
    if b == [] {
      assert a + b == a;
    } else {
      var m := |b| - 1;
      JoinConcat(a, b[..m]);
      assert (a + b)[..|a + b| - 1] == a + b[..m];
    }
  }

  lemma JoinSingle(a: Bytes)
    ensures Join([a]) == a
  {
    assert [a][..0] == [];
  }

  lemma SuffixSplit<T>(s: seq<T>, at: nat, a: seq<T>, b: seq<T>)
    requires at <= |s| && s[at..] == a + b
    ensures at + |a| <= |s| && s[at..at + |a|] == a && s[at + |a|..] == b
  {
    assert s[at..][..|a|] == s[at..at + |a|];
    assert s[at..][|a|..] == s[at + |a|..];
  }

  lemma SuffixSplitThree<T>(s: seq<T>, at: nat, a: seq<T>, b: seq<T>, c: seq<T>)
    requires at <= |s| && s[at..] == a + b + c
    ensures at + |a| + |b| <= |s|
    ensures s[at..at + |a|] == a && s[at + |a|..at + |a| + |b|] == b && s[at + |a| + |b|..] == c
  {
    SuffixSplit(s, at, a + b, c);
    assert s[at..at + |a + b|][..|a|] == s[at..at + |a|];
    assert s[at..at + |a + b|][|a|..] == s[at + |a|..at + |a| + |b|];
  }

  lemma SliceConcat<T>(s: seq<T>, a: nat, b: nat, c: nat)
    requires a <= b <= c <= |s|
    ensures s[a..b] + s[b..c] == s[a..c]
  {
  }

  lemma SliceOfSlice<T>(s: seq<T>, lo: nat, hi: nat, a: nat, b: nat)
    requires lo <= hi <= |s| && a <= b <= hi - lo
    ensures s[lo..hi][a..b] == s[lo + a..lo + b]
  {
    var left, right := s[lo..hi][a..b], s[lo + a..lo + b];
    assert |left| == |right|;
    assert forall k :: 0 <= k < |left| ==> left[k] == right[k];
  }

  lemma SliceTake<T>(s: seq<T>, a: nat, b: nat, k: nat)
    requires a <= b <= |s| && k <= b - a
    ensures s[a..b][..k] == s[a..a + k]
  {
  }

  // ------------------------------------------------------------ search

  /** Whether `needle` occurs in `hay` at position `at`. */
  predicate At(hay: Bytes, needle: Bytes, at: int) {
    && 0 <= at && at + |needle| <= |hay|
    && forall k :: 0 <= k < |needle| ==> needle[k] == hay[at + k]
  }

  /** `hay.find(needle, start)`: the least occurrence from `start` on, or -1. */
  function Find(hay: Bytes, needle: Bytes, start: nat): (p: int)
    ensures p == -1 || (start <= p && At(hay, needle, p))
    ensures forall q :: start <= q && (p == -1 || q < p) ==> !At(hay, needle, q)
    decreases |hay| - start
  {
    if start + |needle| > |hay| then -1
    else if At(hay, needle, start) then start
    else Find(hay, needle, start + 1)
  }

  /** `hay[:end].rfind(needle)` for `end` at most `|hay|`: the greatest
      occurrence that lies inside the first `end` bytes, or -1. */
  function RFind(hay: Bytes, needle: Bytes, end: nat): (p: int)
    requires end <= |hay|
    ensures p == -1 || (p + |needle| <= end && At(hay, needle, p))
    ensures forall q :: p < q && q + |needle| <= end ==> !At(hay, needle, q)
  {
    if end < |needle| then -1
    else if At(hay, needle, end - |needle|) then end - |needle|
    else if end == 0 then -1
    else RFind(hay, needle, end - 1)
  }
}
