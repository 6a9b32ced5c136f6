// Byte strings written one after another: where each piece ends up.
module Chunks {
  import opened Bytes

  /** The chunks written one after another, the first n of them. */
  function Concat(cs: seq<seq<byte>>, n: nat): (s: seq<byte>)
    requires n <= |cs|
    ensures |s| == Total(cs, n)
  {
    if n == 0 then [] else Concat(cs, n - 1) + cs[n - 1]
  }

  /** The summed length of the first n chunks. */
  function Total(cs: seq<seq<byte>>, n: nat): nat
    requires n <= |cs|
  {
    if n == 0 then 0 else Total(cs, n - 1) + |cs[n - 1]|
  }

  /**
   * Chunk k of a concatenation lies after the chunks before it. The bounds are
   * parameters so that callers name them in their own terms.
   */
  lemma {:induction false} ConcatAt(cs: seq<seq<byte>>, k: nat, n: nat, lo: int, hi: int)
    requires k < n <= |cs| && lo == Total(cs, k) && hi == lo + |cs[k]|
    ensures 0 <= lo <= hi <= |Concat(cs, n)|
    ensures Concat(cs, n)[lo..hi] == cs[k]
    decreases n
  {
    var pre := Concat(cs, n - 1);
    if k < n - 1 {
      ConcatAt(cs, k, n - 1, lo, hi);
      SliceLeft(pre, cs[n - 1], lo, hi);
    } else {
      SliceRight(pre, cs[n - 1], lo, hi);
    }
  }

  /** A slice of one chunk is a slice of the concatenation, shifted by the chunks before it. */
  lemma PartSlice(cs: seq<seq<byte>>, j: nat, a: nat, b: nat, v: seq<byte>, lo: int, hi: int)
    requires j < |cs| && a <= b <= |cs[j]| && cs[j][a..b] == v
    requires lo == Total(cs, j) + a && hi == Total(cs, j) + b
    ensures 0 <= lo <= hi <= |Concat(cs, |cs|)|
    ensures Concat(cs, |cs|)[lo..hi] == v
  {
    var i := Total(cs, j);
    ConcatAt(cs, j, |cs|, i, i + |cs[j]|);
    SliceOfSlice(Concat(cs, |cs|), cs[j], i, a, b, lo, hi);
  }

  /** A slice inside a known slice. */
  lemma SliceOfSlice(s: seq<byte>, t: seq<byte>, i: nat, a: nat, b: nat, lo: int, hi: int)
    requires i + |t| <= |s| && s[i..i + |t|] == t && a <= b <= |t|
    requires lo == i + a && hi == i + b
    ensures s[lo..hi] == t[a..b]
  {
    forall j | 0 <= j < b - a
      ensures s[lo..hi][j] == t[a..b][j]
    {
      assert t[a + j] == s[i..i + |t|][a + j];
    }
  }

  lemma SliceLeft(a: seq<byte>, b: seq<byte>, i: nat, j: nat)
    requires i <= j <= |a|
    ensures (a + b)[i..j] == a[i..j]
  {
  }

  lemma SliceRight(a: seq<byte>, b: seq<byte>, i: nat, j: nat)
    requires |a| <= i <= j <= |a| + |b|
    ensures (a + b)[i..j] == b[i - |a|..j - |a|]
  {
  }

}
