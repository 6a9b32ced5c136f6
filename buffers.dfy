// Sequential reads from a `java.nio.ByteBuffer` wrapped around a byte array,
// as the dual-camera record parsers do them: a run of ints at an offset, in
// either byte order, with a BufferUnderflowException (None) when the bytes
// run out.
module Buffers {
  import opened Bytes

  /** `getShort` in the given byte order. */
  function GetShort(s: seq<byte>, at: nat, bigEndian: bool): (v: int)
    requires at + 2 <= |s|
    ensures IsInt16(v)
  {
    if bigEndian then GetShortBE(s, at) else GetShortLE(s, at)
  }

  /** k successive `getInt` (or `getFloat` bit patterns) from offset at. */
  function GetInts(s: seq<byte>, at: nat, k: nat, bigEndian: bool): (r: Option<seq<int>>)
    ensures r.Some? <==> at + 4 * k <= |s|
    ensures r.Some? ==> |r.value| == k
    ensures r.Some? ==> forall i :: 0 <= i < k ==> r.value[i] == GetInt(s, at + 4 * i, bigEndian)
    decreases k
  {
    if at + 4 * k > |s| then None
    else if k == 0 then Some([])
    else
      var rest := GetInts(s, at + 4, k - 1, bigEndian).value;
      var r := [GetInt(s, at, bigEndian)] + rest;
      assert forall i :: 1 <= i < k ==> r[i] == rest[i - 1] && at + 4 + 4 * (i - 1) == at + 4 * i;
      Some(r)
  }

  /** The bytes of successive `putInt` calls. */
  function PutInts(vs: seq<int>, bigEndian: bool): (s: seq<byte>)
    requires forall i :: 0 <= i < |vs| ==> IsInt32(vs[i])
    ensures |s| == 4 * |vs|
  {
    if vs == [] then [] else PutInt(vs[0], bigEndian) + PutInts(vs[1..], bigEndian)
  }

  /** An int read inside the first part of a concatenation only depends on that part. */
  lemma GetIntPrefix(s: seq<byte>, t: seq<byte>, at: nat, bigEndian: bool)
    requires at + 4 <= |s|
    ensures GetInt(s + t, at, bigEndian) == GetInt(s, at, bigEndian)
  {
    assert (s + t)[at..at + 4] == s[at..at + 4];
    assert forall j :: at <= j < at + 4 ==> (s + t)[j] == s[j];
  }

  /** An int read after a prefix is read from what follows the prefix. */
  lemma GetIntSuffix(p: seq<byte>, s: seq<byte>, at: nat, bigEndian: bool)
    requires at + 4 <= |s|
    ensures GetInt(p + s, |p| + at, bigEndian) == GetInt(s, at, bigEndian)
  {
    var q := |p| + at;
    assert (p + s)[q] == s[at] && (p + s)[q + 1] == s[at + 1];
    assert (p + s)[q + 2] == s[at + 2] && (p + s)[q + 3] == s[at + 3];
  }

  /** Reading back the ints written, whatever follows them, gives the ints. */
  lemma GetPutInts(vs: seq<int>, bigEndian: bool, tail: seq<byte>)
    requires forall i :: 0 <= i < |vs| ==> IsInt32(vs[i])
    ensures GetInts(PutInts(vs, bigEndian) + tail, 0, |vs|, bigEndian) == Some(vs)
  {
    var s := PutInts(vs, bigEndian) + tail;
    var r := GetInts(s, 0, |vs|, bigEndian).value;
    forall i | 0 <= i < |vs|
      ensures r[i] == vs[i]
    {
      PutIntsAt(vs, bigEndian, tail, i);
    }
    assert r == vs;
  }

  /** The i-th int of what `PutInts` wrote is the i-th value. */
  lemma {:induction false} PutIntsAt(vs: seq<int>, bigEndian: bool, tail: seq<byte>, i: nat)
    requires forall j :: 0 <= j < |vs| ==> IsInt32(vs[j])
    requires i < |vs|
    ensures GetInt(PutInts(vs, bigEndian) + tail, 4 * i, bigEndian) == vs[i]
  {
    var head := PutInt(vs[0], bigEndian);
    var rest := PutInts(vs[1..], bigEndian) + tail;
    assert PutInts(vs, bigEndian) + tail == head + rest;
    if i == 0 {
      GetIntPrefix(head, rest, 0, bigEndian);
      IntRoundTrip(vs[0], bigEndian);
    } else {
      PutIntsAt(vs[1..], bigEndian, tail, i - 1);
      GetIntSuffix(head, rest, 4 * (i - 1), bigEndian);
    }
  }
}
