// The bytes of one MP IFD as MpoOutputStream writes them
// (src/com/android/camera/mpo/MpoOutputStream.java, `writeIfd` and
// `writeTagValue`). OrderedDataOutputStream is not part of this model: it is
// taken as an append-only byte sink whose `writeShort`/`writeInt` put two and
// four bytes in its current byte order.
module MpoIfdBytes {
  import opened Bytes
  import opened MpoTag
  import opened MpoImage
  import opened Chunks

  /** The longs of a tag, each cast to a Java int and written as four bytes. */
  function LongsBytes(ls: seq<int>, bigEndian: bool): (s: seq<byte>)
    ensures |s| == 4 * |ls|
    decreases |ls|
  {
    if |ls| == 0 then [] else LongsBytes(ls[..|ls| - 1], bigEndian) + PutInt(Int32(ls[|ls| - 1]), bigEndian)
  }

  /** What `writeTagValue` writes for a tag: its bytes, or its longs as ints. */
  function TagValueBytes(t: Tag, bigEndian: bool): (s: seq<byte>)
    ensures |s| == DataSize(t)
  {
    match t.value
    case Bytes(b) => b
    case Longs(ls) => LongsBytes(ls, bigEndian)
  }

  function Zeros(n: nat): (s: seq<byte>)
    ensures |s| == n && forall i :: 0 <= i < n ==> s[i] == 0
  {
    seq(n, i => 0)
  }

  /** The 4-byte value field of an entry: the offset of a big value, or the value itself padded with zeros. */
  function ValueField(t: Tag, bigEndian: bool): (s: seq<byte>)
    ensures |s| == 4
  {
    if DataSize(t) > 4 then PutInt(Int32(t.offset), bigEndian)
    else TagValueBytes(t, bigEndian) + Zeros(4 - DataSize(t))
  }

  /** The value field holds a small value itself, zero-padded, and a big value's offset. */
  lemma ValueFieldContents(t: Tag, bigEndian: bool)
    ensures var s := ValueField(t, bigEndian);
      (!IsBig(t) ==> s[..DataSize(t)] == TagValueBytes(t, bigEndian)
                     && forall i :: DataSize(t) <= i < 4 ==> s[i] == 0)
      && (IsBig(t) ==> s == PutInt(Int32(t.offset), bigEndian))
  {
    if !IsBig(t) {
      var v := TagValueBytes(t, bigEndian);
      assert (v + Zeros(4 - DataSize(t)))[..DataSize(t)] == v;
    }
  }

  /** One 12-byte IFD entry: tag id, data type, component count, value field. */
  function EntryRecord(t: Tag, bigEndian: bool): (s: seq<byte>)
    ensures |s| == 12
  {
    PutShort(Int16(t.id), bigEndian) + PutShort(Int16(t.dataType), bigEndian)
    + PutInt(Int32(ComponentCount(t)), bigEndian) + ValueField(t, bigEndian)
  }

  /** The entry records of an IFD's tags. */
  function EntryChunks(tags: seq<Tag>, bigEndian: bool): (cs: seq<seq<byte>>)
    ensures |cs| == |tags|
  {
    seq(|tags|, i requires 0 <= i < |tags| => EntryRecord(tags[i], bigEndian))
  }

  /** What each tag adds to the values part: its bytes if it is big, else nothing. */
  function BigChunk(t: Tag, bigEndian: bool): (s: seq<byte>)
    ensures |s| == ExtraSize(t)
  {
    if IsBig(t) then TagValueBytes(t, bigEndian) else []
  }

  function BigChunks(tags: seq<Tag>, bigEndian: bool): (cs: seq<seq<byte>>)
    ensures |cs| == |tags|
  {
    seq(|tags|, i requires 0 <= i < |tags| => BigChunk(tags[i], bigEndian))
  }

  /** The entries of the first k tags, in order. */
  function EntriesUpTo(tags: seq<Tag>, k: nat, bigEndian: bool): seq<byte>
    requires k <= |tags|
  {
    Concat(EntryChunks(tags, bigEndian), k)
  }

  /** The values of the big tags among the first k, in order. */
  function BigValuesUpTo(tags: seq<Tag>, k: nat, bigEndian: bool): seq<byte>
    requires k <= |tags|
  {
    Concat(BigChunks(tags, bigEndian), k)
  }

  lemma {:induction false} EntriesLength(tags: seq<Tag>, k: nat, bigEndian: bool)
    requires k <= |tags|
    ensures Total(EntryChunks(tags, bigEndian), k) == 12 * k
  {
    if k > 0 {
      EntriesLength(tags, k - 1, bigEndian);
    }
  }

  lemma {:induction false} BigValuesLength(tags: seq<Tag>, k: nat, bigEndian: bool)
    requires k <= |tags|
    ensures Total(BigChunks(tags, bigEndian), k) == BigUpTo(tags, k)
  {
    if k > 0 {
      BigValuesLength(tags, k - 1, bigEndian);
    }
  }

  /** The four parts of an IFD: entry count, the entries, the next-IFD offset, the big values. */
  function IfdParts(tags: seq<Tag>, next: int, bigEndian: bool): (ps: seq<seq<byte>>)
    ensures |ps| == 4
  {
    [PutShort(Int16(|tags|), bigEndian), EntriesUpTo(tags, |tags|, bigEndian),
     PutInt(Int32(next), bigEndian), BigValuesUpTo(tags, |tags|, bigEndian)]
  }

  /** The bytes of an IFD: its four parts one after another. */
  function IfdBytes(tags: seq<Tag>, next: int, bigEndian: bool): seq<byte>
  {
    Concat(IfdParts(tags, next, bigEndian), 4)
  }

  /** The parts of an IFD have the lengths `calculateOffsetOfIfd` counts. */
  lemma IfdPartsLength(tags: seq<Tag>, next: int, bigEndian: bool)
    ensures var ps := IfdParts(tags, next, bigEndian);
      Total(ps, 1) == 2 && Total(ps, 2) == 2 + 12 * |tags| && Total(ps, 3) == 6 + 12 * |tags|
      && |ps[3]| == BigDataSize(tags)
  {
    EntriesLength(tags, |tags|, bigEndian);
    BigValuesLength(tags, |tags|, bigEndian);
  }

  /** An IFD takes exactly the bytes `calculateOffsetOfIfd` reserves for it. */
  lemma IfdBytesSize(tags: seq<Tag>, next: int, bigEndian: bool)
    ensures |IfdBytes(tags, next, bigEndian)| == IfdSize(tags)
  {
    IfdPartsLength(tags, next, bigEndian);
  }

  /** `writeTagValue` for the two kinds of value the MPO tags hold: the bytes it writes. */
  method WriteTagValue(t: Tag, bigEndian: bool) returns (w: seq<byte>)
    ensures w == TagValueBytes(t, bigEndian)
  {
    match t.value {
      case Bytes(b) =>
        w := b;
      case Longs(ls) =>
        w := [];
        for i := 0 to |ls|
          invariant w == LongsBytes(ls[..i], bigEndian)
        {
          assert ls[..i + 1][..i] == ls[..i];
          w := w + PutInt(Int32(ls[i]), bigEndian);
        }
        assert ls[..|ls|] == ls;
    }
  }

  /** The entry `writeIfd` writes for one tag. */
  method WriteEntry(tag: Tag, bigEndian: bool) returns (w: seq<byte>)
    ensures w == EntryRecord(tag, bigEndian)
  {
    var field;
    if DataSize(tag) > 4 {
      field := PutInt(Int32(tag.offset), bigEndian);
    } else {
      field := WriteTagValue(tag, bigEndian);
      var n := 4 - DataSize(tag);
      for j := 0 to n
        invariant field == TagValueBytes(tag, bigEndian) + Zeros(j)
      {
        assert Zeros(j) + [0] == Zeros(j + 1);
        field := field + [0];
      }
    }
    w := PutShort(Int16(tag.id), bigEndian) + PutShort(Int16(tag.dataType), bigEndian)
      + PutInt(Int32(ComponentCount(tag)), bigEndian) + field;
  }

  /**
   * `writeIfd`: the bytes it writes are the entry count, then per tag its id,
   * type, count and either the offset of its value or the value padded to 4
   * bytes, then the next-IFD offset, then the values of the big tags.
   */
  method WriteIfd(tags: seq<Tag>, next: int, bigEndian: bool) returns (w: seq<byte>)
    ensures w == IfdBytes(tags, next, bigEndian)
  {
    var entries := [];
    for i := 0 to |tags|
      invariant entries == EntriesUpTo(tags, i, bigEndian)
    {
      var e := WriteEntry(tags[i], bigEndian);
      entries := entries + e;
    }
    var values := [];
    for i := 0 to |tags|
      invariant values == BigValuesUpTo(tags, i, bigEndian)
    {
      var tag := tags[i];
      if DataSize(tag) > 4 {
        var v := WriteTagValue(tag, bigEndian);
        values := values + v;
      } else {
        assert BigValuesUpTo(tags, i + 1, bigEndian) == values + [];
      }
    }
    var count := PutShort(Int16(|tags|), bigEndian);
    var nextOffset := PutInt(Int32(next), bigEndian);
    w := count + entries + nextOffset + values;
    ghost var ps := IfdParts(tags, next, bigEndian);
    assert ps == [count, entries, nextOffset, values];
    assert Concat(ps, 1) == [] + count == count;
    assert Concat(ps, 2) == count + entries;
    assert Concat(ps, 3) == count + entries + nextOffset;
  }
}

