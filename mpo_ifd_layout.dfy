// Where the bytes of a laid-out IFD put each entry and each big value: the
// offsets `calculateOffsetOfIfd` assigns point at the values `writeIfd` writes.
module MpoIfdLayout {
  import opened Bytes
  import opened MpoTag
  import opened MpoImage
  import opened Chunks
  import opened MpoIfdBytes

  /** Entry k of an IFD is at bytes 2 + 12k to 2 + 12k + 12, after the entry count. */
  lemma EntryInIfd(tags: seq<Tag>, next: int, bigEndian: bool, k: nat)
    requires k < |tags|
    ensures 2 + 12 * k + 12 <= |IfdBytes(tags, next, bigEndian)|
    ensures IfdBytes(tags, next, bigEndian)[2 + 12 * k..2 + 12 * k + 12] == EntryRecord(tags[k], bigEndian)
  {
    var ps := IfdParts(tags, next, bigEndian);
    IfdPartsLength(tags, next, bigEndian);
    assert ps[1][12 * k..12 * k + 12] == EntryRecord(tags[k], bigEndian) by {
      EntriesLength(tags, k, bigEndian);
      ConcatAt(EntryChunks(tags, bigEndian), k, |tags|, 12 * k, 12 * k + 12);
    }
    PartSlice(ps, 1, 12 * k, 12 * k + 12, EntryRecord(tags[k], bigEndian), 2 + 12 * k, 2 + 12 * k + 12);
  }

  /** A big tag's value in the values part, after the values of the big tags before it. */
  lemma BigValueAt(tags: seq<Tag>, bigEndian: bool, k: nat)
    requires k < |tags| && IsBig(tags[k])
    ensures BigUpTo(tags, k) + DataSize(tags[k]) <= |BigValuesUpTo(tags, |tags|, bigEndian)|
    ensures BigValuesUpTo(tags, |tags|, bigEndian)[BigUpTo(tags, k)..BigUpTo(tags, k) + DataSize(tags[k])]
         == TagValueBytes(tags[k], bigEndian)
  {
    var bc := BigChunks(tags, bigEndian);
    assert bc[k] == TagValueBytes(tags[k], bigEndian);
    BigValuesLength(tags, k, bigEndian);
    ConcatAt(bc, k, |tags|, BigUpTo(tags, k), BigUpTo(tags, k) + DataSize(tags[k]));
  }

  /**
   * The value of a big tag is in the values part of its IFD, after the
   * entries, the next-IFD offset and the values of the big tags before it.
   */
  lemma BigValueInIfd(tags: seq<Tag>, next: int, bigEndian: bool, k: nat, lo: int, hi: int)
    requires k < |tags| && IsBig(tags[k])
    requires lo == 2 + 12 * |tags| + 4 + BigUpTo(tags, k) && hi == lo + DataSize(tags[k])
    ensures 0 <= lo <= hi <= |IfdBytes(tags, next, bigEndian)|
    ensures IfdBytes(tags, next, bigEndian)[lo..hi] == TagValueBytes(tags[k], bigEndian)
  {
    var ps := IfdParts(tags, next, bigEndian);
    IfdPartsLength(tags, next, bigEndian);
    var o := BigUpTo(tags, k);
    BigValueAt(tags, bigEndian, k);
    PartSlice(ps, 3, o, o + DataSize(tags[k]), TagValueBytes(tags[k], bigEndian), lo, hi);
  }

  /** Laying out changes a tag's offset only: a big tag's goes after the entries and the big values before it. */
  lemma LaidTag(tags: seq<Tag>, start: int, k: nat)
    requires k < |tags| && IsBig(tags[k])
    ensures var laid := Laid(tags, start);
      |laid| == |tags| && IfdSize(laid) == IfdSize(tags)
      && laid[k].offset - start == 2 + 12 * |laid| + 4 + BigUpTo(laid, k)
      && laid[k] == tags[k].(offset := laid[k].offset)
  {
    var at := ValuesStart(tags, start);
    var laid := Placed(tags, at);
    assert laid == Laid(tags, start);
    PlacedSizes(tags, at);
    assert laid[k] == PlacedAt(tags, at, k);
    SameSizesPrefix(laid, tags, k);
  }

  /**
   * Once an IFD is laid out from `start`, each big tag's offset, counted from
   * `start`, points at that tag's value in the IFD's bytes.
   */
  lemma LaidOutOffsets(tags: seq<Tag>, start: int, next: int, bigEndian: bool, k: nat)
    requires k < |tags| && IsBig(tags[k])
    ensures var laid := Laid(tags, start);
      var lo := laid[k].offset - start;
      |IfdBytes(laid, next, bigEndian)| == IfdSize(tags)
      && 0 <= lo && lo + DataSize(tags[k]) <= IfdSize(tags)
      && IfdBytes(laid, next, bigEndian)[lo..lo + DataSize(tags[k])] == TagValueBytes(tags[k], bigEndian)
  {
    var laid := Laid(tags, start);
    LaidTag(tags, start, k);
    IfdBytesSize(laid, next, bigEndian);
    var lo := laid[k].offset - start;
    assert TagValueBytes(laid[k], bigEndian) == TagValueBytes(tags[k], bigEndian);
    BigValueInIfd(laid, next, bigEndian, k, lo, lo + DataSize(tags[k]));
  }

}
