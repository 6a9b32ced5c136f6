// What the tag values of MpoData amount to: the defaults are present under
// unique ids, the MP Entry list lays the images end to end and decodes back,
// and the Java int arithmetic of its offsets wraps as a whole sum would
// (src/com/android/camera/mpo/MpoData.java).
module MpoEntryFacts {
  import opened Bytes
  import opened MpoTag
  import opened MpoIfd
  import opened MpoImage
  import opened MpoEntries

  /** Wrapping on every addition comes to wrapping the whole sum once. */
  lemma {:induction false} RunningOffsetSum(primarySize: int, sizes: seq<int>, k: nat)
    requires k <= |sizes|
    ensures RunningOffset(primarySize, sizes, k) == Int32(primarySize + SumTo(sizes, k))
  {
    if k > 0 {
      RunningOffsetSum(primarySize, sizes, k - 1);
      Int32Add(primarySize + SumTo(sizes, k - 1), Int32(sizes[k - 1]));
      Int32Add(sizes[k - 1], primarySize + SumTo(sizes, k - 1));
    }
  }

  /**
   * The entries describe the images laid end to end: the primary image at
   * offset 0 with the representative flag, every auxiliary image with the
   * disparity attribute, and, while the sizes fit a Java int, each image
   * starting where the one before it ends.
   */
  lemma MpEntriesLayout(primarySize: int, sizes: seq<int>, k: nat)
    requires k < |sizes|
    requires 0 <= primarySize && forall i :: 0 <= i < |sizes| ==> 0 <= sizes[i]
    requires primarySize + SumTo(sizes, |sizes|) < 0x8000_0000
    ensures var es := MpEntries(primarySize, sizes);
      es[0] == MpEntry(PRIMARY_ATTRIB, primarySize, 0, 0, 0)
      && es[k + 1].attrib == AUX_ATTRIB && es[k + 1].size == sizes[k]
      && es[k + 1].offset == es[k].offset + es[k].size
  {
    var es := MpEntries(primarySize, sizes);
    SumMono(sizes, |sizes|, |sizes|);
    assert IsInt32(primarySize);
    assert es[k + 1] == AuxEntry(primarySize, sizes, k);
    AuxEntryExact(primarySize, sizes, k);
    if k > 0 {
      assert es[k] == AuxEntry(primarySize, sizes, k - 1);
      AuxEntryExact(primarySize, sizes, k - 1);
      assert SumTo(sizes, k) == SumTo(sizes, k - 1) + sizes[k - 1];
    }
  }

  /** While the sizes fit a Java int, an auxiliary entry holds its size and offset unwrapped. */
  lemma AuxEntryExact(primarySize: int, sizes: seq<int>, k: nat)
    requires k < |sizes|
    requires 0 <= primarySize && forall i :: 0 <= i < |sizes| ==> 0 <= sizes[i]
    requires primarySize + SumTo(sizes, |sizes|) < 0x8000_0000
    ensures var e := AuxEntry(primarySize, sizes, k);
      e.attrib == AUX_ATTRIB && e.size == sizes[k] && e.offset == primarySize + SumTo(sizes, k)
  {
    SumFits(primarySize, sizes, k);
    Unwrapped(primarySize, SumTo(sizes, k), sizes[k]);
  }

  /** The sizes before auxiliary image k, and its own, fit below the total. */
  lemma SumFits(primarySize: int, sizes: seq<int>, k: nat)
    requires k < |sizes|
    requires forall i :: 0 <= i < |sizes| ==> 0 <= sizes[i]
    requires primarySize + SumTo(sizes, |sizes|) < 0x8000_0000
    ensures 0 <= SumTo(sizes, k) && primarySize + SumTo(sizes, k) + sizes[k] < 0x8000_0000
  {
    SumMono(sizes, k + 1, |sizes|);
    SumMono(sizes, k, k);
  }

  /** Non-negative values whose sum fits a Java int are their own 32-bit truncations. */
  lemma Unwrapped(primarySize: int, before: int, size: int)
    requires 0 <= primarySize && 0 <= before && 0 <= size && primarySize + before + size < 0x8000_0000
    ensures Int32(size) == size && Int32(primarySize + before) == primarySize + before
  {
  }

  lemma {:induction false} SumMono(sizes: seq<int>, i: nat, j: nat)
    requires i <= j <= |sizes| && forall m :: 0 <= m < |sizes| ==> 0 <= sizes[m]
    ensures 0 <= SumTo(sizes, i) <= SumTo(sizes, j)
    decreases j
  {
    if i < j {
      SumMono(sizes, i, j - 1);
    } else if i > 0 {
      SumMono(sizes, i - 1, i - 1);
    }
  }

  /** The format-version step of `addDefaultIndexIfdTags`: afterwards the IFD has one, and nothing else changed. */
  lemma FormatStep(index: seq<Tag>)
    requires UniqueIds(index)
    ensures var i1 := WithFormatVersion(index);
      UniqueIds(i1) && Find(i1, TAG_MP_FORMAT_VERSION).Some? && Find(i1, TAG_NUM_IMAGES) == Find(index, TAG_NUM_IMAGES)
  {
    if Find(index, TAG_MP_FORMAT_VERSION).None? {
      var f := FormatVersionTag(TYPE_MP_INDEX_IFD);
      PutUnique(index, f);
      PutFind(index, f, TAG_MP_FORMAT_VERSION);
      PutFind(index, f, TAG_NUM_IMAGES);
    }
  }

  /**
   * After the defaults, the index IFD holds the format version, the
   * number of images (auxiliary count + 1) and an MP Entry list of that many
   * placeholder entries.
   */
  lemma IndexDefaultsHold(index: seq<Tag>, aux: nat)
    requires UniqueIds(index) && aux + 1 < TWO32
    requires Find(index, TAG_NUM_IMAGES).Some? ==> Find(index, TAG_NUM_IMAGES).value.value.Longs?
    ensures var r := IndexDefaults(index, aux);
      UniqueIds(r) && Find(r, TAG_MP_FORMAT_VERSION).Some?
      && Find(r, TAG_NUM_IMAGES).Some? && Find(r, TAG_NUM_IMAGES).value.value == Longs([aux + 1])
      && Find(r, TAG_MP_ENTRY) == Some(EntryTag(ZeroEntries(aux + 1)))
  {
    var i2 := WithCount(index, aux);
    CountStep(index, aux);
    var e := EntryTag(ZeroEntries(aux + 1));
    var r := PutTag(i2, e);
    assert r == IndexDefaults(index, aux);
    PutUnique(i2, e);
    PutFind(i2, e, TAG_MP_FORMAT_VERSION);
    PutFind(i2, e, TAG_NUM_IMAGES);
    PutFind(i2, e, TAG_MP_ENTRY);
  }

  /** After the first two default steps the IFD has a format version and the image count. */
  lemma CountStep(index: seq<Tag>, aux: nat)
    requires UniqueIds(index) && aux + 1 < TWO32
    requires Find(index, TAG_NUM_IMAGES).Some? ==> Find(index, TAG_NUM_IMAGES).value.value.Longs?
    ensures var i2 := WithCount(index, aux);
      UniqueIds(i2) && Find(i2, TAG_MP_FORMAT_VERSION).Some?
      && Find(i2, TAG_NUM_IMAGES).Some? && Find(i2, TAG_NUM_IMAGES).value.value == Longs([aux + 1])
  {
    var i1 := WithFormatVersion(index);
    FormatStep(index);
    var n := NumImagesTag(i1, aux + 1);
    assert n.value == Longs([aux + 1]);
    PutUnique(i1, n);
    PutFind(i1, n, TAG_MP_FORMAT_VERSION);
    PutFind(i1, n, TAG_NUM_IMAGES);
  }


  /** After the defaults, the attribute IFD holds the format version and the image number given. */
  lemma AttribDefaultsHold(attrib: seq<Tag>, n: int)
    requires UniqueIds(attrib) && IsU32(n)
    ensures var r := AttribDefaults(attrib, n);
      UniqueIds(r) && Find(r, TAG_MP_FORMAT_VERSION) == Some(FormatVersionTag(TYPE_MP_ATTRIB_IFD))
      && Find(r, TAG_IMAGE_NUMBER) == Some(ImageNumberTag(n)) && ImageNumberTag(n).value == Longs([n])
  {
    var f := FormatVersionTag(TYPE_MP_ATTRIB_IFD);
    PutUnique(attrib, f);
    PutFind(attrib, f, TAG_MP_FORMAT_VERSION);
    PutFind(PutTag(attrib, f), ImageNumberTag(n), TAG_MP_FORMAT_VERSION);
    PutFind(PutTag(attrib, f), ImageNumberTag(n), TAG_IMAGE_NUMBER);
    PutUnique(PutTag(attrib, f), ImageNumberTag(n));
  }

  /** Laying out keeps every value and id; only offsets move, so a lookup finds the laid-out copy of the same tag. */
  lemma FindLaid(tags: seq<Tag>, start: int, id: int)
    requires UniqueIds(tags)
    ensures UniqueIds(Laid(tags, start))
    ensures Find(Laid(tags, start), id).Some? <==> Find(tags, id).Some?
    ensures Find(tags, id).Some? ==> Find(Laid(tags, start), id).value == Find(tags, id).value.(offset := Find(Laid(tags, start), id).value.offset)
  {
    var r := Laid(tags, start);
    if |tags| > 0 {
      var at := ValuesStart(tags, start);
      PlacedSizes(tags, at);
      assert forall i :: 0 <= i < |tags| ==> r[i] == PlacedAt(tags, at, i);
      match IndexOf(tags, id)
      case Some(k) =>
        FindMember(r, r[k]);
      case None =>
    }
  }

  /** The Number of Images step: the IFD then holds the count given, under a unique id. */
  lemma IndexWithCountHolds(index: seq<Tag>, aux: nat)
    requires UniqueIds(index) && aux + 1 < TWO32
    requires Find(index, TAG_NUM_IMAGES).Some? ==> Find(index, TAG_NUM_IMAGES).value.value.Longs?
    ensures UniqueIds(IndexWithCount(index, aux))
    ensures Find(IndexWithCount(index, aux), TAG_NUM_IMAGES).Some?
    ensures Find(IndexWithCount(index, aux), TAG_NUM_IMAGES).value.value == Longs([aux + 1])
  {
    var n := NumImagesTag(index, aux + 1);
    assert n.value == Longs([aux + 1]);
    PutUnique(index, n);
    PutFind(index, n, TAG_NUM_IMAGES);
  }

  /**
   * After `updateIndexIfdTags` the primary index IFD holds as its MP Entry
   * value the bytes of the entry list, which decode back to that list.
   */
  lemma FinalIndexEntries(index1: seq<Tag>, attrib: seq<Tag>, jpegLen: nat, sizes: seq<int>)
    requires UniqueIds(index1)
    ensures UniqueIds(FinalIndex(index1, attrib, jpegLen, sizes))
    ensures Find(FinalIndex(index1, attrib, jpegLen, sizes), TAG_MP_ENTRY) == Some(EntryTag(EntriesFor(index1, attrib, jpegLen, sizes)))
    ensures DecodeAll(EntryTag(EntriesFor(index1, attrib, jpegLen, sizes)).value.bytes) == EntriesFor(index1, attrib, jpegLen, sizes)
  {
    var l := Laid(index1, MP_HEADER_SIZE);
    FindLaid(index1, MP_HEADER_SIZE, TAG_MP_ENTRY);
    var es := EntriesFor(index1, attrib, jpegLen, sizes);
    PutUnique(l, EntryTag(es));
    PutFind(l, EntryTag(es), TAG_MP_ENTRY);
    EntriesRoundTrip(es);
  }

  /** The layout and the MP Entry step leave the Number of Images tag's value as it was. */
  lemma FinalIndexCount(index1: seq<Tag>, attrib: seq<Tag>, jpegLen: nat, sizes: seq<int>)
    requires UniqueIds(index1)
    ensures Find(FinalIndex(index1, attrib, jpegLen, sizes), TAG_NUM_IMAGES).Some? == Find(index1, TAG_NUM_IMAGES).Some?
    ensures Find(index1, TAG_NUM_IMAGES).Some? ==>
      Find(FinalIndex(index1, attrib, jpegLen, sizes), TAG_NUM_IMAGES).value.value == Find(index1, TAG_NUM_IMAGES).value.value
  {
    var l := Laid(index1, MP_HEADER_SIZE);
    FindLaid(index1, MP_HEADER_SIZE, TAG_NUM_IMAGES);
    var es := EntriesFor(index1, attrib, jpegLen, sizes);
    PutFind(l, EntryTag(es), TAG_NUM_IMAGES);
  }

  /**
   * One turn of the loop of `updateIndexIfdTags`: the entry built from the
   * running Java int offset is the next entry of `MpEntries`, and the
   * offset moves on by the image's size, wrapped as Java does.
   */
  lemma EntryStep(primarySize: int, sizes: seq<int>, i: nat, entries: seq<MpEntry>, imgOffset: int)
    requires i < |sizes| && entries == MpEntries(primarySize, sizes)[..i + 1]
    requires imgOffset == Int32(primarySize + SumTo(sizes, i))
    ensures entries + [MpEntry(AUX_ATTRIB, Int32(sizes[i]), imgOffset, 0, 0)] == MpEntries(primarySize, sizes)[..i + 2]
    ensures Int32(imgOffset + Int32(sizes[i])) == Int32(primarySize + SumTo(sizes, i + 1))
  {
    var es := MpEntries(primarySize, sizes);
    assert es[i + 1] == AuxEntry(primarySize, sizes, i);
    assert es[..i + 2] == es[..i + 1] + [es[i + 1]];
    Int32Add(primarySize + SumTo(sizes, i), Int32(sizes[i]));
    Int32Add(sizes[i], primarySize + SumTo(sizes, i));
  }
}
