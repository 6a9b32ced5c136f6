// One image of an MPO file: its MP Index and MP Attribute IFDs, its JPEG
// bytes and byte order, and the offset arithmetic that lays the IFDs out
// (src/com/android/camera/mpo/MpoImageData.java).
module MpoImage {
  import opened Bytes
  import opened MpoTag
  import opened MpoIfd

  const OFFSET_TO_FIRST_IFD: int := 8
  const MP_FORMAT_IDENTIFIER: int := 0x4D504600
  /** The byte-order mark, the TIFF magic number and the first-IFD offset. */
  const MP_HEADER_SIZE: int := 8
  /** The APP2 length field and the MPF identifier. */
  const APP_HEADER_SIZE: int := 6

  /**
   * `ExifTag.isValidIfd`: the five Exif IFD ids 0 to 4. ExifTag is not part
   * of this model; its IFD ids are taken as given.
   */
  predicate IsValidIfd(ifd: int) { 0 <= ifd < 5 }

  /** A tag whose value does not fit the 4-byte value field and is stored by offset. */
  predicate IsBig(t: Tag) { DataSize(t) > 4 }

  /** The value bytes a tag adds after the entries: its data size if it is big, else none. */
  function ExtraSize(t: Tag): (n: nat)
    ensures n > 0 <==> IsBig(t)
  {
    if IsBig(t) then DataSize(t) else 0
  }

  /** The bytes taken by the values of the big tags among the first k. */
  function BigUpTo(tags: seq<Tag>, k: nat): (n: nat)
    requires k <= |tags|
    ensures k == 0 ==> n == 0
  {
    if k == 0 then 0 else BigUpTo(tags, k - 1) + ExtraSize(tags[k - 1])
  }

  /** The bytes taken by the values of the big tags of a list. */
  function BigDataSize(tags: seq<Tag>): nat {
    BigUpTo(tags, |tags|)
  }

  /** Bytes of one IFD: entry count, 12 bytes per entry, next-IFD offset, then the big values. */
  function IfdSize(tags: seq<Tag>): (n: nat)
    ensures n >= 6 + TAG_SIZE * |tags|
  {
    2 + TAG_SIZE * |tags| + 4 + BigDataSize(tags)
  }

  /** Tag i of an IFD once its value has its place: a big tag's value goes after those of the big tags before it. */
  function PlacedAt(tags: seq<Tag>, at: int, i: nat): Tag
    requires i < |tags|
  {
    if IsBig(tags[i]) then tags[i].(offset := at + BigUpTo(tags, i)) else tags[i]
  }

  /** The tags after the loop of `calculateOffsetOfIfd` with the values starting at `at`. */
  function Placed(tags: seq<Tag>, at: int): (r: seq<Tag>)
    ensures |r| == |tags|
  {
    seq(|tags|, i requires 0 <= i < |tags| => PlacedAt(tags, at, i))
  }

  lemma {:induction false} BigUpToMono(tags: seq<Tag>, i: nat, j: nat)
    requires i <= j <= |tags|
    ensures BigUpTo(tags, i) <= BigUpTo(tags, j)
    decreases j - i
  {
    if i < j {
      BigUpToMono(tags, i, j - 1);
    }
  }

  /**
   * The big values are laid out back to back in list order: each lies inside
   * the block of `BigDataSize` bytes from `at`, and a later one starts at or
   * after the end of an earlier one.
   */
  lemma PlacedContiguous(tags: seq<Tag>, at: int, i: nat, j: nat)
    requires i < j < |tags| && IsBig(tags[i]) && IsBig(tags[j])
    ensures var r := Placed(tags, at);
      at <= r[i].offset && r[i].offset + DataSize(r[i]) <= r[j].offset
      && r[j].offset + DataSize(r[j]) <= at + BigDataSize(tags)
  {
    var r := Placed(tags, at);
    assert r[i] == PlacedAt(tags, at, i) && r[j] == PlacedAt(tags, at, j);
    assert DataSize(r[i]) == DataSize(tags[i]) && DataSize(r[j]) == DataSize(tags[j]);
    BigUpToMono(tags, i + 1, j);
    BigUpToMono(tags, j + 1, |tags|);
  }

  /** Two lists whose tags have the same sizes have the same big-data size on every prefix. */
  lemma {:induction false} SameSizesPrefix(a: seq<Tag>, b: seq<Tag>, k: nat)
    requires |a| == |b| && k <= |a|
    requires forall i :: 0 <= i < |a| ==> DataSize(a[i]) == DataSize(b[i])
    ensures BigUpTo(a, k) == BigUpTo(b, k)
  {
    if k > 0 {
      SameSizesPrefix(a, b, k - 1);
    }
  }

  /** Placing changes only offsets, so the sizes and ids stay as they were. */
  /** Placing the values keeps what makes an IFD's tag list valid. */
  lemma PlacedValid(tags: seq<Tag>, at: int, id: int)
    requires UniqueIds(tags) && BucketOrdered(tags) && forall i :: 0 <= i < |tags| ==> tags[i].ifd == id
    ensures var r := Placed(tags, at);
      UniqueIds(r) && BucketOrdered(r) && (forall i :: 0 <= i < |r| ==> r[i].ifd == id) && BigDataSize(r) == BigDataSize(tags)
  {
    PlacedSizes(tags, at);
  }

  lemma PlacedSizes(tags: seq<Tag>, at: int)
    ensures forall i :: 0 <= i < |tags| ==>
      DataSize(Placed(tags, at)[i]) == DataSize(tags[i]) && Placed(tags, at)[i].id == tags[i].id
      && Placed(tags, at)[i].ifd == tags[i].ifd
    ensures BigDataSize(Placed(tags, at)) == BigDataSize(tags)
    ensures UniqueIds(tags) ==> UniqueIds(Placed(tags, at))
    ensures BucketOrdered(tags) ==> BucketOrdered(Placed(tags, at))
  {
    var r := Placed(tags, at);
    assert forall i :: 0 <= i < |tags| ==> r[i] == PlacedAt(tags, at, i);
    SameSizesPrefix(r, tags, |tags|);
  }

  /** Placing twice from the same start is placing once: the offset pass is idempotent. */
  lemma PlacedTwice(tags: seq<Tag>, at: int)
    ensures Placed(Placed(tags, at), at) == Placed(tags, at)
  {
    var r := Placed(tags, at);
    PlacedSizes(tags, at);
    forall i | 0 <= i < |tags| ensures Placed(r, at)[i] == r[i] {
      SameSizesPrefix(r, tags, i);
      assert r[i] == PlacedAt(tags, at, i);
    }
  }

  /** Where the attribute IFD starts: after the header and, if it has tags, the index IFD. */
  function AttribStart(index: seq<Tag>): (n: int)
    ensures n == MP_HEADER_SIZE + (if |index| > 0 then IfdSize(index) else 0)
  {
    if |index| > 0 then MP_HEADER_SIZE + IfdSize(index) else MP_HEADER_SIZE
  }

  /** What `calculateAllIfdOffsets` returns: the header and each non-empty IFD. */
  function AllIfdOffsets(index: seq<Tag>, attrib: seq<Tag>): (n: int)
    ensures n == MP_HEADER_SIZE + (if |index| > 0 then IfdSize(index) else 0) + (if |attrib| > 0 then IfdSize(attrib) else 0)
    ensures index == [] && attrib == [] ==> n == 8
  {
    var a := AttribStart(index);
    if |attrib| > 0 then a + IfdSize(attrib) else a
  }

  /** The first byte after an IFD's entries and next-IFD offset, where its big values go. */
  function ValuesStart(tags: seq<Tag>, start: int): int {
    start + 2 + TAG_SIZE * |tags| + 4
  }

  /** An IFD's tags after `calculateOffsetOfIfd` from `start`, or unchanged if it is skipped. */
  function Laid(tags: seq<Tag>, start: int): seq<Tag> {
    if |tags| > 0 then Placed(tags, ValuesStart(tags, start)) else tags
  }

  /** One IFD laid out twice from the same start is laid out once, and keeps its size. */
  lemma LaidStable(tags: seq<Tag>, start: int)
    ensures |Laid(tags, start)| == |tags| && IfdSize(Laid(tags, start)) == IfdSize(tags)
    ensures Laid(Laid(tags, start), start) == Laid(tags, start)
  {
    if |tags| > 0 {
      PlacedSizes(tags, ValuesStart(tags, start));
      PlacedTwice(tags, ValuesStart(tags, start));
    }
  }

  /** A second offset pass leaves the IFDs and the result as the first left them. */
  lemma OffsetsStable(index: seq<Tag>, attrib: seq<Tag>)
    ensures var i' := Laid(index, MP_HEADER_SIZE);
      var a' := Laid(attrib, AttribStart(index));
      AttribStart(i') == AttribStart(index) && AllIfdOffsets(i', a') == AllIfdOffsets(index, attrib)
      && Laid(i', MP_HEADER_SIZE) == i' && Laid(a', AttribStart(i')) == a'
  {
    LaidStable(index, MP_HEADER_SIZE);
    LaidStable(attrib, AttribStart(index));
  }

  /** MpoImageData. */
  class ImageData {
    const index: IfdData
    const attrib: IfdData
    const jpeg: seq<byte>
    const bigEndian: bool

    ghost predicate Valid()
      reads this, index, attrib
    {
      index != attrib && index.id == TYPE_MP_INDEX_IFD && attrib.id == TYPE_MP_ATTRIB_IFD
      && index.Valid() && attrib.Valid()
    }

    constructor (jpegData: seq<byte>, isBigEndian: bool)
      ensures Valid() && fresh(index) && fresh(attrib)
      ensures jpeg == jpegData && bigEndian == isBigEndian
      ensures index.tags == [] && attrib.tags == [] && index.next == 0 && attrib.next == 0
    {
      index := new IfdData(TYPE_MP_INDEX_IFD);
      attrib := new IfdData(TYPE_MP_ATTRIB_IFD);
      jpeg := jpegData;
      bigEndian := isBigEndian;
    }

    /** `getMpIfdData`: the index IFD exactly for TYPE_MP_INDEX_IFD, the attribute IFD for any other id. */
    function GetMpIfdData(ifdId: int): (d: IfdData)
      reads this, index, attrib
      requires Valid()
      ensures d == index || d == attrib
      ensures d == index <==> ifdId == TYPE_MP_INDEX_IFD
    {
      if ifdId == TYPE_MP_INDEX_IFD then index else attrib
    }

    /** `getTag(tag, ifd)`: the tag of that id in the IFD `getMpIfdData` picks. */
    function GetTag(tagId: int, ifdId: int): (r: Option<Tag>)
      reads this, index, attrib
      requires Valid()
      ensures r.Some? <==> tagId in Ids(GetMpIfdData(ifdId).tags)
      ensures r.Some? ==> r.value.id == tagId && r.value in GetMpIfdData(ifdId).tags
    {
      GetMpIfdData(ifdId).GetTag(tagId)
    }

    /**
     * `addTag(tag, ifdId)`: for a valid Exif IFD id, `setTag` on the IFD
     * `getMpIfdData` picks, which returns the tag replaced; null (None) and
     * no change for any other id.
     */
    method AddTagTo(t: Tag, ifdId: int) returns (prev: Option<Tag>)
      requires Valid()
      modifies index, attrib
      ensures Valid() && index.next == old(index.next) && attrib.next == old(attrib.next)
      ensures !IsValidIfd(ifdId) ==> prev == None && index.tags == old(index.tags) && attrib.tags == old(attrib.tags)
      ensures IsValidIfd(ifdId) && ifdId == TYPE_MP_INDEX_IFD ==>
        index.tags == PutTag(old(index.tags), t.(ifd := TYPE_MP_INDEX_IFD)) && attrib.tags == old(attrib.tags)
        && prev == Find(old(index.tags), t.id)
      ensures IsValidIfd(ifdId) && ifdId != TYPE_MP_INDEX_IFD ==>
        attrib.tags == PutTag(old(attrib.tags), t.(ifd := TYPE_MP_ATTRIB_IFD)) && index.tags == old(index.tags)
        && prev == Find(old(attrib.tags), t.id)
    {
      if IsValidIfd(ifdId) {
        var d := GetMpIfdData(ifdId);
        prev := d.SetTag(t);
      } else {
        prev := None;
      }
    }

    /** `addTag(tag)`: adds the tag to the IFD it names. */
    method AddTag(t: Tag) returns (prev: Option<Tag>)
      requires Valid()
      modifies index, attrib
      ensures Valid() && index.next == old(index.next) && attrib.next == old(attrib.next)
      ensures !IsValidIfd(t.ifd) ==> prev == None && index.tags == old(index.tags) && attrib.tags == old(attrib.tags)
      ensures IsValidIfd(t.ifd) && t.ifd == TYPE_MP_INDEX_IFD ==>
        index.tags == PutTag(old(index.tags), t) && attrib.tags == old(attrib.tags) && prev == Find(old(index.tags), t.id)
      ensures IsValidIfd(t.ifd) && t.ifd != TYPE_MP_INDEX_IFD ==>
        attrib.tags == PutTag(old(attrib.tags), t.(ifd := TYPE_MP_ATTRIB_IFD)) && index.tags == old(index.tags)
        && prev == Find(old(attrib.tags), t.id)
    {
      prev := AddTagTo(t, t.ifd);
    }

    /** `removeTag(tagId, ifdId)`. */
    method RemoveTag(tagId: int, ifdId: int)
      requires Valid()
      modifies index, attrib
      ensures Valid() && index.next == old(index.next) && attrib.next == old(attrib.next)
      ensures ifdId == TYPE_MP_INDEX_IFD ==> index.tags == Remove(old(index.tags), tagId) && attrib.tags == old(attrib.tags)
      ensures ifdId != TYPE_MP_INDEX_IFD ==> attrib.tags == Remove(old(attrib.tags), tagId) && index.tags == old(index.tags)
    {
      var d := GetMpIfdData(ifdId);
      d.RemoveTag(tagId);
    }

    /** `getAllTags`: the index IFD's tags then the attribute IFD's, or null (None) when there are none. */
    method GetAllTags() returns (r: Option<seq<Tag>>)
      requires Valid()
      ensures r.None? <==> index.tags == [] && attrib.tags == []
      ensures r.Some? ==> r.value == index.tags + attrib.tags
    {
      var ret: seq<Tag> := [];
      var ts := index.tags;
      for i := 0 to |ts|
        invariant ret == ts[..i]
      {
        ret := ret + [ts[i]];
      }
      ts := attrib.tags;
      for i := 0 to |ts|
        invariant ret == index.tags + ts[..i]
      {
        ret := ret + [ts[i]];
      }
      if |ret| == 0 {
        return None;
      }
      assert ts[..|ts|] == ts;
      r := Some(ret);
    }

    /** `getAllTagsForIfd`: the tags of the IFD `getMpIfdData` picks, or null (None) when it has none. */
    method GetAllTagsForIfd(ifdId: int) returns (r: Option<seq<Tag>>)
      requires Valid()
      ensures r.None? <==> GetMpIfdData(ifdId).tags == []
      ensures r.Some? ==> r.value == GetMpIfdData(ifdId).tags
    {
      var ts := GetMpIfdData(ifdId).tags;
      var ret: seq<Tag> := [];
      for i := 0 to |ts|
        invariant ret == ts[..i]
      {
        ret := ret + [ts[i]];
      }
      if |ret| == 0 {
        return None;
      }
      assert ts[..|ts|] == ts;
      r := Some(ret);
    }

    /** `getAllTagsForTagId`: the tag of that id in the index IFD, then in the attribute IFD; null (None) if neither has one. */
    function GetAllTagsForTagId(tagId: int): (r: Option<seq<Tag>>)
      reads this, index, attrib
      requires Valid()
      ensures r.None? <==> tagId !in Ids(index.tags) && tagId !in Ids(attrib.tags)
      ensures r.Some? ==> 1 <= |r.value| <= 2 && forall i :: 0 <= i < |r.value| ==> r.value[i].id == tagId
      ensures r.Some? ==> (tagId in Ids(index.tags) <==> r.value[0] in index.tags)
    {
      var a := match index.GetTag(tagId) case Some(t) => [t] case None => [];
      var b := match attrib.GetTag(tagId) case Some(t) => [t] case None => [];
      if |a + b| == 0 then None else Some(a + b)
    }

    /** `equals`. */
    method Equals(other: ImageData) returns (b: bool)
      requires Valid() && other.Valid()
      ensures b == ImageEquals(this, other)
    {
      if this == other {
        return true;
      }
      if other.bigEndian != bigEndian {
        return false;
      }
      var i1 := other.GetMpIfdData(TYPE_MP_INDEX_IFD);
      var i2 := GetMpIfdData(TYPE_MP_INDEX_IFD);
      var e := i1.Equals(i2);
      if i1 != i2 && !e {
        return false;
      }
      var a1 := other.GetMpIfdData(TYPE_MP_ATTRIB_IFD);
      var a2 := GetMpIfdData(TYPE_MP_ATTRIB_IFD);
      e := a1.Equals(a2);
      if a1 != a2 && !e {
        return false;
      }
      return true;
    }

    /**
     * `calculateOffsetOfIfd`: the IFD's entries and next-IFD offset come
     * first; its big values follow, each given the next free offset.
     * Returns the offset after the IFD.
     */
    method CalculateOffsetOfIfd(d: IfdData, start: int) returns (r: int)
      requires Valid() && (d == index || d == attrib)
      modifies d
      ensures Valid() && d.next == old(d.next)
      ensures d.tags == Placed(old(d.tags), ValuesStart(old(d.tags), start))
      ensures r == start + IfdSize(old(d.tags))
    {
      var offset := start + 2 + |d.tags| * TAG_SIZE + 4;
      ghost var at := offset;
      var ts := d.tags;
      ghost var t0 := ts;
      var n := |ts|;
      for i := 0 to n
        invariant |ts| == n
        invariant forall j :: 0 <= j < i ==> ts[j] == PlacedAt(t0, at, j)
        invariant forall j :: i <= j < n ==> ts[j] == t0[j]
        invariant offset == at + BigUpTo(t0, i)
      {
        var tag := ts[i];
        if DataSize(tag) > 4 {
          ts := ts[i := tag.(offset := offset)];
          offset := offset + DataSize(tag);
        }
      }
      assert ts == Placed(t0, at);
      PlacedValid(t0, at, d.id);
      d.tags := ts;
      r := offset;
    }

    /**
     * `calculateAllIfdOffsets`: lays out each non-empty IFD after the
     * 8-byte header; when the attribute IFD has tags, the index IFD's
     * next-IFD offset becomes the attribute IFD's start.
     */
    method CalculateAllIfdOffsets() returns (r: int)
      requires Valid()
      modifies index, attrib
      ensures Valid()
      ensures r == AllIfdOffsets(old(index.tags), old(attrib.tags))
      ensures index.tags == Laid(old(index.tags), MP_HEADER_SIZE)
      ensures attrib.tags == Laid(old(attrib.tags), AttribStart(old(index.tags)))
      ensures index.next == (if |old(attrib.tags)| > 0 then AttribStart(old(index.tags)) else old(index.next))
      ensures attrib.next == old(attrib.next)
    {
      ghost var i0, a0 := index.tags, attrib.tags;
      var offset := MP_HEADER_SIZE;
      if index.TagCount() > 0 {
        offset := CalculateOffsetOfIfd(index, offset);
      }
      assert offset == AttribStart(i0);
      assert attrib.tags == a0;
      if attrib.TagCount() > 0 {
        index.SetOffsetToNextIfd(offset);
        offset := CalculateOffsetOfIfd(attrib, offset);
        assert attrib.tags == Laid(a0, AttribStart(i0));
      }
      r := offset;
    }

    /** `calculateImageSize`: the APP2 marker, its header, the IFDs and the JPEG bytes. */
    method CalculateImageSize() returns (r: int)
      requires Valid()
      modifies index, attrib
      ensures Valid()
      ensures r == 2 + APP_HEADER_SIZE + AllIfdOffsets(old(index.tags), old(attrib.tags)) + |jpeg|
      ensures index.tags == Laid(old(index.tags), MP_HEADER_SIZE)
      ensures attrib.tags == Laid(old(attrib.tags), AttribStart(old(index.tags)))
      ensures index.next == (if |old(attrib.tags)| > 0 then AttribStart(old(index.tags)) else old(index.next))
      ensures attrib.next == old(attrib.next)
    {
      var o := CalculateAllIfdOffsets();
      r := 2 + APP_HEADER_SIZE + o + |jpeg|;
    }
  }

  /**
   * What `MpoImageData.equals` decides: the same object, or the same byte
   * order and, from b's side, equal index IFDs and equal attribute IFDs.
   * The JPEG bytes are not compared.
   */
  ghost predicate ImageEquals(a: ImageData, b: ImageData)
    reads a.index, a.attrib, b.index, b.attrib
  {
    a == b || (a.bigEndian == b.bigEndian
      && (b.index == a.index || IfdEquals(b.index.tags, a.index.tags))
      && (b.attrib == a.attrib || IfdEquals(b.attrib.tags, a.attrib.tags)))
  }

  /** Image equality does not depend on which side asks. */
  lemma ImageEqualsSymmetric(a: ImageData, b: ImageData)
    requires a.Valid() && b.Valid() && ImageEquals(a, b)
    ensures ImageEquals(b, a)
  {
    if a != b {
      if b.index != a.index {
        IfdEqualsSymmetric(b.index.tags, a.index.tags);
      }
      if b.attrib != a.attrib {
        IfdEqualsSymmetric(b.attrib.tags, a.attrib.tags);
      }
    }
  }
}
