// The MP tags an MPO file's images carry and the values MpoData gives them
// (src/com/android/camera/mpo/MpoData.java): the default MP Attribute and MP
// Index tags, and the MP Entry list giving every image's size and offset.
module MpoEntries {
  import opened Bytes
  import opened MpoTag
  import opened MpoIfd
  import opened MpoImage

  /** The MP format version value "0100". */
  const MP_FORMAT_VER_VALUE: seq<byte> := [0x30, 0x31, 0x30, 0x30]

  /** Individual image attribute of the primary image: the representative-image flag, bit 29. */
  const PRIMARY_ATTRIB: int := 0x2000_0000

  /** Individual image attribute of an auxiliary image: a multi-frame disparity image. */
  const AUX_ATTRIB: int := 0x02_0002

  /** The image number the primary image gets in `updateAttribIfdTags`. */
  const PRIMARY_IMAGE_NUMBER: int := 0xFFFF_FFFF

  /** The MP Format Version tag for an IFD. */
  function FormatVersionTag(ifd: int): (t: Tag)
    ensures t.id == TAG_MP_FORMAT_VERSION && t.ifd == ifd && WellTyped(t) && DataSize(t) == 4
  {
    NewTag(TAG_MP_FORMAT_VERSION, TYPE_UNDEFINED, ifd).(value := Bytes(MP_FORMAT_VER_VALUE))
  }

  /**
   * A long tag given the value n by `setValue`: n when it is an unsigned
   * 32-bit value, otherwise `setValue` refuses it and the tag keeps its value.
   */
  function WithLong(t: Tag, n: int): (r: Tag)
    ensures r.id == t.id && r.ifd == t.ifd
    ensures t.value.Longs? && IsU32(n) ==> r.value == Longs([n])
    ensures !(t.value.Longs? && IsU32(n)) ==> r == t
  {
    match SetLong(t, n)
    case Some(u) => u
    case None => t
  }

  /** The MP Image Number tag of an attribute IFD. */
  function ImageNumberTag(n: int): (t: Tag)
    ensures t.id == TAG_IMAGE_NUMBER && t.ifd == TYPE_MP_ATTRIB_IFD
    ensures IsU32(n) ==> t.value == Longs([n])
  {
    WithLong(NewTag(TAG_IMAGE_NUMBER, TYPE_UNSIGNED_LONG, TYPE_MP_ATTRIB_IFD), n)
  }

  /** The Number of Images tag: the one the index IFD already has, or a new one, set to n. */
  function NumImagesTag(index: seq<Tag>, n: int): (t: Tag)
    ensures t.id == TAG_NUM_IMAGES
  {
    var base := match Find(index, TAG_NUM_IMAGES)
      case Some(u) => u
      case None => NewTag(TAG_NUM_IMAGES, TYPE_UNSIGNED_LONG, TYPE_MP_INDEX_IFD);
    WithLong(base, n)
  }

  /** The MP Entry tag holding a list of entries. */
  function EntryTag(es: seq<MpEntry>): (t: Tag)
    requires forall i :: 0 <= i < |es| ==> ValidEntry(es[i])
    ensures t.id == TAG_MP_ENTRY && t.ifd == TYPE_MP_INDEX_IFD && t.value == Bytes(EntriesBytes(es))
  {
    NewTag(TAG_MP_ENTRY, TYPE_UNDEFINED, TYPE_MP_INDEX_IFD).(value := Bytes(EntriesBytes(es)))
  }

  /** The placeholder entries `addDefaultIndexIfdTags` stores: n all-zero entries. */
  function ZeroEntries(n: nat): (es: seq<MpEntry>)
    ensures |es| == n && forall i :: 0 <= i < n ==> es[i] == MpEntry(0, 0, 0, 0, 0) && ValidEntry(es[i])
  {
    seq(n, i => MpEntry(0, 0, 0, 0, 0))
  }

  /** The attribute IFD after `addDefaultAttribIfdTags(image, n)`. */
  function AttribDefaults(attrib: seq<Tag>, n: int): seq<Tag> {
    PutTag(PutTag(attrib, FormatVersionTag(TYPE_MP_ATTRIB_IFD)), ImageNumberTag(n))
  }

  /** The index IFD after the tag additions of `addDefaultIndexIfdTags` with `aux` auxiliary images. */
  function IndexDefaults(index: seq<Tag>, aux: nat): seq<Tag> {
    PutTag(WithCount(index, aux), EntryTag(ZeroEntries(aux + 1)))
  }

  /** The index IFD after the format version and Number of Images steps of `addDefaultIndexIfdTags`. */
  function WithCount(index: seq<Tag>, aux: nat): seq<Tag> {
    var i1 := WithFormatVersion(index);
    PutTag(i1, NumImagesTag(i1, aux + 1))
  }

  /** The index IFD with a format version tag added when it has none. */
  function WithFormatVersion(index: seq<Tag>): seq<Tag> {
    if Find(index, TAG_MP_FORMAT_VERSION).None? then PutTag(index, FormatVersionTag(TYPE_MP_INDEX_IFD)) else index
  }

  /** What `calculateImageSize` gives for an image with these IFDs and JPEG length. */
  function ImageSize(index: seq<Tag>, attrib: seq<Tag>, jpegLen: nat): int {
    2 + APP_HEADER_SIZE + AllIfdOffsets(index, attrib) + jpegLen
  }

  /** The sum of the first k sizes. */
  function SumTo(sizes: seq<int>, k: nat): int
    requires k <= |sizes|
  {
    if k == 0 then 0 else SumTo(sizes, k - 1) + sizes[k - 1]
  }

  /**
   * The Java int `imgOffset` of `updateIndexIfdTags` before auxiliary image
   * k: the primary image's size plus the sizes of the images before k, each
   * addition wrapping to 32 bits.
   */
  function RunningOffset(primarySize: int, sizes: seq<int>, k: nat): int
    requires k <= |sizes|
  {
    if k == 0 then Int32(primarySize) else Int32(RunningOffset(primarySize, sizes, k - 1) + Int32(sizes[k - 1]))
  }

  /**
   * The MP Entry list `updateIndexIfdTags` builds from the primary image's
   * size and the auxiliary images' sizes: each Java int wraps to 32 bits.
   */
  function MpEntries(primarySize: int, sizes: seq<int>): (es: seq<MpEntry>)
    ensures |es| == |sizes| + 1 && forall i :: 0 <= i < |es| ==> ValidEntry(es[i])
  {
    [MpEntry(Int32(PRIMARY_ATTRIB), Int32(primarySize), 0, 0, 0)]
    + seq(|sizes|, i requires 0 <= i < |sizes| => AuxEntry(primarySize, sizes, i))
  }

  /** The entry of auxiliary image i: its size, and the sum of every size before it as its offset. */
  function AuxEntry(primarySize: int, sizes: seq<int>, i: nat): (e: MpEntry)
    requires i < |sizes|
    ensures ValidEntry(e)
  {
    MpEntry(AUX_ATTRIB, Int32(sizes[i]), Int32(primarySize + SumTo(sizes, i)), 0, 0)
  }

  /** The image number `updateAttribIfdTags` gives image i of the primary-then-auxiliary list. */
  function ImageNumberOf(i: nat): (n: int)
    ensures IsU32(n) || i >= TWO32
    ensures i > 0 ==> n == i
  {
    if i == 0 then PRIMARY_IMAGE_NUMBER else i
  }

  /** The index IFD after the Number of Images step of `updateIndexIfdTags`. */
  function IndexWithCount(index: seq<Tag>, aux: nat): seq<Tag> {
    PutTag(index, NumImagesTag(index, aux + 1))
  }

  /**
   * The primary image's index IFD after `updateIndexIfdTags`: the IFD with
   * the image count, laid out, then given the MP Entry list for the primary
   * image's size and the auxiliary sizes.
   */
  function FinalIndex(index1: seq<Tag>, attrib: seq<Tag>, jpegLen: nat, sizes: seq<int>): seq<Tag> {
    PutTag(Laid(index1, MP_HEADER_SIZE), EntryTag(EntriesFor(index1, attrib, jpegLen, sizes)))
  }

  /** The MP Entry list of an image with these IFDs and JPEG length and these auxiliary sizes. */
  function EntriesFor(index1: seq<Tag>, attrib: seq<Tag>, jpegLen: nat, sizes: seq<int>): (es: seq<MpEntry>)
    ensures |es| == |sizes| + 1 && forall i :: 0 <= i < |es| ==> ValidEntry(es[i])
  {
    MpEntries(ImageSize(index1, attrib, jpegLen), sizes)
  }

  /** The `next` an index IFD has after `calculateAllIfdOffsets`: the attribute IFD's start when there is one. */
  function NextAfterLayout(index: seq<Tag>, attrib: seq<Tag>, next: int): (n: int)
    ensures |attrib| > 0 ==> n == MP_HEADER_SIZE + (if |index| > 0 then IfdSize(index) else 0)
    ensures |attrib| == 0 ==> n == next
  {
    if |attrib| > 0 then AttribStart(index) else next
  }
}
