// The MPO stream writer (src/com/android/camera/mpo/MpoOutputStream.java):
// the APP2 segment `writeMpoData` builds, and the `write` state machine that
// copies a JPEG image and inserts that segment once its APP0/APP1 segments
// have gone by. JpegHeader is not part of this model; its markers are those
// of ITU-T T.81, Table B.1: SOI FFD8, EOI FFD9, APPn FFEn, and SOFn
// FFC0-FFCF except the DHT, JPG and DAC codes FFC4, FFC8 and FFCC.
module MpoStream {
  import opened Bytes
  import opened MpoTag
  import opened MpoIfd
  import opened MpoImage
  import opened MpoEntries
  import opened MpoIfdBytes

  const SOI: seq<byte> := [0xFF, 0xD8]
  const EOI: seq<byte> := [0xFF, 0xD9]
  const APP0: int := 0xFFE0
  const APP1: int := 0xFFE1
  const APP2: int := 0xFFE2

  const TIFF_HEADER: int := 0x002A
  const TIFF_BIG_ENDIAN: int := 0x4D4D
  const TIFF_LITTLE_ENDIAN: int := 0x4949
  const MAX_EXIF_SIZE: int := 65535

  const DC_CROP_INFO: string := "Qualcomm Dual Camera Attributes"
  const DC_CROP_INFO_BYTE_SIZE: nat := 31

  /** The two bytes at `at` read as an unsigned marker code or segment length. */
  function Code(b: seq<byte>, at: nat): (c: int)
    requires at + 2 <= |b|
    ensures 0 <= c < TWO16
  {
    (b[at] as int) * 0x100 + b[at + 1]
  }

  /** `JpegHeader.isSofMarker`: a start-of-frame marker. */
  predicate IsSofMarker(c: int) {
    0xFFC0 <= c <= 0xFFCF && c != 0xFFC4 && c != 0xFFC8 && c != 0xFFCC
  }

  /**
   * `isDualCamCropInfo`: all 31 bytes were read, and each byte, widened to a
   * char, is the magic string's character. A byte of 0x80 or more widens to
   * a char above 0xFF7F and matches no character of the string.
   */
  predicate IsCropInfo(read: seq<byte>) {
    |read| == |DC_CROP_INFO| && forall i :: 0 <= i < |read| ==> read[i] == DC_CROP_INFO[i] as int
  }

  // ---- the APP2 segment ----

  /**
   * The image being written (`mCurrentImageData`): its two IFDs with their
   * tags in `getAllTags` order and their next-IFD offsets, its byte order and
   * its JPEG bytes.
   */
  datatype Image = Image(index: seq<Tag>, indexNext: int, attrib: seq<Tag>, attribNext: int,
                         bigEndian: bool, jpeg: seq<byte>)

  /** The image after `calculateAllIfdOffsets`: both IFDs laid out after the 8-byte header. */
  function LaidOut(img: Image): (r: Image)
    ensures |r.index| == |img.index| && |r.attrib| == |img.attrib|
    ensures IfdSize(r.index) == IfdSize(img.index) && IfdSize(r.attrib) == IfdSize(img.attrib)
    ensures r.bigEndian == img.bigEndian && r.attribNext == img.attribNext && r.jpeg == img.jpeg
  {
    LaidStable(img.index, MP_HEADER_SIZE);
    LaidStable(img.attrib, AttribStart(img.index));
    img.(index := Laid(img.index, MP_HEADER_SIZE), attrib := Laid(img.attrib, AttribStart(img.index)),
         indexNext := NextAfterLayout(img.index, img.attrib, img.indexNext))
  }

  /** The segment length `writeMpoData` computes: the IFD offsets plus the 6-byte APP header. */
  function ExifSize(img: Image): int {
    AllIfdOffsets(img.index, img.attrib) + APP_HEADER_SIZE
  }

  /**
   * The first 12 bytes of the segment: the APP2 marker, the segment length,
   * "MPF\0" (all big-endian), the byte-order mark and the TIFF magic number
   * in the image's order.
   */
  function SegmentHead(exif: int, bigEndian: bool): (s: seq<byte>)
    ensures |s| == 12
  {
    PutShortBE(Int16(APP2)) + PutShortBE(Int16(exif)) + PutIntBE(MP_FORMAT_IDENTIFIER)
      + PutShortBE(if bigEndian then TIFF_BIG_ENDIAN else TIFF_LITTLE_ENDIAN) + PutShort(TIFF_HEADER, bigEndian)
  }

  /** What `writeIfd` writes for an IFD that `writeAllTags` writes only when it has tags. */
  function IfdPart(tags: seq<Tag>, next: int, bigEndian: bool): (s: seq<byte>)
    ensures |s| == if |tags| > 0 then IfdSize(tags) else 0
  {
    if |tags| > 0 then IfdBytesSize(tags, next, bigEndian); IfdBytes(tags, next, bigEndian) else []
  }

  /**
   * The MP entries after `updateIndexIfdOffsets`: the first (the primary
   * image, offset 0) is kept, every later entry has the MP header's position
   * in the file taken off its offset, in Java int arithmetic.
   */
  function ShiftOffsets(es: seq<MpEntry>, mpoStart: int): (r: seq<MpEntry>)
    requires forall i :: 0 <= i < |es| ==> ValidEntry(es[i])
    ensures |r| == |es| && forall i :: 0 <= i < |es| ==> ValidEntry(r[i])
  {
    seq(|es|, i requires 0 <= i < |es| => if i == 0 then es[0] else Shifted(es[i], mpoStart))
  }

  function Shifted(e: MpEntry, mpoStart: int): (r: MpEntry)
    requires ValidEntry(e)
    ensures ValidEntry(r)
  {
    e.(offset := Int32(e.offset - mpoStart))
  }

  /**
   * The index IFD after `updateIndexIfdOffsets`: its MP Entry tag's list is
   * decoded, shifted and encoded back in place. None when there is no MP
   * Entry tag (the source dereferences null) or its value cannot be decoded.
   */
  function ShiftedIndex(index: seq<Tag>, mpoStart: int): (r: Option<seq<Tag>>)
    ensures r.Some? <==> TAG_MP_ENTRY in Ids(index) && Find(index, TAG_MP_ENTRY).value.value.Bytes?
                         && |Find(index, TAG_MP_ENTRY).value.value.bytes| % ENTRY_SIZE == 0
  {
    match Find(index, TAG_MP_ENTRY)
    case None => None
    case Some(t) =>
      if t.value.Bytes? && |t.value.bytes| % ENTRY_SIZE == 0 then
        Some(PutTag(index, t.(value := Bytes(EntriesBytes(ShiftOffsets(DecodeAll(t.value.bytes), mpoStart))))))
      else None
  }

  // ---- the state machine ----

  /** `mState`. */
  datatype Phase = Soi | FrameHeader | SkipCrop | JpegData

  /**
   * The stream's fields: `mState`, `mByteToSkip`, `mByteToCopy`, the 4-byte
   * `mBuffer` and its position, the 31 bytes of `mCropInfo`, `mMpoOffsetStart`,
   * `mSize`, `mSkipCropData`, whether `mMpoData` is set, and the image
   * being written.
   */
  datatype St = St(phase: Phase, toSkip: int, toCopy: int, buf: seq<byte>, pos: nat, crop: seq<byte>,
                   mpoStart: int, size: int, skipCrop: bool, hasMpo: bool, img: Image)

  /** Between two steps the header buffer holds 4 bytes and is not full, and the crop buffer holds 31. */
  predicate Good(st: St) {
    |st.buf| == 4 && st.pos < 4 && (st.phase == Soi ==> st.pos < 2) && |st.crop| == DC_CROP_INFO_BYTE_SIZE
  }

  /** The phases in the order the machine goes through them; a step without input moves down. */
  function Rank(p: Phase): nat {
    match p
    case Soi => 3
    case FrameHeader => 2
    case SkipCrop => 1
    case JpegData => 0
  }

  /** `resetStates`, which leaves the buffer's bytes where they are. */
  function Reset(st: St): (r: St)
    ensures r.phase == Soi && r.toSkip == 0 && r.toCopy == 0 && r.pos == 0
    ensures |st.buf| == 4 && |st.crop| == DC_CROP_INFO_BYTE_SIZE ==> Good(r)
  {
    st.(phase := Soi, toSkip := 0, toCopy := 0, pos := 0)
  }

  /** `requestByteToBuffer`: how many of `len` available bytes fill a buffer at `pos` up to `want`. */
  function Take(pos: nat, want: nat, len: nat): (n: nat)
    requires pos <= want
    ensures n <= len && pos + n <= want
    ensures n == len || pos + n == want
  {
    if len > want - pos then want - pos else len
  }

  /** What `writeAllTags` leaves: the index IFD after the shift (None when it throws) and the bytes of the IFDs. */
  datatype AllTagsResult = AllTagsResult(index: Option<seq<Tag>>, bytes: seq<byte>)

  /**
   * `writeAllTags` on a laid-out image: a non-empty index IFD gets its
   * offsets shifted and is written, then a non-empty attribute IFD.
   */
  function AllTags(img: Image, mpoStart: int): (t: AllTagsResult)
    ensures |img.index| == 0 ==> t.index == Some(img.index)
    ensures t.index.Some? ==> |t.bytes| == |IfdPart(t.index.value, img.indexNext, img.bigEndian)|
                              + |IfdPart(img.attrib, img.attribNext, img.bigEndian)|
  {
    var index := if |img.index| > 0 then ShiftedIndex(img.index, mpoStart) else Some(img.index);
    if index.None? then AllTagsResult(None, [])
    else AllTagsResult(index, IfdPart(index.value, img.indexNext, img.bigEndian)
                              + IfdPart(img.attrib, img.attribNext, img.bigEndian))
  }

  /** Outcome of `writeMpoData`: the new state and the bytes written, or the exception and what was written before it. */
  datatype Written = Wrote(st: St, out: seq<byte>) | Threw(st: St, out: seq<byte>)

  /**
   * `writeMpoData`: nothing without MPO data. Otherwise the image is laid
   * out, a segment longer than 65535 bytes is refused, the MP header's
   * position is fixed the first time, and the segment is written: the head,
   * then the offset 8 of the first IFD and the non-empty IFDs, or 0 when
   * both are empty.
   */
  function MpoWrite(st: St): (w: Written)
    ensures Framed(st, w.st) && (w.Wrote? ==> w.st.size == st.size + |w.out|)
  {
    if !st.hasMpo then Wrote(st, [])
    else Checked(st.(img := LaidOut(st.img)), ExifSize(st.img))
  }

  /** The fields of the stream that `writeMpoData` leaves alone. */
  predicate Framed(a: St, b: St) {
    b.phase == a.phase && b.toSkip == a.toSkip && b.toCopy == a.toCopy && b.buf == a.buf && b.pos == a.pos
    && b.crop == a.crop && b.skipCrop == a.skipCrop && b.hasMpo == a.hasMpo
  }

  /** `writeMpoData` after the layout: the size check, then the MP header's position is fixed the first time. */
  function Checked(st: St, exif: int): (w: Written)
    ensures Framed(st, w.st) && (w.Wrote? ==> w.st.size == st.size + |w.out|)
  {
    if exif > MAX_EXIF_SIZE then Threw(st, [])
    else Emit(st.(mpoStart := HeaderPosition(st)), exif)
  }

  /** Where the MP header sits in the output: fixed the first time, 8 bytes into the segment being written. */
  function HeaderPosition(st: St): int {
    if st.mpoStart == -1 then st.size + 8 else st.mpoStart
  }

  lemma CheckedEmits(st: St, exif: int, start: int)
    requires exif <= MAX_EXIF_SIZE && start == HeaderPosition(st)
    ensures Checked(st, exif) == Emit(st.(mpoStart := start), exif)
  {
  }

  /**
   * The segment of `writeMpoData` once the image is laid out and the MP
   * header's position is known: the head, then the offset 8 of the first
   * IFD and the non-empty IFDs, or 0 when both are empty.
   */
  function Emit(st: St, exif: int): (w: Written)
    ensures Framed(st, w.st) && (w.Wrote? ==> w.st.size == st.size + |w.out|)
  {
    var img := st.img;
    var head := SegmentHead(exif, img.bigEndian);
    if exif <= MP_HEADER_SIZE + APP_HEADER_SIZE then
      var seg := head + PutInt(0, img.bigEndian);
      Wrote(st.(size := st.size + |seg|), seg)
    else WithTags(st, head + PutInt(OFFSET_TO_FIRST_IFD, img.bigEndian))
  }

  /** The rest of a segment with tags, after its `first` 16 bytes: the IFDs, if `writeAllTags` gets through. */
  function WithTags(st: St, first: seq<byte>): (w: Written)
    ensures Framed(st, w.st) && (w.Wrote? ==> w.st.size == st.size + |w.out|)
  {
    var t := AllTags(st.img, st.mpoStart);
    if t.index.None? then Threw(st, first)
    else
      var seg := first + t.bytes;
      Wrote(st.(img := st.img.(index := t.index.value), size := st.size + |seg|), seg)
  }

  /** One pass of the loop's `switch`: the call returns, throws, or goes on after `used` input bytes. */
  datatype Step = Halt(st: St, out: seq<byte>) | Fail(st: St, out: seq<byte>) | Next(st: St, used: nat, out: seq<byte>)

  /** STATE_SOI: collect two bytes; they must be SOI, which is written. */
  function SoiStep(st: St, r: seq<byte>): (s: Step)
    requires Good(st) && st.phase == Soi && |r| > 0
    ensures !s.Fail? ==> Good(s.st) && s.st.size == st.size + |s.out|
    ensures s.Next? ==> 0 < s.used <= |r|
    ensures s.st.hasMpo == st.hasMpo
  {
    var n := Take(st.pos, 2, |r|);
    var buf := Overlay(st.buf, st.pos, r[..n]);
    var st1 := st.(buf := buf, pos := st.pos + n);
    if st.pos + n < 2 then Halt(st1, [])
    else if buf[..2] != SOI then Fail(st1, [])
    else Next(st1.(pos := 0, phase := FrameHeader, size := st.size + 2), n, buf[..2])
  }

  /**
   * The end-of-image check after a header read that stopped at position 2,
   * with the position after it and what it writes. The source reads the
   * short at the buffer's current position, bytes 2 and 3, left from an
   * earlier header (`asWritten`), which also moves the position to 4; the
   * evidently intended check reads the two bytes just collected.
   */
  function EoiCheck(buf: seq<byte>, p: nat, asWritten: bool): (c: (nat, seq<byte>))
    requires |buf| == 4 && p <= 4
    ensures c.0 <= 4 && |c.1| <= 2 && (c.0 < 4 ==> c.0 <= p) && (c.0 == 4 ==> c.1 == [])
    ensures p != 2 ==> c == (p, [])
  {
    if p != 2 then (p, [])
    else if asWritten then (if buf[2..4] == EOI then (0, buf[..2]) else (4, []))
    else if buf[..2] == EOI then (0, buf[..2]) else (2, [])
  }

  /** A marker header collected: the state with the new buffer and position, the bytes taken, and what the check wrote. */
  datatype Collected = Collected(st: St, used: nat, out: seq<byte>)

  /** `requestByteToBuffer` for a 4-byte header, then the end-of-image check. */
  function Collect(st: St, r: seq<byte>, asWritten: bool): (c: Collected)
    requires Good(st) && |r| > 0
    ensures c.st == st.(buf := c.st.buf, pos := c.st.pos, size := st.size + |c.out|)
    ensures |c.st.buf| == 4 && c.st.pos <= 4 && 0 < c.used <= |r|
    ensures c.st.pos == 4 ==> c.out == []
    ensures c.st.pos < 4 ==> c.st.pos <= st.pos + c.used
  {
    var n := Take(st.pos, 4, |r|);
    var buf := Overlay(st.buf, st.pos, r[..n]);
    var c := EoiCheck(buf, st.pos + n, asWritten);
    Collected(st.(buf := buf, pos := c.0, size := st.size + |c.1|), n, c.1)
  }

  /**
   * STATE_FRAME_HEADER once a full header is collected: an APP0 or APP1
   * header is written and its payload is to be copied; any other marker
   * makes the stream write the APP2 segment and move on, leaving the marker
   * in the input.
   */
  function MarkerStep(st: St, n: nat): (s: Step)
    requires |st.buf| == 4 && st.pos == 4 && |st.crop| == DC_CROP_INFO_BYTE_SIZE && 0 < n
    ensures !s.Fail? ==> Good(s.st) && s.st.size == st.size + |s.out|
    ensures s.Next? ==> (s.used == n || (s.used == 0 && s.st.phase in {SkipCrop, JpegData}))
    ensures s.st.hasMpo == st.hasMpo && !s.Halt?
  {
    var marker := Code(st.buf, 0);
    if marker == APP1 || marker == APP0 then
      Next(st.(pos := 0, size := st.size + 4, toCopy := Code(st.buf, 2) - 2), n, st.buf)
    else
      match MpoWrite(st)
      case Threw(s, e) => Fail(s, e)
      case Wrote(s, e) => Next(s.(pos := 0, phase := if st.skipCrop then SkipCrop else JpegData), 0, e)
  }

  /** STATE_FRAME_HEADER. */
  function HeaderStep(st: St, r: seq<byte>, asWritten: bool): (s: Step)
    requires Good(st) && st.phase == FrameHeader && |r| > 0
    ensures !s.Fail? ==> Good(s.st) && s.st.size == st.size + |s.out|
    ensures s.Next? ==> s.used <= |r| && (s.used > 0 || Rank(s.st.phase) < Rank(st.phase))
    ensures s.st.hasMpo == st.hasMpo
  {
    var c := Collect(st, r, asWritten);
    if c.st.pos < 4 then Halt(c.st, c.out) else MarkerStep(c.st, c.used)
  }

  /**
   * STATE_SKIP_CROP once a full header is collected and taken: the header
   * is written. A SOF marker ends the search. Otherwise the next 31 bytes
   * are looked at without taking them: when they are the dual camera crop
   * magic, the payload is written as zeros and skipped in the input;
   * otherwise it is copied.
   */
  function CropStep(st: St, rest: seq<byte>, n: nat): (s: Step)
    requires |st.buf| == 4 && st.pos == 4 && |st.crop| == DC_CROP_INFO_BYTE_SIZE
    ensures s.Next? && Good(s.st) && s.st.size == st.size + |s.out| && s.used == n
    ensures s.st.hasMpo == st.hasMpo
  {
    var len := Code(st.buf, 2) - 2;
    var st2 := st.(pos := 0, size := st.size + 4);
    if IsSofMarker(Code(st.buf, 0)) then Next(st2.(phase := JpegData), n, st.buf)
    else
      var m := Take(0, DC_CROP_INFO_BYTE_SIZE, |rest|);
      var crop := Overlay(st.crop, 0, rest[..m]);
      if m == DC_CROP_INFO_BYTE_SIZE && IsCropInfo(rest[..m]) then
        var z := Zeros(if len > 0 then len else 0);
        Next(st2.(crop := crop, toSkip := len, size := st2.size + |z|, phase := JpegData), n, st.buf + z)
      else Next(st2.(crop := crop, toCopy := len), n, st.buf)
  }

  /** STATE_SKIP_CROP. */
  function SkipCropStep(st: St, r: seq<byte>, asWritten: bool): (s: Step)
    requires Good(st) && st.phase == SkipCrop && |r| > 0
    ensures !s.Fail? ==> Good(s.st) && s.st.size == st.size + |s.out|
    ensures s.Next? ==> 0 < s.used <= |r|
    ensures s.st.hasMpo == st.hasMpo
  {
    var c := Collect(st, r, asWritten);
    if c.st.pos < 4 then Halt(c.st, c.out) else CropStep(c.st, r[c.used..], c.used)
  }

  /** The `switch` of `write` for the phases that have a case. */
  function Switch(st: St, r: seq<byte>, asWritten: bool): (s: Step)
    requires Good(st) && st.phase != JpegData && |r| > 0
    ensures !s.Fail? ==> Good(s.st) && s.st.size == st.size + |s.out|
    ensures s.Next? ==> s.used <= |r| && (s.used > 0 || Rank(s.st.phase) < Rank(st.phase))
    ensures s.st.hasMpo == st.hasMpo
  {
    match st.phase
    case Soi => SoiStep(st, r)
    case FrameHeader => HeaderStep(st, r, asWritten)
    case SkipCrop => SkipCropStep(st, r, asWritten)
  }

  /** What one `write` call does: whether it returned normally, the state after it, and the bytes it wrote. */
  datatype Outcome = Outcome(ok: bool, st: St, out: seq<byte>)

  /** What was written before, followed by an outcome. */
  function Then(before: seq<byte>, o: Outcome): Outcome {
    o.(out := before + o.out)
  }

  lemma Concat3(a: seq<byte>, b: seq<byte>, c: seq<byte>)
    ensures (a + b) + c == a + (b + c)
  {
  }

  lemma ThenThen(a: seq<byte>, b: seq<byte>, o: Outcome)
    ensures Then(a, Then(b, o)) == Then(a + b, o)
  {
    assert a + (b + o.out) == (a + b) + o.out;
  }

  /** The state after the pending skip and copy, the bytes copied, and the input left. */
  datatype Pending = Pending(st: St, used: nat, copied: seq<byte>)

  /** The head of the loop: skip what is to be skipped, then copy what is to be copied. */
  function Drain(st: St, rest: seq<byte>): (p: Pending)
    requires Good(st)
    ensures Good(p.st) && p.st.phase == st.phase && p.st.hasMpo == st.hasMpo
    ensures p.st.size == st.size + |p.copied| && p.used <= |rest|
    ensures (st.toSkip > 0 || st.toCopy > 0) && |rest| > 0 ==> p.used > 0
    ensures p.used < |rest| ==> p.st.toSkip <= 0 && p.st.toCopy <= 0
  {
    var k := if st.toSkip > 0 then Take(0, st.toSkip, |rest|) else 0;
    var c := if st.toCopy > 0 then Take(0, st.toCopy, |rest| - k) else 0;
    Pending(st.(toSkip := st.toSkip - k, toCopy := st.toCopy - c, size := st.size + c), k + c, rest[k..k + c])
  }

  /** The loop of `write` goes on: bytes remain, and something is pending or the image data has not been reached. */
  predicate Busy(st: St, rest: seq<byte>) {
    |rest| > 0 && (st.toSkip > 0 || st.toCopy > 0 || st.phase != JpegData)
  }

  /**
   * `write(buffer, offset, length)` on the bytes `rest`: while the loop
   * goes on, a pass skips and copies what is pending and the rest is left
   * to the phase; once it stops, the bytes left are copied. A normal return
   * has added to `mSize` exactly the bytes written.
   */
  function Run(st: St, rest: seq<byte>, asWritten: bool): (o: Outcome)
    requires Good(st)
    ensures o.ok ==> Good(o.st) && o.st.size == st.size + |o.out|
    ensures o.st.hasMpo == st.hasMpo
    decreases |rest|, Rank(st.phase), 1
  {
    if !Busy(st, rest) then Outcome(true, st.(size := st.size + |rest|), rest)
    else
      var p := Drain(st, rest);
      Then(p.copied, Stepped(p.st, rest[p.used..], asWritten))
  }

  /**
   * The rest of a pass once nothing is pending: with no bytes left the call
   * returns; in the image data the loop stops and the bytes left are
   * copied; otherwise the phase takes its step and the loop goes on after it.
   */
  function Stepped(st: St, r: seq<byte>, asWritten: bool): (o: Outcome)
    requires Good(st) && (|r| > 0 ==> st.toSkip <= 0 && st.toCopy <= 0)
    ensures o.ok ==> Good(o.st) && o.st.size == st.size + |o.out|
    ensures o.st.hasMpo == st.hasMpo
    decreases |r|, Rank(st.phase), 0
  {
    if |r| == 0 then Outcome(true, st, [])
    else if st.phase == JpegData then Outcome(true, st.(size := st.size + |r|), r)
    else
      match Switch(st, r, asWritten)
      case Halt(s, e) => Outcome(true, s, e)
      case Fail(s, e) => Outcome(false, s, e)
      case Next(s, n, e) => Then(e, Run(s, r[n..], asWritten))
  }

  /** With nothing pending and the image data not reached, a step of the loop is the phase's step. */
  lemma SteppedBySwitch(st: St, r: seq<byte>, asWritten: bool, sw: Step)
    requires Good(st) && st.toSkip <= 0 && st.toCopy <= 0 && st.phase != JpegData && |r| > 0
    requires sw == Switch(st, r, asWritten)
    ensures sw.Halt? ==> Stepped(st, r, asWritten) == Outcome(true, sw.st, sw.out)
    ensures sw.Fail? ==> Stepped(st, r, asWritten) == Outcome(false, sw.st, sw.out)
    ensures sw.Next? ==> sw.used <= |r| && Stepped(st, r, asWritten) == Then(sw.out, Run(sw.st, r[sw.used..], asWritten))
  {
  }

  // ---- writeMpoFile ----

  /** `mMpoData` as the stream sees it: the primary image and the auxiliary images in list order. */
  datatype MpoFile = MpoFile(primary: Image, aux: seq<Image>)

  /** The first k auxiliary images, each written after `resetStates`, stopping at the first exception. */
  function AuxRuns(st: St, aux: seq<Image>, k: nat): (o: Outcome)
    requires Good(st) && k <= |aux|
    ensures o.ok ==> Good(o.st) && o.st.size == st.size + |o.out|
    ensures o.st.hasMpo == st.hasMpo
  {
    if k == 0 then Outcome(true, st, [])
    else
      var o := AuxRuns(st, aux, k - 1);
      if !o.ok then o
      else Then(o.out, Run(Reset(o.st).(img := aux[k - 1]), aux[k - 1].jpeg, false))
  }

  /** Once an auxiliary image throws, no later one is written. */
  lemma {:induction false} AuxStops(st: St, aux: seq<Image>, k: nat, n: nat)
    requires Good(st) && k <= n <= |aux| && !AuxRuns(st, aux, k).ok
    ensures AuxRuns(st, aux, n) == AuxRuns(st, aux, k)
    decreases n - k
  {
    if n > k {
      AuxStops(st, aux, k, n - 1);
    }
  }

  /**
   * `writeMpoFile`: the primary image, in skip-crop mode when there is more
   * than one auxiliary image, then every auxiliary image without it.
   */
  function WriteFile(st: St, f: MpoFile): (o: Outcome)
    requires Good(st)
    ensures o.ok ==> Good(o.st) && o.st.size == st.size + |o.out|
    ensures o.st.hasMpo == st.hasMpo
  {
    var p := Run(st.(img := f.primary, skipCrop := if |f.aux| > 1 then true else st.skipCrop), f.primary.jpeg, false);
    if !p.ok then p
    else Then(p.out, AuxRuns(p.st.(skipCrop := false), f.aux, |f.aux|))
  }
}
