// What `MpoOutputStream.write` does to a JPEG stream
// (src/com/android/camera/mpo/MpoOutputStream.java): an image that does not
// start with SOI is refused, SOI and the APP0/APP1 segments are copied, the
// APP2 segment goes in before the first other marker, which is left in the
// input, image data is copied, and in skip-crop mode the dual camera crop
// payload is written as zeros. Then the end-of-image check that reads the
// wrong bytes, against the check as intended.
module MpoWriteFacts {
  import opened Bytes
  import opened MpoTag
  import opened MpoImage
  import opened MpoIfdBytes
  import opened MpoStream
  import opened MpoStreamFacts

  // ---- helpers on bytes ----

  /** Writing v at pos leaves the bytes before pos, then v. */
  lemma OverlayPrefix(d: seq<byte>, pos: nat, v: seq<byte>)
    requires pos + |v| <= |d|
    ensures Overlay(d, pos, v)[..pos + |v|] == d[..pos] + v
  {
  }

  /** Writing v at pos leaves the 4-byte header buffer's bytes after it. */
  lemma OverlayRest(d: seq<byte>, pos: nat, v: seq<byte>)
    requires pos + |v| <= |d| == 4
    ensures Overlay(d, pos, v)[pos + |v|..4] == d[pos + |v|..4]
  {
  }

  /** The first i bytes, then the next j, are the first i + j; what is left after them is the same. */
  lemma PrefixJoin(r: seq<byte>, i: nat, j: nat)
    requires i + j <= |r|
    ensures r[..i] + r[i..][..j] == r[..i + j] && r[i..][j..] == r[i + j..]
  {
  }

  // ---- what is pending ----

  /** A payload of L bytes still to copy is copied first, then the loop goes on after it. */
  lemma CopyPayload(s: St, r: seq<byte>, asWritten: bool, len: int, s': St)
    requires Good(s) && s.toSkip <= 0 && s.toCopy == len && 0 <= len <= |r|
    requires s' == s.(toCopy := 0, size := s.size + len)
    ensures Good(s') && Run(s, r, asWritten) == Then(r[..len], Run(s', r[len..], asWritten))
  {
    DrainCopies(s, r, len, s');
    DrainFirst(s, r, asWritten);
  }

  /** The head of the loop copies a pending payload of L bytes that the input holds. */
  lemma DrainCopies(s: St, r: seq<byte>, len: int, s': St)
    requires Good(s) && s.toSkip <= 0 && s.toCopy == len && 0 <= len <= |r|
    requires s' == s.(toCopy := 0, size := s.size + len)
    ensures Drain(s, r) == Pending(s', len, r[..len])
  {
    var c := if len > 0 then Take(0, len, |r|) else 0;
    assert c == len;
    assert s.(toSkip := s.toSkip - 0, toCopy := s.toCopy - c, size := s.size + c) == s';
  }

  /** The head of the loop skips a pending payload of L bytes that the input holds. */
  lemma DrainSkips(s: St, r: seq<byte>, len: int, s': St)
    requires Good(s) && s.toCopy <= 0 && s.toSkip == len && 0 <= len <= |r|
    requires s' == s.(toSkip := 0)
    ensures Drain(s, r) == Pending(s', len, [])
  {
    var k := if len > 0 then Take(0, len, |r|) else 0;
    assert k == len;
    assert s.(toSkip := s.toSkip - k, toCopy := s.toCopy - 0, size := s.size + 0) == s';
  }

  /** Output written in two pieces, then what follows them, is output written at once. */
  lemma Join(x: Outcome, y: Outcome, z: Outcome, z': Outcome, a: seq<byte>, b: seq<byte>)
    requires x == Then(a, y) && y == Then(b, z) && z == z'
    ensures x == Then(a + b, z')
  {
    assert (a + b) + z.out == a + (b + z.out);
  }

  /** A header written, then a payload copied after it, then output z: the header and payload are one piece of the input. */
  lemma HeaderThenPayload(x: Outcome, y: Outcome, z: Outcome, r: seq<byte>, len: nat)
    requires 4 + len <= |r|
    requires x == Then(r[..4], y) && y == Then(r[4..][..len], z)
    ensures x == Then(r[..4 + len], z) && r[4..][len..] == r[4 + len..]
  {
    PrefixJoin(r, 4, len);
    Join(x, y, z, z, r[..4], r[4..][..len]);
  }

  /** A payload of L bytes to skip is dropped, then the loop goes on after it. */
  lemma SkipPayload(s: St, r: seq<byte>, asWritten: bool, len: int, s': St)
    requires Good(s) && s.toCopy <= 0 && s.toSkip == len && 0 <= len <= |r|
    requires s' == s.(toSkip := 0)
    ensures Good(s') && Run(s, r, asWritten) == Run(s', r[len..], asWritten)
  {
    DrainSkips(s, r, len, s');
    DrainFirst(s, r, asWritten);
    NothingBefore(Run(s', r[len..], asWritten).out);
  }

  /** In the image data with nothing pending, every byte is copied as it is. */
  lemma JpegDataCopied(s: St, r: seq<byte>, asWritten: bool)
    requires Good(s) && s.phase == JpegData && s.toSkip <= 0 && s.toCopy <= 0
    ensures Run(s, r, asWritten) == Outcome(true, s.(size := s.size + |r|), r)
  {
  }

  // ---- STATE_SOI ----

  /** The two bytes that the SOI state compares with SOI: those collected before, then the first of this call. */
  function SoiBytes(st: St, r: seq<byte>): (b: seq<byte>)
    requires Good(st) && st.phase == Soi && st.pos + |r| >= 2
    ensures |b| == 2
  {
    st.buf[..st.pos] + r[..2 - st.pos]
  }

  /** The SOI state's step once its two bytes are there. */
  lemma SoiStepFull(st: St, r: seq<byte>)
    requires Good(st) && st.phase == Soi && st.pos + |r| >= 2
    ensures var n := 2 - st.pos; var st1 := st.(buf := Overlay(st.buf, st.pos, r[..n]), pos := 2);
      && (SoiBytes(st, r) != SOI ==> SoiStep(st, r) == Fail(st1, []))
      && (SoiBytes(st, r) == SOI ==> SoiStep(st, r) == Next(st1.(pos := 0, phase := FrameHeader, size := st.size + 2), n, SOI))
  {
    OverlayPrefix(st.buf, st.pos, r[..2 - st.pos]);
  }

  /** An image that does not start with SOI is refused, and nothing is written. */
  lemma NotJpeg(st: St, r: seq<byte>, asWritten: bool)
    requires Good(st) && st.phase == Soi && st.toSkip <= 0 && st.toCopy <= 0 && st.pos + |r| >= 2
    requires SoiBytes(st, r) != SOI
    ensures !Run(st, r, asWritten).ok && Run(st, r, asWritten).out == []
  {
    NothingPending(st, r, asWritten);
    SoiStepFull(st, r);
  }

  /** SOI is written, and the stream goes on to the frame headers (state `next`) with what follows it. */
  lemma SoiCopied(st: St, r: seq<byte>, asWritten: bool, next: St)
    requires Good(st) && st.phase == Soi && st.pos == 0 && st.toSkip <= 0 && st.toCopy <= 0 && |r| >= 2
    requires r[..2] == SOI
    requires next == st.(buf := Overlay(st.buf, 0, r[..2]), phase := FrameHeader, size := st.size + 2)
    ensures Good(next) && Run(st, r, asWritten) == Then(SOI, Run(next, r[2..], asWritten))
  {
    SoiSwitch(st, r, asWritten, next);
    StepThenRun(st, r, asWritten, next, 2, SOI);
  }

  /** The SOI state's step when its two bytes are SOI: SOI is written and the frame headers (state `next`) follow. */
  lemma SoiSwitch(st: St, r: seq<byte>, asWritten: bool, next: St)
    requires Good(st) && st.phase == Soi && st.pos == 0 && |r| >= 2
    requires r[..2] == SOI
    requires next == st.(buf := Overlay(st.buf, 0, r[..2]), phase := FrameHeader, size := st.size + 2)
    ensures Switch(st, r, asWritten) == Next(next, 2, SOI)
  {
    assert SoiBytes(st, r) == SOI;
    SoiStepFull(st, r);
  }

  // ---- STATE_FRAME_HEADER ----

  /** A whole 4-byte header collected from position 0: the buffer holds it, and the end-of-image check does nothing. */
  lemma CollectWhole(st: St, r: seq<byte>, asWritten: bool)
    requires Good(st) && st.pos == 0 && |r| >= 4
    ensures Collect(st, r, asWritten) == Collected(st.(buf := r[..4], pos := 4), 4, [])
  {
    OverlayPrefix(st.buf, 0, r[..4]);
    assert st.(buf := r[..4], pos := 4, size := st.size + 0) == st.(buf := r[..4], pos := 4);
  }

  /** With nothing pending, a step that goes on is followed by the loop on the bytes after it. */
  lemma StepThenRun(st: St, r: seq<byte>, asWritten: bool, s: St, n: nat, e: seq<byte>)
    requires Good(st) && st.phase != JpegData && st.toSkip <= 0 && st.toCopy <= 0 && |r| > 0
    requires Switch(st, r, asWritten) == Next(s, n, e)
    ensures Good(s) && n <= |r| && Run(st, r, asWritten) == Then(e, Run(s, r[n..], asWritten))
  {
    NothingPending(st, r, asWritten);
  }

  /** An APP0 or APP1 header is taken and written, and its payload is to be copied (state `next`). */
  lemma AppStep(st: St, r: seq<byte>, asWritten: bool, next: St)
    requires Good(st) && st.phase == FrameHeader && st.pos == 0 && |r| >= 4
    requires Code(r, 0) == APP0 || Code(r, 0) == APP1
    requires next == st.(buf := r[..4], size := st.size + 4, toCopy := Code(r, 2) - 2)
    ensures Switch(st, r, asWritten) == Next(next, 4, r[..4])
  {
    CollectWhole(st, r, asWritten);
    assert Code(r[..4], 0) == Code(r, 0) && Code(r[..4], 2) == Code(r, 2);
  }

  /** An APP0 or APP1 header is written, and the stream (state `next`) is left to copy its payload. */
  lemma AppHeader(st: St, r: seq<byte>, asWritten: bool, next: St)
    requires Good(st) && st.phase == FrameHeader && st.pos == 0 && st.toSkip <= 0 && st.toCopy <= 0 && |r| >= 4
    requires Code(r, 0) == APP0 || Code(r, 0) == APP1
    requires next == st.(buf := r[..4], size := st.size + 4, toCopy := Code(r, 2) - 2)
    ensures Good(next) && Run(st, r, asWritten) == Then(r[..4], Run(next, r[4..], asWritten))
  {
    AppStep(st, r, asWritten, next);
    StepThenRun(st, r, asWritten, next, 4, r[..4]);
  }

  /**
   * An APP0 or APP1 segment whose length field L + 2 fits the input is
   * copied whole: its header and its L bytes of payload; then the stream
   * (state `next`) looks at the header after it.
   */
  lemma AppCopied(st: St, r: seq<byte>, asWritten: bool, next: St)
    requires Good(st) && st.phase == FrameHeader && st.pos == 0 && st.toSkip <= 0 && st.toCopy <= 0 && |r| >= 4
    requires Code(r, 0) == APP0 || Code(r, 0) == APP1
    requires 0 <= Code(r, 2) - 2 <= |r| - 4
    requires next == st.(buf := r[..4], size := st.size + 2 + Code(r, 2), toCopy := 0)
    ensures Good(next) && Run(st, r, asWritten) == Then(r[..2 + Code(r, 2)], Run(next, r[2 + Code(r, 2)..], asWritten))
  {
    var len := Code(r, 2) - 2;
    var s1 := st.(buf := r[..4], size := st.size + 4, toCopy := len);
    AppHeader(st, r, asWritten, s1);
    CopyPayload(s1, r[4..], asWritten, len, next);
    HeaderThenPayload(Run(st, r, asWritten), Run(s1, r[4..], asWritten), Run(next, r[4..][len..], asWritten), r, len);
  }

  /**
   * Any other marker, when the APP2 segment throws: the call ends with the
   * exception, after what the segment wrote. `hdr` is the state with the
   * header collected.
   */
  lemma MpoThrows(st: St, r: seq<byte>, asWritten: bool, hdr: St)
    requires Good(st) && st.phase == FrameHeader && st.pos == 0 && st.toSkip <= 0 && st.toCopy <= 0 && |r| >= 4
    requires Code(r, 0) != APP0 && Code(r, 0) != APP1
    requires hdr == st.(buf := r[..4], pos := 4) && MpoWrite(hdr).Threw?
    ensures Run(st, r, asWritten) == Outcome(false, MpoWrite(hdr).st, MpoWrite(hdr).out)
  {
    NothingPending(st, r, asWritten);
    CollectWhole(st, r, asWritten);
    assert Code(r[..4], 0) == Code(r, 0);
  }

  /**
   * Any other marker: the APP2 segment is written, then the stream (state
   * `next`) moves to the crop search or the image data with the marker
   * still in the input.
   */
  lemma MpoInserted(st: St, r: seq<byte>, asWritten: bool, hdr: St, next: St)
    requires Good(st) && st.phase == FrameHeader && st.pos == 0 && st.toSkip <= 0 && st.toCopy <= 0 && |r| >= 4
    requires Code(r, 0) != APP0 && Code(r, 0) != APP1
    requires hdr == st.(buf := r[..4], pos := 4) && MpoWrite(hdr).Wrote?
    requires next == MpoWrite(hdr).st.(pos := 0, phase := if st.skipCrop then SkipCrop else JpegData)
    ensures Good(next) && Run(st, r, asWritten) == Then(MpoWrite(hdr).out, Run(next, r, asWritten))
  {
    NothingPending(st, r, asWritten);
    CollectWhole(st, r, asWritten);
    assert Code(r[..4], 0) == Code(r, 0) && r[0..] == r;
  }

  /**
   * Without skip-crop mode, everything from the first marker that is not
   * APP0 or APP1 on is copied as it is, after the APP2 segment.
   */
  lemma RestCopied(st: St, r: seq<byte>, asWritten: bool, hdr: St)
    requires Good(st) && st.phase == FrameHeader && st.pos == 0 && st.toSkip <= 0 && st.toCopy <= 0 && |r| >= 4
    requires Code(r, 0) != APP0 && Code(r, 0) != APP1 && !st.skipCrop
    requires hdr == st.(buf := r[..4], pos := 4) && MpoWrite(hdr).Wrote?
    ensures var o := Run(st, r, asWritten); o.ok && o.out == MpoWrite(hdr).out + r && o.st.phase == JpegData
  {
    var next := MpoWrite(hdr).st.(pos := 0, phase := JpegData);
    MpoInserted(st, r, asWritten, hdr, next);
    JpegDataCopied(next, r, asWritten);
  }

  // ---- STATE_SKIP_CROP ----

  /** A start-of-frame header ends the crop search: the header and all that follows are copied. */
  lemma SofEnds(st: St, r: seq<byte>, asWritten: bool)
    requires Good(st) && st.phase == SkipCrop && st.pos == 0 && st.toSkip <= 0 && st.toCopy <= 0 && |r| >= 4
    requires IsSofMarker(Code(r, 0))
    ensures var o := Run(st, r, asWritten); o.ok && o.out == r && o.st.phase == JpegData && o.st.size == st.size + |r|
  {
    NothingPending(st, r, asWritten);
    CollectWhole(st, r, asWritten);
    assert Code(r[..4], 0) == Code(r, 0);
    var s2 := st.(buf := r[..4], pos := 0, size := st.size + 4, phase := JpegData);
    JpegDataCopied(s2, r[4..], asWritten);
    assert r[..4] + r[4..] == r;
  }

  /** How many of the 31 bytes after a header the crop search can look at. */
  function Peeked(r: seq<byte>): (m: nat)
    requires |r| >= 4
    ensures m <= DC_CROP_INFO_BYTE_SIZE && 4 + m <= |r|
  {
    Take(0, DC_CROP_INFO_BYTE_SIZE, |r| - 4)
  }

  /** The crop search finds the magic: the header is taken, it and zeros are written, and the payload is to be skipped. */
  lemma CropZeroStep(st: St, r: seq<byte>, asWritten: bool, next: St)
    requires Good(st) && st.phase == SkipCrop && st.pos == 0 && |r| >= 4
    requires !IsSofMarker(Code(r, 0)) && Code(r, 2) >= 2
    requires Peeked(r) == DC_CROP_INFO_BYTE_SIZE && IsCropInfo(r[4..4 + Peeked(r)])
    requires next == st.(buf := r[..4], size := st.size + 2 + Code(r, 2), crop := Overlay(st.crop, 0, r[4..4 + Peeked(r)]),
                         toSkip := Code(r, 2) - 2, phase := JpegData)
    ensures Switch(st, r, asWritten) == Next(next, 4, r[..4] + Zeros(Code(r, 2) - 2))
  {
    CollectWhole(st, r, asWritten);
    assert Code(r[..4], 0) == Code(r, 0) && Code(r[..4], 2) == Code(r, 2);
    assert r[4..][..Peeked(r)] == r[4..4 + Peeked(r)];
  }

  /** The crop search does not find the magic: the header is taken and written, and the payload is to be copied. */
  lemma CropCopyStep(st: St, r: seq<byte>, asWritten: bool, next: St)
    requires Good(st) && st.phase == SkipCrop && st.pos == 0 && |r| >= 4
    requires !IsSofMarker(Code(r, 0))
    requires !(Peeked(r) == DC_CROP_INFO_BYTE_SIZE && IsCropInfo(r[4..4 + Peeked(r)]))
    requires next == st.(buf := r[..4], size := st.size + 4, crop := Overlay(st.crop, 0, r[4..4 + Peeked(r)]),
                         toCopy := Code(r, 2) - 2)
    ensures Switch(st, r, asWritten) == Next(next, 4, r[..4])
  {
    CollectWhole(st, r, asWritten);
    assert Code(r[..4], 0) == Code(r, 0) && Code(r[..4], 2) == Code(r, 2);
    assert r[4..][..Peeked(r)] == r[4..4 + Peeked(r)];
  }

  /** The crop search finds the magic: the header and zeros are written, and the payload is to be skipped (state `next`). */
  lemma CropZeroHeader(st: St, r: seq<byte>, asWritten: bool, next: St)
    requires Good(st) && st.phase == SkipCrop && st.pos == 0 && st.toSkip <= 0 && st.toCopy <= 0 && |r| >= 4
    requires !IsSofMarker(Code(r, 0)) && Code(r, 2) >= 2
    requires Peeked(r) == DC_CROP_INFO_BYTE_SIZE && IsCropInfo(r[4..4 + Peeked(r)])
    requires next == st.(buf := r[..4], size := st.size + 2 + Code(r, 2), crop := Overlay(st.crop, 0, r[4..4 + Peeked(r)]),
                         toSkip := Code(r, 2) - 2, phase := JpegData)
    ensures Good(next) && Run(st, r, asWritten) == Then(r[..4] + Zeros(Code(r, 2) - 2), Run(next, r[4..], asWritten))
  {
    CropZeroStep(st, r, asWritten, next);
    StepThenRun(st, r, asWritten, next, 4, r[..4] + Zeros(Code(r, 2) - 2));
  }

  /** The crop search does not find the magic: the header is written, and the payload is to be copied (state `next`). */
  lemma CropCopyHeader(st: St, r: seq<byte>, asWritten: bool, next: St)
    requires Good(st) && st.phase == SkipCrop && st.pos == 0 && st.toSkip <= 0 && st.toCopy <= 0 && |r| >= 4
    requires !IsSofMarker(Code(r, 0))
    requires !(Peeked(r) == DC_CROP_INFO_BYTE_SIZE && IsCropInfo(r[4..4 + Peeked(r)]))
    requires next == st.(buf := r[..4], size := st.size + 4, crop := Overlay(st.crop, 0, r[4..4 + Peeked(r)]),
                         toCopy := Code(r, 2) - 2)
    ensures Good(next) && Run(st, r, asWritten) == Then(r[..4], Run(next, r[4..], asWritten))
  {
    CropCopyStep(st, r, asWritten, next);
    StepThenRun(st, r, asWritten, next, 4, r[..4]);
  }

  /** A header written, then zeros for a payload that is skipped, then the rest copied. */
  lemma ZerosThenRest(st: St, s1: St, r: seq<byte>, asWritten: bool, len: nat)
    requires Good(st) && Good(s1) && 4 + len <= |r| && s1.phase == JpegData && s1.toCopy <= 0 && s1.toSkip == len
    requires Run(st, r, asWritten) == Then(r[..4] + Zeros(len), Run(s1, r[4..], asWritten))
    ensures Run(st, r, asWritten) == Outcome(true, s1.(toSkip := 0, size := s1.size + |r| - 4 - len), r[..4] + Zeros(len) + r[4 + len..])
  {
    SkipPayload(s1, r[4..], asWritten, len, s1.(toSkip := 0));
    PrefixJoin(r, 4, len);
    JpegDataCopied(s1.(toSkip := 0), r[4 + len..], asWritten);
  }

  /**
   * Another segment whose 31 bytes after the header are the dual camera
   * crop magic: its header is written, then as many zeros as its payload
   * length L, and its payload is skipped in the input; everything after
   * the payload is copied. The output is as long as the input.
   */
  lemma CropZeroed(st: St, r: seq<byte>, asWritten: bool)
    requires Good(st) && st.phase == SkipCrop && st.pos == 0 && st.toSkip <= 0 && st.toCopy <= 0
    requires |r| >= 4 + DC_CROP_INFO_BYTE_SIZE && !IsSofMarker(Code(r, 0))
    requires IsCropInfo(r[4..4 + DC_CROP_INFO_BYTE_SIZE]) && 0 <= Code(r, 2) - 2 <= |r| - 4
    ensures var len := Code(r, 2) - 2; var o := Run(st, r, asWritten);
      o.ok && o.out == r[..4] + Zeros(len) + r[4 + len..] && |o.out| == |r| && o.st.phase == JpegData
  {
    var len := Code(r, 2) - 2;
    var s1 := st.(buf := r[..4], size := st.size + 2 + Code(r, 2), crop := Overlay(st.crop, 0, r[4..4 + Peeked(r)]),
                  toSkip := len, phase := JpegData);
    CropZeroHeader(st, r, asWritten, s1);
    ZerosThenRest(st, s1, r, asWritten, len);
  }

  /**
   * Another segment without the crop magic after its header: the header
   * is written and its payload of L bytes is copied; then the search goes
   * on (state `next`) with the next header.
   */
  lemma CropCopied(st: St, r: seq<byte>, asWritten: bool, next: St)
    requires Good(st) && st.phase == SkipCrop && st.pos == 0 && st.toSkip <= 0 && st.toCopy <= 0 && |r| >= 4
    requires !IsSofMarker(Code(r, 0)) && 0 <= Code(r, 2) - 2 <= |r| - 4
    requires !(Peeked(r) == DC_CROP_INFO_BYTE_SIZE && IsCropInfo(r[4..4 + Peeked(r)]))
    requires next == st.(buf := r[..4], size := st.size + 2 + Code(r, 2), crop := Overlay(st.crop, 0, r[4..4 + Peeked(r)]),
                         toCopy := 0)
    ensures Good(next) && Run(st, r, asWritten) == Then(r[..2 + Code(r, 2)], Run(next, r[2 + Code(r, 2)..], asWritten))
  {
    var len := Code(r, 2) - 2;
    var s1 := st.(buf := r[..4], size := st.size + 4, crop := Overlay(st.crop, 0, r[4..4 + Peeked(r)]), toCopy := len);
    CropCopyHeader(st, r, asWritten, s1);
    CopyPayload(s1, r[4..], asWritten, len, next);
    HeaderThenPayload(Run(st, r, asWritten), Run(s1, r[4..], asWritten), Run(next, r[4..][len..], asWritten), r, len);
  }

  // ---- the end-of-image check ----

  /** The frame header state collects EOI into a buffer whose bytes 2 and 3, left from an earlier header, are not EOI. */
  lemma StaleEoiStep(st: St, r: seq<byte>, hdr: St, next: St)
    requires Good(st) && st.phase == FrameHeader && st.pos == 0 && r == EOI && st.buf[2..4] != EOI
    requires hdr == st.(buf := EOI + st.buf[2..4], pos := 4) && MpoWrite(hdr).Wrote?
    requires next == MpoWrite(hdr).st.(pos := 0, phase := if st.skipCrop then SkipCrop else JpegData)
    ensures Switch(st, r, true) == Next(next, 0, MpoWrite(hdr).out)
  {
    assert Overlay(st.buf, 0, r[..2]) == EOI + st.buf[2..4];
    assert (EOI + st.buf[2..4])[2..4] == st.buf[2..4];
    assert st.(buf := EOI + st.buf[2..4], pos := 4, size := st.size + 0) == hdr;
    assert Code(hdr.buf, 0) == 0xFFD9;
  }

  /**
   * As written, an image that ends right after its APP0/APP1 segments,
   * without a frame, is not seen to end: the check reads the stale bytes
   * 2 and 3 of the buffer instead of the EOI just collected, so EOI is
   * taken for a marker, the APP2 segment is written in front of it, and
   * EOI is copied as image data.
   */
  lemma StaleEoiCheck(st: St, r: seq<byte>, hdr: St)
    requires Good(st) && st.phase == FrameHeader && st.pos == 0 && st.toSkip <= 0 && st.toCopy <= 0
    requires r == EOI && st.buf[2..4] != EOI && !st.skipCrop
    requires hdr == st.(buf := EOI + st.buf[2..4], pos := 4) && MpoWrite(hdr).Wrote?
    ensures var o := Run(st, r, true); o.ok && o.out == MpoWrite(hdr).out + EOI && o.st.phase == JpegData
  {
    var next := MpoWrite(hdr).st.(pos := 0, phase := JpegData);
    StaleEoiStep(st, r, hdr, next);
    StepThenRun(st, r, true, next, 0, MpoWrite(hdr).out);
    JpegDataCopied(next, r[0..], true);
  }

  /** The check as intended: EOI collected where a header is expected is written, and the call returns. */
  lemma EoiStep(st: St, r: seq<byte>)
    requires Good(st) && (st.phase == FrameHeader || st.phase == SkipCrop) && st.pos == 0 && r == EOI
    ensures Switch(st, r, false) == Halt(st.(buf := EOI + st.buf[2..4], size := st.size + 2), EOI)
  {
    assert Overlay(st.buf, 0, r[..2]) == EOI + st.buf[2..4];
    assert (EOI + st.buf[2..4])[..2] == EOI;
  }

  /** With nothing pending, a step that returns ends the call. */
  lemma StepHalts(st: St, r: seq<byte>, asWritten: bool, s: St, e: seq<byte>)
    requires Good(st) && st.phase != JpegData && st.toSkip <= 0 && st.toCopy <= 0 && |r| > 0
    requires Switch(st, r, asWritten) == Halt(s, e)
    ensures Run(st, r, asWritten) == Outcome(true, s, e)
  {
    NothingPending(st, r, asWritten);
  }

  /**
   * The check as intended: EOI where a marker header is expected is
   * copied, nothing else is written, the buffer is back at position 0 and
   * the phase is unchanged.
   */
  lemma EoiEnds(st: St, r: seq<byte>)
    requires Good(st) && (st.phase == FrameHeader || st.phase == SkipCrop) && st.pos == 0 && st.toSkip <= 0 && st.toCopy <= 0
    requires r == EOI
    ensures Run(st, r, false) == Outcome(true, st.(buf := EOI + st.buf[2..4], size := st.size + 2), EOI)
  {
    EoiStep(st, r);
    StepHalts(st, r, false, st.(buf := EOI + st.buf[2..4], size := st.size + 2), EOI);
  }

  /**
   * A stream at the start of an image, with MP data whose IFDs are both
   * empty, whose header buffer does not end in EOI (a new stream's buffer
   * is all zeros), not in skip-crop mode.
   */
  ghost predicate EmptyAtSoi(st: St) {
    Good(st) && st.phase == Soi && st.pos == 0 && st.toSkip <= 0 && st.toCopy <= 0
    && st.buf[2..4] != EOI && !st.skipCrop && st.hasMpo && st.img == Image([], 0, [], 0, true, [])
  }

  /** For an image whose IFDs are empty, the segment is the 14-byte head and length, then an empty next-IFD offset. */
  lemma EmptySegment(hdr: St)
    requires hdr.hasMpo && hdr.img == Image([], 0, [], 0, true, [])
    ensures MpoWrite(hdr).Wrote? && MpoWrite(hdr).out == SegmentHead(14, true) + PutInt(0, true)
  {
    var img := LaidOut(hdr.img);
    assert ExifSize(hdr.img) == 14 && img.bigEndian;
    assert MpoWrite(hdr) == Checked(hdr.(img := img), 14);
    CheckedEmits(hdr.(img := img), 14, HeaderPosition(hdr));
  }

  /** Output written before an outcome whose output is known. */
  lemma ThenOut(x: Outcome, a: seq<byte>, y: Outcome, b: seq<byte>)
    requires x == Then(a, y) && y.out == b
    ensures x.out == a + b
  {
  }

  /**
   * The 4-byte image SOI EOI, as written: the segment (16 bytes) is put
   * between SOI and EOI.
   */
  lemma SoiEoiAsWritten(st: St, r: seq<byte>)
    requires EmptyAtSoi(st) && r == SOI + EOI
    ensures Run(st, r, true).out == SOI + SegmentHead(14, true) + PutInt(0, true) + EOI
  {
    var s1 := SoiThenHeader(st, r);
    var hdr := s1.(buf := EOI + s1.buf[2..4], pos := 4);
    EmptySegment(hdr);
    StaleEoiCheck(s1, EOI, hdr);
    ThenOut(Run(st, r, true), SOI, Run(s1, EOI, true), SegmentHead(14, true) + PutInt(0, true) + EOI);
    Concat3(SOI, SegmentHead(14, true) + PutInt(0, true), EOI);
  }

  /** The same image with the check as intended: it is copied as it is. */
  lemma SoiEoiIntended(st: St, r: seq<byte>)
    requires EmptyAtSoi(st) && r == SOI + EOI
    ensures Run(st, r, false).out == r
  {
    var s1 := SoiThenHeader(st, r);
    EoiEnds(s1, EOI);
    ThenOut(Run(st, r, false), SOI, Run(s1, EOI, false), EOI);
  }

  /** SOI EOI: SOI is copied, and the frame header state s1 gets EOI, with the buffer's stale bytes 2 and 3 kept. */
  lemma SoiThenHeader(st: St, r: seq<byte>) returns (s1: St)
    requires EmptyAtSoi(st) && r == SOI + EOI
    ensures Good(s1) && s1.phase == FrameHeader && s1.pos == 0 && s1.toSkip <= 0 && s1.toCopy <= 0
    ensures s1.buf[2..4] == st.buf[2..4] && !s1.skipCrop && s1.hasMpo && s1.img == st.img
    ensures Run(st, r, true) == Then(SOI, Run(s1, EOI, true))
    ensures Run(st, r, false) == Then(SOI, Run(s1, EOI, false))
  {
    assert r[..2] == SOI && r[2..] == EOI;
    s1 := st.(buf := Overlay(st.buf, 0, r[..2]), phase := FrameHeader, size := st.size + 2);
    OverlayRest(st.buf, 0, r[..2]);
    SoiCopied(st, r, true, s1);
    SoiCopied(st, r, false, s1);
  }
}
