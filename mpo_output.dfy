// MpoOutputStream as an object (src/com/android/camera/mpo/MpoOutputStream.java):
// its fields, the `write` loop and the methods it calls, each proved to do
// what the state machine of MpoStream says. The underlying OutputStream is an
// append-only byte sequence `out`; flushing is not modelled.
module MpoOutput {
  import opened Bytes
  import opened MpoTag
  import opened MpoIfd
  import opened MpoImage
  import opened MpoIfdBytes
  import opened MpoStream

  /** How a state's case of the `switch` ended: return from `write`, an exception, or on with the loop after `used` bytes. */
  datatype Ctl = Returned | Raised | Continue(used: nat)

  function CtlOf(s: Step): Ctl {
    match s
    case Halt(_, _) => Returned
    case Fail(_, _) => Raised
    case Next(_, n, _) => Continue(n)
  }

  /** How one pass of the loop of `write` ends: the call ends (normally or by an exception), or the loop goes on at `next`. */
  datatype PassEnd = Done(ok: bool) | Again(next: nat)

  /** The image a fresh stream has before any is set (`mCurrentImageData` is null). */
  const NO_IMAGE: Image := Image([], 0, [], 0, true, [])

  /** `isDualCamCropInfo`: the crop buffer is full and holds the magic string. */
  method IsDualCamCropInfo(cropInfo: seq<byte>, position: nat) returns (b: bool)
    requires |cropInfo| == DC_CROP_INFO_BYTE_SIZE
    ensures b == (position == DC_CROP_INFO_BYTE_SIZE && IsCropInfo(cropInfo))
  {
    if position != DC_CROP_INFO_BYTE_SIZE {
      return false;
    }
    for i := 0 to |DC_CROP_INFO|
      invariant forall j :: 0 <= j < i ==> cropInfo[j] == DC_CROP_INFO[j] as int
    {
      if DC_CROP_INFO[i] as int != cropInfo[i] {
        return false;
      }
    }
    return true;
  }

  /**
   * `updateIndexIfdOffsets`: read the MP Entry list, take the MP header's
   * position off every offset after the first, and put the list back.
   */
  method UpdateIndexIfdOffsets(index: seq<Tag>, mpoOffset: int) returns (r: Option<seq<Tag>>)
    ensures r == ShiftedIndex(index, mpoOffset)
  {
    var found := Find(index, TAG_MP_ENTRY);
    if found.None? {
      return None;
    }
    var tag := found.value;
    var value := GetMpEntryValue(tag);
    if !value.Entries? {
      return None;
    }
    var entries := value.entries;
    ghost var before := entries;
    var i := 1;
    while i < |entries|
      invariant |entries| == |before| && 1 <= i
      invariant forall j :: 0 <= j < |entries| ==> ValidEntry(entries[j])
      invariant forall j :: 0 <= j < |entries| ==> entries[j] == if 1 <= j < i then Shifted(before[j], mpoOffset) else before[j]
    {
      entries := entries[i := Shifted(entries[i], mpoOffset)];
      i := i + 1;
    }
    assert entries == ShiftOffsets(before, mpoOffset);
    var updated := SetEntries(tag, entries);
    r := Some(PutTag(index, updated.value));
  }

  /** `writeAllTags`: the index IFD with its offsets shifted, when it has tags, then the attribute IFD when it has tags. */
  method WriteAllTags(img: Image, mpoStart: int) returns (t: AllTagsResult)
    ensures t == AllTags(img, mpoStart)
  {
    var index := img.index;
    var bytes: seq<byte> := [];
    if |index| > 0 {
      var shifted := UpdateIndexIfdOffsets(index, mpoStart);
      if shifted.None? {
        return AllTagsResult(None, []);
      }
      index := shifted.value;
      bytes := WriteIfd(index, img.indexNext, img.bigEndian);
    }
    if |img.attrib| > 0 {
      var ifd := WriteIfd(img.attrib, img.attribNext, img.bigEndian);
      bytes := bytes + ifd;
    }
    return AllTagsResult(Some(index), bytes);
  }

  class MpoOutputStream {
    var state: Phase
    var byteToSkip: int
    var byteToCopy: int
    var buffer: seq<byte>
    var bufferPos: nat
    var cropInfo: seq<byte>
    var mpoOffsetStart: int
    var size: int
    var skipCropData: bool
    var mpoData: Option<MpoFile>
    var current: Image
    /** The bytes written to the underlying stream. */
    var out: seq<byte>

    /** The fields as a state of the machine. */
    function State(): St
      reads this
    {
      St(state, byteToSkip, byteToCopy, buffer, bufferPos, cropInfo, mpoOffsetStart, size, skipCropData,
         mpoData.Some?, current)
    }

    ghost predicate Valid()
      reads this
    {
      Good(State())
    }

    constructor ()
      ensures Valid() && out == [] && mpoData == None
      ensures State() == St(Soi, 0, 0, Zeros(4), 0, Zeros(DC_CROP_INFO_BYTE_SIZE), -1, 0, false, false, NO_IMAGE)
    {
      state, byteToSkip, byteToCopy := Soi, 0, 0;
      buffer, bufferPos := Zeros(4), 0;
      cropInfo := Zeros(DC_CROP_INFO_BYTE_SIZE);
      mpoOffsetStart, size, skipCropData := -1, 0, false;
      mpoData, current, out := None, NO_IMAGE, [];
    }

    /** `setMpoData`, given the images with their tags already updated. */
    method SetMpoData(f: MpoFile)
      modifies this
      ensures mpoData == Some(f) && State() == old(State()).(hasMpo := true) && out == old(out)
    {
      mpoData := Some(f);
    }

    /** Puts the fields to a state having this stream's `hasMpo`. */
    method SetSt(s: St)
      requires s.hasMpo == mpoData.Some?
      modifies this
      ensures State() == s && out == old(out) && mpoData == old(mpoData)
    {
      state, byteToSkip, byteToCopy := s.phase, s.toSkip, s.toCopy;
      buffer, bufferPos, cropInfo := s.buf, s.pos, s.crop;
      mpoOffsetStart, size, skipCropData, current := s.mpoStart, s.size, s.skipCrop, s.img;
    }

    /** `writeMpoData`. */
    method WriteMpoData() returns (ok: bool)
      modifies this
      ensures var w := MpoWrite(old(State())); ok == w.Wrote? && State() == w.st && out == old(out) + w.out
      ensures mpoData == old(mpoData)
    {
      assert old(out) + [] == old(out);
      if mpoData.None? {
        return true;
      }
      var exifSize := ExifSize(current);
      current := LaidOut(current);
      ok := CheckedWrite(exifSize);
    }

    /** `writeMpoData` after the layout. */
    method CheckedWrite(exifSize: int) returns (ok: bool)
      modifies this
      ensures var w := Checked(old(State()), exifSize); ok == w.Wrote? && State() == w.st && out == old(out) + w.out
      ensures mpoData == old(mpoData)
    {
      assert old(out) + [] == old(out);
      if exifSize > MAX_EXIF_SIZE {
        return false;
      }
      var w := PutShortBE(Int16(APP2)) + PutShortBE(Int16(exifSize)) + PutIntBE(MP_FORMAT_IDENTIFIER);
      var start := if mpoOffsetStart == -1 then size + |w| else mpoOffsetStart;
      CheckedEmits(State(), exifSize, start);
      ok := EmitSegment(w, exifSize, start);
    }

    /** Writes the segment whose MP header sits at `start` in the output. */
    method EmitSegment(w: seq<byte>, exifSize: int, start: int) returns (ok: bool)
      requires w == PutShortBE(Int16(APP2)) + PutShortBE(Int16(exifSize)) + PutIntBE(MP_FORMAT_IDENTIFIER)
      modifies this
      ensures var e := Emit(old(State()).(mpoStart := start), exifSize); ok == e.Wrote? && State() == e.st && out == old(out) + e.out
      ensures mpoData == old(mpoData)
    {
      var head := w + PutShortBE(if current.bigEndian then TIFF_BIG_ENDIAN else TIFF_LITTLE_ENDIAN)
        + PutShort(TIFF_HEADER, current.bigEndian);
      assert head == SegmentHead(exifSize, current.bigEndian);
      if exifSize > MP_HEADER_SIZE + APP_HEADER_SIZE {
        ok := EmitTags(head + PutInt(OFFSET_TO_FIRST_IFD, current.bigEndian), start);
      } else {
        var seg := head + PutInt(0, current.bigEndian);
        out, size, mpoOffsetStart := out + seg, size + |seg|, start;
        ok := true;
      }
    }

    /** The segment with the offset of the first IFD and the IFDs themselves. */
    method EmitTags(first: seq<byte>, start: int) returns (ok: bool)
      modifies this
      ensures var e := WithTags(old(State()).(mpoStart := start), first); ok == e.Wrote? && State() == e.st && out == old(out) + e.out
      ensures mpoData == old(mpoData)
    {
      var t := WriteAllTags(current, start);
      if t.index.None? {
        out, mpoOffsetStart := out + first, start;
        return false;
      }
      Commit(first + t.bytes, t.index.value, start);
      return true;
    }

    /** Writes `seg`, keeping the shifted MP index in the current image. */
    method Commit(seg: seq<byte>, index: seq<Tag>, start: int)
      modifies this
      ensures State() == old(State()).(img := old(current).(index := index), size := old(size) + |seg|, mpoStart := start)
      ensures out == old(out) + seg && mpoData == old(mpoData)
    {
      out, size, current, mpoOffsetStart := out + seg, size + |seg|, current.(index := index), start;
    }

    /** The STATE_SOI case. */
    method SoiState(r: seq<byte>) returns (c: Ctl)
      requires Valid() && state == Soi && |r| > 0
      modifies this
      ensures var s := SoiStep(old(State()), r); c == CtlOf(s) && State() == s.st && out == old(out) + s.out
      ensures mpoData == old(mpoData)
    {
      var n := Take(bufferPos, 2, |r|);
      buffer := Overlay(buffer, bufferPos, r[..n]);
      bufferPos := bufferPos + n;
      if bufferPos < 2 {
        return Returned;
      }
      if buffer[..2] != SOI {
        return Raised;
      }
      out := out + buffer[..2];
      size := size + 2;
      state := FrameHeader;
      bufferPos := 0;
      return Continue(n);
    }

    /**
     * `requestByteToBuffer` for a marker header, then the end-of-image check
     * on the two bytes collected; returns how many bytes were taken.
     */
    method CollectHeader(r: seq<byte>) returns (n: nat)
      requires Valid() && |r| > 0
      modifies this
      ensures var c := Collect(old(State()), r, false); n == c.used && State() == c.st && out == old(out) + c.out
      ensures mpoData == old(mpoData)
    {
      n := Take(bufferPos, 4, |r|);
      buffer := Overlay(buffer, bufferPos, r[..n]);
      bufferPos := bufferPos + n;
      if bufferPos == 2 && buffer[..2] == EOI {
        out := out + buffer[..2];
        size := size + 2;
        bufferPos := 0;
      }
    }

    /** The STATE_FRAME_HEADER case once the header is full. */
    method Marker(n: nat) returns (c: Ctl)
      requires |buffer| == 4 && bufferPos == 4 && |cropInfo| == DC_CROP_INFO_BYTE_SIZE && 0 < n
      modifies this
      ensures var s := MarkerStep(old(State()), n); c == CtlOf(s) && State() == s.st && out == old(out) + s.out
      ensures mpoData == old(mpoData)
    {
      var marker := Code(buffer, 0);
      if marker == APP1 || marker == APP0 {
        out := out + buffer;
        size := size + 4;
        byteToCopy := Code(buffer, 2) - 2;
        bufferPos := 0;
        return Continue(n);
      }
      var ok := WriteMpoData();
      if !ok {
        return Raised;
      }
      state := if skipCropData then SkipCrop else JpegData;
      bufferPos := 0;
      return Continue(0);
    }

    /** The STATE_FRAME_HEADER case, with the end-of-image check on the two bytes collected. */
    method HeaderState(r: seq<byte>) returns (c: Ctl)
      requires Valid() && state == FrameHeader && |r| > 0
      modifies this
      ensures var s := HeaderStep(old(State()), r, false); c == CtlOf(s) && State() == s.st && out == old(out) + s.out
      ensures mpoData == old(mpoData)
    {
      ghost var s0 := State();
      var n := CollectHeader(r);
      ghost var col := Collect(s0, r, false);
      assert State() == col.st;
      if bufferPos < 4 {
        assert HeaderStep(s0, r, false) == Halt(col.st, col.out);
        return Returned;
      }
      assert col.out == [] && out == old(out);
      assert HeaderStep(s0, r, false) == MarkerStep(col.st, n);
      c := Marker(n);
    }

    /** The STATE_SKIP_CROP case once the header is full and taken; `rest` is the input after it. */
    method Crop(rest: seq<byte>, n: nat) returns (c: Ctl)
      requires |buffer| == 4 && bufferPos == 4 && |cropInfo| == DC_CROP_INFO_BYTE_SIZE
      modifies this
      ensures var s := CropStep(old(State()), rest, n); c == CtlOf(s) && State() == s.st && out == old(out) + s.out
      ensures mpoData == old(mpoData)
    {
      bufferPos := 0;
      var marker := Code(buffer, 0);
      if IsSofMarker(marker) {
        out := out + buffer;
        size := size + 4;
        state := JpegData;
        return Continue(n);
      }
      var m := Take(0, DC_CROP_INFO_BYTE_SIZE, |rest|);
      cropInfo := Overlay(cropInfo, 0, rest[..m]);
      var isCrop := IsDualCamCropInfo(cropInfo, m);
      out := out + buffer;
      size := size + 4;
      if m == DC_CROP_INFO_BYTE_SIZE {
        assert cropInfo == rest[..m];
      }
      if isCrop {
        var sizeToClear := Code(buffer, 2) - 2;
        byteToSkip := sizeToClear;
        WriteZeros(sizeToClear);
        state := JpegData;
      } else {
        byteToCopy := Code(buffer, 2) - 2;
      }
      return Continue(n);
    }

    /** The loop of the crop case: `count` zero bytes, none when it is not positive. */
    method WriteZeros(count: int)
      modifies this
      ensures State() == old(State()).(size := old(size) + |out| - |old(out)|)
      ensures out == old(out) + Zeros(if count > 0 then count else 0) && mpoData == old(mpoData)
    {
      var sizeToClear := count;
      ghost var total := if count > 0 then count else 0;
      while sizeToClear > 0
        invariant 0 <= total - (if sizeToClear > 0 then sizeToClear else 0) <= total
        invariant out == old(out) + Zeros(total - (if sizeToClear > 0 then sizeToClear else 0))
        invariant State() == old(State()).(size := old(size) + |out| - |old(out)|) && mpoData == old(mpoData)
      {
        assert Zeros(total - sizeToClear) + [0] == Zeros(total - sizeToClear + 1);
        out := out + [0];
        size := size + 1;
        sizeToClear := sizeToClear - 1;
      }
    }

    /** The STATE_SKIP_CROP case. */
    method SkipCropState(r: seq<byte>) returns (c: Ctl)
      requires Valid() && state == SkipCrop && |r| > 0
      modifies this
      ensures var s := SkipCropStep(old(State()), r, false); c == CtlOf(s) && State() == s.st && out == old(out) + s.out
      ensures mpoData == old(mpoData)
    {
      ghost var s0 := State();
      var n := CollectHeader(r);
      ghost var col := Collect(s0, r, false);
      assert State() == col.st;
      if bufferPos < 4 {
        return Returned;
      }
      assert col.out == [] && out == old(out);
      assert SkipCropStep(s0, r, false) == CropStep(col.st, r[n..], n);
      c := Crop(r[n..], n);
    }

    /** The `switch` of `write`: the case of the current state. */
    method SwitchState(r: seq<byte>) returns (c: Ctl)
      requires Valid() && state != JpegData && |r| > 0
      modifies this
      ensures var s := Switch(old(State()), r, false); c == CtlOf(s) && State() == s.st && out == old(out) + s.out
      ensures mpoData == old(mpoData)
    {
      match state
      case Soi => c := SoiState(r);
      case FrameHeader => c := HeaderState(r);
      case SkipCrop => c := SkipCropState(r);
    }

    /** The head of the loop of `write`: skip, then copy, what is pending; returns the new offset. */
    method DrainPending(data: seq<byte>, offset: nat) returns (next: nat)
      requires Valid() && offset <= |data|
      modifies this
      ensures var p := Drain(old(State()), data[offset..]);
        State() == p.st && out == old(out) + p.copied && next == offset + p.used
      ensures mpoData == old(mpoData)
    {
      var length := |data| - offset;
      var k := if byteToSkip > 0 then Take(0, byteToSkip, length) else 0;
      var c := if byteToCopy > 0 then Take(0, byteToCopy, length - k) else 0;
      assert data[offset + k..offset + k + c] == data[offset..][k..k + c];
      byteToSkip, byteToCopy := byteToSkip - k, byteToCopy - c;
      out, size := out + data[offset + k..offset + k + c], size + c;
      next := offset + k + c;
    }

    /** The rest of a pass once nothing is pending, from `next`; `delta` is what it wrote. */
    method StepPass(data: seq<byte>, next: nat) returns (r: PassEnd, ghost delta: seq<byte>)
      requires Valid() && next <= |data| && (next < |data| ==> byteToSkip <= 0 && byteToCopy <= 0)
      modifies this
      ensures out == old(out) + delta && mpoData == old(mpoData)
      ensures var o := Stepped(old(State()), data[next..], false);
        (r.Done? ==> o == Outcome(r.ok, State(), delta))
        && (r.Again? ==> Valid() && next <= r.next <= |data| && o == Then(delta, Run(State(), data[r.next..], false)))
      ensures r.Again? ==> r.next > next || Rank(state) < Rank(old(state)) || old(state) == JpegData
    {
      if next == |data| {
        assert old(out) + [] == old(out);
        return Done(true), [];
      }
      if state == JpegData {
        assert old(out) + [] == old(out) && Then([], Run(State(), data[next..], false)) == Run(State(), data[next..], false);
        return Again(next), [];
      }
      r, delta := SwitchPass(data, next);
    }

    /** The phase's step in a pass, from `next`; `delta` is what it wrote. */
    method SwitchPass(data: seq<byte>, next: nat) returns (r: PassEnd, ghost delta: seq<byte>)
      requires Valid() && next < |data| && byteToSkip <= 0 && byteToCopy <= 0 && state != JpegData
      modifies this
      ensures out == old(out) + delta && mpoData == old(mpoData)
      ensures var o := Stepped(old(State()), data[next..], false);
        (r.Done? ==> o == Outcome(r.ok, State(), delta))
        && (r.Again? ==> Valid() && next <= r.next <= |data| && o == Then(delta, Run(State(), data[r.next..], false)))
      ensures r.Again? ==> r.next > next || Rank(state) < Rank(old(state))
    {
      ghost var s := Switch(State(), data[next..], false);
      SteppedBySwitch(State(), data[next..], false, s);
      var c := SwitchState(data[next..]);
      delta := s.out;
      match c
      case Returned =>
        r := Done(true);
      case Raised =>
        r := Done(false);
      case Continue(n) =>
        assert s.Next? && s.used == n && s.st == State();
        assert data[next..][n..] == data[next + n..];
        assert Stepped(old(State()), data[next..], false) == Then(delta, Run(State(), data[next + n..], false));
        r := Again(next + n);
        assert data[r.next..] == data[next + n..];
    }

    /**
     * A pass of the loop of `write` seen against the whole call: `o0` is the
     * call's outcome, of which `written` has been written after `base`.
     */
    method Iterate(data: seq<byte>, offset: nat, ghost o0: Outcome, ghost base: seq<byte>, ghost written: seq<byte>)
      returns (r: PassEnd, ghost written1: seq<byte>)
      requires Valid() && offset <= |data| && Busy(State(), data[offset..])
      requires out == base + written && o0 == Then(written, Run(State(), data[offset..], false))
      modifies this
      ensures out == base + written1 && mpoData == old(mpoData)
      ensures r.Done? ==> o0 == Outcome(r.ok, State(), written1)
      ensures r.Again? ==> Valid() && offset <= r.next <= |data| && o0 == Then(written1, Run(State(), data[r.next..], false))
      ensures r.Again? ==> r.next > offset || Rank(state) < Rank(old(state))
    {
      ghost var p := Drain(State(), data[offset..]);
      var next := DrainPending(data, offset);
      assert data[next..] == data[offset..][p.used..];
      ghost var d;
      r, d := StepPass(data, next);
      Concat3(base, written, p.copied);
      Concat3(base, written + p.copied, d);
      written1 := written + p.copied + d;
      ThenThen(written, p.copied, Stepped(p.st, data[next..], false));
      if r.Again? {
        ThenThen(written + p.copied, d, Run(State(), data[r.next..], false));
      }
    }

    /**
     * `write(buffer, offset, length)`: the loop runs while bytes remain and
     * something is pending or the image data has not been reached; what is
     * left after it is copied.
     */
    method Write(data: seq<byte>) returns (ok: bool)
      requires Valid()
      modifies this
      ensures var o := Run(old(State()), data, false); ok == o.ok && State() == o.st && out == old(out) + o.out
      ensures mpoData == old(mpoData)
    {
      ghost var o0 := Run(State(), data, false);
      ghost var written: seq<byte> := [];
      assert out == old(out) + written;
      var offset := 0;
      while (byteToSkip > 0 || byteToCopy > 0 || state != JpegData) && offset < |data|
        invariant Valid() && mpoData == old(mpoData) && offset <= |data|
        invariant out == old(out) + written && o0 == Then(written, Run(State(), data[offset..], false))
        decreases |data| - offset, Rank(state)
      {
        var r;
        r, written := Iterate(data, offset, o0, old(out), written);
        match r
        case Done(b) =>
          return b;
        case Again(next) =>
          offset := next;
      }
      ghost var rest := Run(State(), data[offset..], false);
      if offset < |data| {
        assert rest == Outcome(true, State().(size := size + |data[offset..]|), data[offset..]);
        Concat3(old(out), written, data[offset..]);
        out, size := out + data[offset..], size + (|data| - offset);
      } else {
        assert data[offset..] == [] && written + [] == written;
        assert rest == Outcome(true, State(), []);
      }
      return true;
    }

    /** The start of `writeMpoFile`: the primary image becomes current, with skip-crop mode when there are several auxiliary images. */
    method StartPrimary(f: MpoFile)
      modifies this
      ensures State() == old(State()).(img := f.primary, skipCrop := if |f.aux| > 1 then true else old(skipCropData))
      ensures out == old(out) && mpoData == old(mpoData)
    {
      current, skipCropData := f.primary, if |f.aux| > 1 then true else skipCropData;
    }

    /** `resetStates`, then the auxiliary image `img` becomes current. */
    method StartAux(img: Image)
      modifies this
      ensures State() == Reset(old(State())).(img := img)
      ensures out == old(out) && mpoData == old(mpoData)
    {
      state, byteToSkip, byteToCopy, bufferPos, current := Soi, 0, 0, 0, img;
    }

    /** Writes auxiliary image `k` after `resetStates`. */
    method WriteAux(aux: seq<Image>, k: nat) returns (ok: bool)
      requires Valid() && k < |aux|
      modifies this
      ensures var o := Run(Reset(old(State())).(img := aux[k]), aux[k].jpeg, false);
        ok == o.ok && State() == o.st && out == old(out) + o.out
      ensures mpoData == old(mpoData)
    {
      StartAux(aux[k]);
      ok := Write(aux[k].jpeg);
    }

    /** The auxiliary-image loop of `writeMpoFile`, stopping at the first exception. */
    method WriteAuxImages(aux: seq<Image>) returns (ok: bool)
      requires Valid()
      modifies this
      ensures var o := AuxRuns(old(State()), aux, |aux|);
        ok == o.ok && State() == o.st && out == old(out) + o.out
      ensures mpoData == old(mpoData)
    {
      ghost var s1 := State();
      ghost var base := out;
      ghost var written: seq<byte> := [];
      assert base + [] == base;
      var k := 0;
      while k < |aux|
        invariant Valid() && mpoData == old(mpoData) && k <= |aux|
        invariant AuxRuns(s1, aux, k) == Outcome(true, State(), written) && out == base + written
      {
        ghost var w := Run(Reset(State()).(img := aux[k]), aux[k].jpeg, false);
        var b := WriteAux(aux, k);
        Concat3(base, written, w.out);
        written := written + w.out;
        if !b {
          AuxStops(s1, aux, k + 1, |aux|);
          return false;
        }
        k := k + 1;
      }
      ok := true;
    }

    /**
     * `writeMpoFile`: the MPO data must be set (the source dereferences it);
     * the primary image, then every auxiliary image, stopping at the first
     * exception.
     */
    method WriteMpoFile() returns (ok: bool)
      requires Valid()
      modifies this
      ensures old(mpoData).None? ==> !ok && State() == old(State()) && out == old(out)
      ensures old(mpoData).Some? ==> var o := WriteFile(old(State()), old(mpoData).value);
        ok == o.ok && State() == o.st && out == old(out) + o.out
      ensures mpoData == old(mpoData)
    {
      if mpoData.None? {
        return false;
      }
      var f := mpoData.value;
      StartPrimary(f);
      ghost var p := Run(State(), f.primary.jpeg, false);
      ok := Write(f.primary.jpeg);
      if !ok {
        return;
      }
      skipCropData := false;
      ghost var a := AuxRuns(State(), f.aux, |f.aux|);
      ok := WriteAuxImages(f.aux);
      Concat3(old(out), p.out, a.out);
    }
  }
}
