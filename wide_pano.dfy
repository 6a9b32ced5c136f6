// The wide-angle panorama module (src/com/android/camera/WideAnglePanoramaModule.java):
// the choice of the preview size closest to 960x720 with its fallbacks, the
// capture state, the EXIF orientation of the finished panorama and the size
// trailer the mosaic library appends to its NV21 result.
module WidePano {
  import opened Bytes
  import opened Arith

  /** `DEFAULT_CAPTURE_PIXELS`: the preview area aimed for, 960 x 720. */
  const DEFAULT_CAPTURE_PIXELS: int := 960 * 720

  const STATUS_PREVIEW: int := 1
  const STATUS_PREPARE: int := 2
  const STATUS_CAPTURING: int := 3
  const STATUS_SUCCESS: int := 4
  const STATUS_FAILED: int := 6

  datatype Size = Size(width: int, height: int)

  /** `findBestPreviewSize`'s filters: no larger than 960x720 when needSmaller, exactly 4:3 when need4To3. */
  predicate Passes(s: Size, need4To3: bool, needSmaller: bool) {
    !(needSmaller && DEFAULT_CAPTURE_PIXELS - s.height * s.width < 0)
    && !(need4To3 && s.height * 4 != s.width * 3)
  }

  /** How far a size's area is from 960x720. */
  function Diff(s: Size): (d: int)
    ensures d >= 0
  {
    var d := DEFAULT_CAPTURE_PIXELS - s.height * s.width;
    if d < 0 then -d else d
  }

  /** A size the search can pick: it passes the filters and is nearer than 960x720 pixels away. */
  predicate Candidate(s: Size, need4To3: bool, needSmaller: bool) {
    Passes(s, need4To3, needSmaller) && Diff(s) < DEFAULT_CAPTURE_PIXELS
  }

  predicate HasCandidate(sizes: seq<Size>, need4To3: bool, needSmaller: bool) {
    exists j :: 0 <= j < |sizes| && Candidate(sizes[j], need4To3, needSmaller)
  }

  /**
   * Index b is the search's choice among the first n sizes: a candidate,
   * no passing size among them is nearer, and every passing size before it
   * is strictly farther.
   */
  predicate BestAmong(sizes: seq<Size>, b: int, n: int, need4To3: bool, needSmaller: bool)
    requires 0 <= n <= |sizes|
  {
    0 <= b < n && Candidate(sizes[b], need4To3, needSmaller)
    && (forall j :: 0 <= j < n && Passes(sizes[j], need4To3, needSmaller) ==> Diff(sizes[j]) >= Diff(sizes[b]))
    && (forall j :: 0 <= j < b && Passes(sizes[j], need4To3, needSmaller) ==> Diff(sizes[j]) > Diff(sizes[b]))
  }

  /** The choice is unique. */
  lemma BestUnique(sizes: seq<Size>, b1: int, b2: int, need4To3: bool, needSmaller: bool)
    requires BestAmong(sizes, b1, |sizes|, need4To3, needSmaller)
    requires BestAmong(sizes, b2, |sizes|, need4To3, needSmaller)
    ensures b1 == b2
  {
  }

  /** A chosen size honours the filters it was searched with. */
  lemma BestHonoursFilters(sizes: seq<Size>, b: int, need4To3: bool, needSmaller: bool)
    requires BestAmong(sizes, b, |sizes|, need4To3, needSmaller)
    ensures needSmaller ==> sizes[b].width * sizes[b].height <= DEFAULT_CAPTURE_PIXELS
    ensures need4To3 ==> sizes[b].height * 4 == sizes[b].width * 3
    ensures sizes[b].width * sizes[b].height != 0
  {
  }

  /**
   * `getCaptureOrientation`: device plus camera orientation for the back
   * camera, device minus camera minus 360 for the front one, each by Java's
   * `%`, which keeps the sign of the dividend.
   */
  function CaptureOrientation(front: bool, device: int, camera: int): int {
    if front then JavaRem(device - camera - 360, 360) else JavaRem(device + camera, 360)
  }

  /**
   * For orientations in [0, 360) the back camera's result lies in [0, 360)
   * and the front camera's in (-360, 0]; each is the intended angle modulo 360.
   */
  lemma CaptureOrientationRange(front: bool, device: int, camera: int)
    requires 0 <= device < 360 && 0 <= camera < 360
    ensures var o := CaptureOrientation(front, device, camera);
      (!front ==> 0 <= o < 360 && (o - (device + camera)) % 360 == 0)
      && (front ==> -360 < o <= 0 && (o - (device - camera)) % 360 == 0)
  {
    if front {
      var a := device - camera - 360;
      assert a == JavaDiv(a, 360) * 360 + JavaRem(a, 360);
      assert JavaRem(a, 360) - (device - camera) == 360 * -(JavaDiv(a, 360) + 1);
      MulDiv(-(JavaDiv(a, 360) + 1), 360);
    } else {
      var a := device + camera;
      assert JavaRem(a, 360) - (device + camera) == 360 * -JavaDiv(a, 360);
      MulDiv(-JavaDiv(a, 360), 360);
    }
  }

  /** The front camera gives a negative angle for a device held upright and a camera mounted at 270. */
  lemma FrontOrientationNegative()
    ensures CaptureOrientation(true, 0, 270) == -270
  {
  }

  /** What the module makes of the mosaic library's result. */
  datatype MosaicOutcome = Thrown | CaptureFailed | Mosaic(width: int, height: int)

  /**
   * The size decode of `MSG_CAPTURE_SUCCESS`: width and height as
   * big-endian ints in the last 8 bytes (a shorter array throws); a zero
   * dimension takes the capture-failed path.
   */
  function DecodeMosaic(data: seq<byte>): (r: MosaicOutcome)
    ensures r.Thrown? <==> |data| < 8
    ensures r.Mosaic? ==> r.width == GetIntBE(data, |data| - 8) && r.height == GetIntBE(data, |data| - 4)
    ensures r.Mosaic? ==> r.width != 0 && r.height != 0
    ensures r.CaptureFailed? <==> |data| >= 8 && (GetIntBE(data, |data| - 8) == 0 || GetIntBE(data, |data| - 4) == 0)
  {
    if |data| < 8 then Thrown
    else
      var len := |data| - 8;
      var width := ShiftedSum(data, len);
      var height := ShiftedSum(data, len + 4);
      if width == 0 || height == 0 then CaptureFailed else Mosaic(width, height)
  }

  /** A Java byte's value: the sign-extended byte. */
  function SignedByte(b: byte): int {
    if b < 128 then b else b - 256
  }

  /** `(d[at] << 24) + ((d[at+1] & 0xFF) << 16) + ((d[at+2] & 0xFF) << 8) + (d[at+3] & 0xFF)`: the big-endian int. */
  function ShiftedSum(d: seq<byte>, at: nat): (v: int)
    requires at + 4 <= |d|
    ensures v == GetIntBE(d, at)
  {
    var v := SignedByte(d[at]) * 0x100_0000 + (d[at + 1] as int) * 0x1_0000 + (d[at + 2] as int) * 0x100 + d[at + 3];
    assert v == GetIntBE(d, at) by {
      var u := U32BE(d[at], d[at + 1], d[at + 2], d[at + 3]);
      if d[at] >= 128 {
        assert v == u - TWO32;
      }
      assert IsInt32(v);
      Int32Add(u, -TWO32 * (if d[at] >= 128 then 1 else 0));
    }
    v
  }

  /** The module's preview size and capture state. */
  class Module {
    var previewWidth: int
    var previewHeight: int
    var panoState: int
    var isCapturing: bool

    constructor ()
      ensures panoState == STATUS_PREVIEW && !isCapturing
    {
      previewWidth, previewHeight := 0, 0;
      panoState, isCapturing := STATUS_PREVIEW, false;
    }

    /**
     * `findBestPreviewSize`: true exactly when some size is a candidate; the
     * preview size is then the first size nearest 960x720, and is left as it
     * was otherwise.
     */
    method FindBestPreviewSize(sizes: seq<Size>, need4To3: bool, needSmaller: bool) returns (hasFound: bool)
      modifies this
      ensures panoState == old(panoState) && isCapturing == old(isCapturing)
      ensures hasFound <==> HasCandidate(sizes, need4To3, needSmaller)
      ensures hasFound ==> exists b :: (BestAmong(sizes, b, |sizes|, need4To3, needSmaller)
        && previewWidth == sizes[b].width && previewHeight == sizes[b].height)
      ensures !hasFound ==> previewWidth == old(previewWidth) && previewHeight == old(previewHeight)
    {
      var pixelsDiff := DEFAULT_CAPTURE_PIXELS;
      hasFound := false;
      var w, h := previewWidth, previewHeight;
      ghost var best := 0;
      for i := 0 to |sizes|
        invariant hasFound ==> (BestAmong(sizes, best, i, need4To3, needSmaller)
          && w == sizes[best].width && h == sizes[best].height && pixelsDiff == Diff(sizes[best]))
        invariant !hasFound ==> (pixelsDiff == DEFAULT_CAPTURE_PIXELS && w == old(previewWidth) && h == old(previewHeight)
          && forall j :: 0 <= j < i ==> !Candidate(sizes[j], need4To3, needSmaller))
      {
        var s := sizes[i];
        if !Passes(s, need4To3, needSmaller) {
          continue;
        }
        var d := Diff(s);
        if d < pixelsDiff {
          w, h := s.width, s.height;
          pixelsDiff := d;
          hasFound := true;
          best := i;
        }
      }
      previewWidth, previewHeight := w, h;
    }

    /**
     * The preview-size part of `setupCaptureParams`: the nearest 4:3 size no
     * larger than 960x720; failing that the nearest size no larger; failing
     * that the nearest size of all.
     */
    method SetupPreviewSize(sizes: seq<Size>)
      modifies this
      ensures panoState == old(panoState) && isCapturing == old(isCapturing)
      ensures HasCandidate(sizes, true, true) ==> exists b :: (BestAmong(sizes, b, |sizes|, true, true)
        && previewWidth == sizes[b].width && previewHeight == sizes[b].height)
      ensures !HasCandidate(sizes, true, true) && HasCandidate(sizes, false, true) ==>
        exists b :: (BestAmong(sizes, b, |sizes|, false, true)
        && previewWidth == sizes[b].width && previewHeight == sizes[b].height)
      ensures !HasCandidate(sizes, true, true) && !HasCandidate(sizes, false, true) && HasCandidate(sizes, false, false) ==>
        exists b :: (BestAmong(sizes, b, |sizes|, false, false)
        && previewWidth == sizes[b].width && previewHeight == sizes[b].height)
      ensures !HasCandidate(sizes, false, false) ==> previewWidth == old(previewWidth) && previewHeight == old(previewHeight)
    {
      var found := FindBestPreviewSize(sizes, true, true);
      if !found {
        found := FindBestPreviewSize(sizes, false, true);
        if !found {
          found := FindBestPreviewSize(sizes, false, false);
        }
      }
      if !HasCandidate(sizes, false, false) {
        CandidatesWiden(sizes);
      }
    }

    /**
     * `updateState`: the state recorded; capturing exactly in the capturing
     * state, and unchanged for a status the switch does not list.
     */
    method UpdateState(status: int)
      modifies this
      ensures panoState == status && previewWidth == old(previewWidth) && previewHeight == old(previewHeight)
      ensures status == STATUS_CAPTURING ==> isCapturing
      ensures status in {STATUS_PREVIEW, STATUS_SUCCESS, STATUS_PREPARE, STATUS_FAILED} ==> !isCapturing
      ensures !(status in {STATUS_PREVIEW, STATUS_SUCCESS, STATUS_PREPARE, STATUS_FAILED, STATUS_CAPTURING}) ==>
        isCapturing == old(isCapturing)
    {
      panoState := status;
      if status == STATUS_PREVIEW || status == STATUS_SUCCESS || status == STATUS_PREPARE || status == STATUS_FAILED {
        isCapturing := false;
      } else if status == STATUS_CAPTURING {
        isCapturing := true;
      }
    }
  }

  /** Dropping a filter only adds candidates. */
  lemma CandidatesWiden(sizes: seq<Size>)
    ensures HasCandidate(sizes, true, true) ==> HasCandidate(sizes, false, true)
    ensures HasCandidate(sizes, false, true) ==> HasCandidate(sizes, false, false)
  {
    if HasCandidate(sizes, true, true) {
      var j :| 0 <= j < |sizes| && Candidate(sizes[j], true, true);
      assert Candidate(sizes[j], false, true);
    }
    if HasCandidate(sizes, false, true) {
      var j :| 0 <= j < |sizes| && Candidate(sizes[j], false, true);
      assert Candidate(sizes[j], false, false);
    }
  }
}
