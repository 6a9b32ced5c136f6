// The ClearSight engine's Java side (src/org/codeaurora/snapcam/filter/ClearSightNativeEngine.java):
// the colour and mono reference images and the lists of source images handed
// to the native library, the pre-checks before its calls, and the parsers of
// the dual-camera calibration record.
module ClearSight {
  import opened Bytes
  import opened Buffers

  /** A camera image: an identity and what `setImageSizeStride` reads from its Y and VU planes. */
  datatype Frame = Frame(id: int, ySize: int, vuSize: int, yStride: int, vuStride: int)

  /** An entry of a source list: a reference image as given, or a registered copy of an image. */
  datatype SourceImage = Reference(frame: Frame) | Registered(frame: Frame)

  /** The `SENSOR_SENSITIVITY` and `SENSOR_EXPOSURE_TIME` of a capture result. */
  datatype CaptureResult = CaptureResult(iso: int, exposureNs: int)

  /**
   * The exposure handed to `nativeClearSightProcessInit`, as written: the
   * nanoseconds divided by 100000 (Java long division), then cast to int.
   * The comment and the parameter name both say milliseconds.
   */
  function SourceExposureArg(exposureNs: int): int {
    Int32(JavaDiv(exposureNs, 100000))
  }

  /** As written, a one-millisecond exposure is passed as 10. */
  lemma SourceExposureTenfold()
    ensures SourceExposureArg(1000000) == 10
  {
  }

  /** The evident intent: the exposure in whole milliseconds. */
  function ExposureMs(exposureNs: int): (ms: int)
    ensures 0 <= exposureNs < 1000000 * 0x8000_0000 ==> ms * 1000000 <= exposureNs < (ms + 1) * 1000000
  {
    Int32(JavaDiv(exposureNs, 1000000))
  }

  /** The corrected conversion passes k for an exposure of exactly k milliseconds. */
  lemma ExposureMsExact(k: int)
    requires 0 <= k < 0x8000_0000
    ensures ExposureMs(k * 1000000) == k
  {
    assert JavaDiv(k * 1000000, 1000000) == k;
  }

  /**
   * How `initProcessImage` ends: refused on a length mismatch, a null
   * dereference of a missing reference or mono result, or the native
   * initialisation's answer with the pair count, exposure and ISO it was
   * given.
   */
  datatype InitOutcome = Mismatch | NullDereference | Native(ok: bool, numImages: int, exposureMs: int, iso: int)

  datatype Rect = Rect(left: int, top: int, right: int, bottom: int)

  /** `ClearsightImage`: the ROI built from the native (x, y, w, h), in Java int arithmetic. */
  function ClearsightRoi(x: int, y: int, w: int, h: int): Rect {
    Rect(x, y, Int32(x + w), Int32(y + h))
  }

  /** `getWidth` and `getHeight` of a `ClearsightImage`: right - left and bottom - top in Java int arithmetic. */
  function RoiWidth(r: Rect): int { Int32(r.right - r.left) }
  function RoiHeight(r: Rect): int { Int32(r.bottom - r.top) }

  /** The wrap-arounds cancel: the image's width and height are the native w and h, whatever their values. */
  lemma RoiSizeRoundTrip(x: int, y: int, w: int, h: int)
    requires IsInt32(x) && IsInt32(y) && IsInt32(w) && IsInt32(h)
    ensures RoiWidth(ClearsightRoi(x, y, w, h)) == w && RoiHeight(ClearsightRoi(x, y, w, h)) == h
  {
    WrapCancels(x, w);
    WrapCancels(y, h);
  }

  lemma WrapCancels(a: int, b: int)
    requires IsInt32(b)
    ensures Int32(Int32(a + b) - a) == b
  {
    Int32Add(a + b, -a);
  }

  /** The engine's state: the references, their capture results, the two source lists, the sizes and what was closed. */
  class Engine {
    var refColor: Option<Frame>
    var refMono: Option<Frame>
    var refColorResult: Option<CaptureResult>
    var refMonoResult: Option<CaptureResult>
    var srcColor: seq<SourceImage>
    var srcMono: seq<SourceImage>
    var ySize: int
    var vuSize: int
    var yStride: int
    var vuStride: int
    /** The images `close()` was called on, in order. */
    var closed: seq<Frame>

    constructor ()
      ensures refColor == None && refMono == None && refColorResult == None && refMonoResult == None
      ensures srcColor == [] && srcMono == [] && closed == []
    {
      refColor, refMono, refColorResult, refMonoResult := None, None, None, None;
      srcColor, srcMono, closed := [], [], [];
      ySize, vuSize, yStride, vuStride := 0, 0, 0, 0;
    }

    /** `getImageCount`. */
    function ImageCount(color: bool): (n: nat)
      reads this
      ensures n == if color then |srcColor| else |srcMono|
    {
      if color then |srcColor| else |srcMono|
    }

    /** `hasReferenceImage`: the list for that sensor is not empty. */
    function HasReferenceImage(color: bool): (b: bool)
      reads this
      ensures b <==> ImageCount(color) > 0
    {
      ImageCount(color) > 0
    }

    /**
     * `setReferenceColorImage` / `setReferenceMonoImage`: the previous
     * reference is closed; a new non-null reference is recorded (the colour
     * one also sets the plane sizes and strides) and appended to its source
     * list, whose older entries stay.
     */
    method SetReferenceImage(color: bool, image: Option<Frame>)
      modifies this
      ensures refColorResult == old(refColorResult) && refMonoResult == old(refMonoResult)
      ensures closed == old(closed) + (if color then Closing(old(refColor)) else Closing(old(refMono)))
      ensures color ==> (refColor == image && refMono == old(refMono) && srcMono == old(srcMono)
        && srcColor == old(srcColor) + (if image.Some? then [Reference(image.value)] else []))
      ensures !color ==> (refMono == image && refColor == old(refColor) && srcColor == old(srcColor)
        && srcMono == old(srcMono) + (if image.Some? then [Reference(image.value)] else []))
      ensures color && image.Some? ==> (ySize == image.value.ySize && vuSize == image.value.vuSize
        && yStride == image.value.yStride && vuStride == image.value.vuStride)
      ensures !(color && image.Some?) ==> (ySize == old(ySize) && vuSize == old(vuSize)
        && yStride == old(yStride) && vuStride == old(vuStride))
    {
      if color {
        closed := closed + Closing(refColor);
        refColor := image;
        if image.Some? {
          ySize, vuSize := image.value.ySize, image.value.vuSize;
          yStride, vuStride := image.value.yStride, image.value.vuStride;
          srcColor := srcColor + [Reference(image.value)];
        }
      } else {
        closed := closed + Closing(refMono);
        refMono := image;
        if image.Some? {
          srcMono := srcMono + [Reference(image.value)];
        }
      }
    }

    /** `setReferenceResult`. */
    method SetReferenceResult(color: bool, result: Option<CaptureResult>)
      modifies this
      ensures color ==> refColorResult == result && refMonoResult == old(refMonoResult)
      ensures !color ==> refMonoResult == result && refColorResult == old(refColorResult)
      ensures refColor == old(refColor) && refMono == old(refMono) && srcColor == old(srcColor)
        && srcMono == old(srcMono) && closed == old(closed)
    {
      if color {
        refColorResult := result;
      } else {
        refMonoResult := result;
      }
    }

    /** `reset`: both lists emptied, both references closed and cleared, both results cleared. */
    method Reset()
      modifies this
      ensures srcColor == [] && srcMono == [] && refColor == None && refMono == None
      ensures refColorResult == None && refMonoResult == None
      ensures closed == old(closed) + Closing(old(refColor)) + Closing(old(refMono))
      ensures !HasReferenceImage(true) && !HasReferenceImage(false)
    {
      srcColor := [];
      srcMono := [];
      SetReferenceImage(true, None);
      SetReferenceImage(false, None);
      SetReferenceResult(true, None);
      SetReferenceResult(false, None);
    }

    /**
     * `registerImage`: refused, with nothing changed, while the sensor's list
     * is empty. Otherwise the native registration runs (its answer is
     * nativeOk), a successful registration appends exactly one entry, and the
     * image is closed either way.
     */
    method RegisterImage(color: bool, image: Frame, nativeOk: bool) returns (ok: bool)
      requires if color then refColor.Some? else refMono.Some?
      modifies this
      ensures refColor == old(refColor) && refMono == old(refMono)
      ensures refColorResult == old(refColorResult) && refMonoResult == old(refMonoResult)
      ensures ySize == old(ySize) && vuSize == old(vuSize) && yStride == old(yStride) && vuStride == old(vuStride)
      ensures old(ImageCount(color)) == 0 ==> (!ok && srcColor == old(srcColor) && srcMono == old(srcMono)
        && closed == old(closed))
      ensures old(ImageCount(color)) > 0 ==> ok == nativeOk && closed == old(closed) + [image]
      ensures old(ImageCount(color)) > 0 && color ==> (srcMono == old(srcMono)
        && srcColor == old(srcColor) + (if nativeOk then [Registered(image)] else []))
      ensures old(ImageCount(color)) > 0 && !color ==> (srcColor == old(srcColor)
        && srcMono == old(srcMono) + (if nativeOk then [Registered(image)] else []))
    {
      var sources := if color then srcColor else srcMono;
      if sources == [] {
        return false;
      }
      ok := nativeOk;
      if ok {
        if color {
          srcColor := srcColor + [Registered(image)];
        } else {
          srcMono := srcMono + [Registered(image)];
        }
      }
      closed := closed + [image];
    }

    /**
     * `initProcessImage`: refused before any native call when the two lists
     * differ in length. Otherwise the colour reference's planes, the mono
     * reference's planes and the mono result are read, and a missing one is a
     * null dereference; with all three present it is the native
     * initialisation's answer, called with the pair count, the exposure in
     * milliseconds and the mono result's ISO.
     */
    method InitProcessImage(nativeOk: bool) returns (r: InitOutcome)
      ensures r == Mismatch <==> |srcColor| != |srcMono|
      ensures r == NullDereference <==>
        |srcColor| == |srcMono| && (refColor.None? || refMono.None? || refMonoResult.None?)
      ensures r.Native? ==>
        refColor.Some? && refMono.Some? && refMonoResult.Some?
        && r == Native(nativeOk, |srcColor|, ExposureMs(refMonoResult.value.exposureNs), refMonoResult.value.iso)
    {
      if |srcColor| != |srcMono| {
        return Mismatch;
      }
      var numImages := |srcColor|;
      if refColor.None? || refMono.None? || refMonoResult.None? {
        return NullDereference;
      }
      var exposure := ExposureMs(refMonoResult.value.exposureNs);
      return Native(nativeOk, numImages, exposure, refMonoResult.value.iso);
    }
  }

  /** The images `close()` is called on when an optional reference is replaced. */
  function Closing(o: Option<Frame>): seq<Frame> {
    if o.Some? then [o.value] else []
  }

  /** `processImage`: the native result's ROI when it succeeds, otherwise null. */
  function ProcessImage(nativeOk: bool, roi: seq<int>): (r: Option<Rect>)
    requires |roi| == 4
    ensures r.Some? <==> nativeOk
    ensures r.Some? ==> r.value == ClearsightRoi(roi[0], roi[1], roi[2], roi[3])
  {
    if nativeOk then Some(ClearsightRoi(roi[0], roi[1], roi[2], roi[3])) else None
  }

  /**
   * `CamSensorCalibrationData`: the float bit patterns of the normalised
   * focal length and focal-length ratio, and four shorts.
   */
  datatype SensorCalibration = SensorCalibration(
    normalizedFocalLength: int, nativeWidth: int, nativeHeight: int,
    calibrationWidth: int, calibrationHeight: int, focalLengthRatio: int)

  const SENSOR_CALIBRATION_SIZE: nat := 16
  const SYSTEM_CALIBRATION_SIZE: nat := 222

  /**
   * `CamSensorCalibrationData.createFromByteBuff`: a float, four shorts and
   * a float, in declared order; with the offset after them. None is the
   * BufferUnderflowException when fewer than 16 bytes are left.
   */
  function SensorCalibrationAt(s: seq<byte>, at: nat, bigEndian: bool): (r: Option<(SensorCalibration, nat)>)
    ensures r.Some? <==> at + SENSOR_CALIBRATION_SIZE <= |s|
    ensures r.Some? ==> r.value.1 == at + SENSOR_CALIBRATION_SIZE
    ensures r.Some? ==> var c := r.value.0;
      && c.normalizedFocalLength == GetInt(s, at, bigEndian)
      && c.nativeWidth == GetShort(s, at + 4, bigEndian) && c.nativeHeight == GetShort(s, at + 6, bigEndian)
      && c.calibrationWidth == GetShort(s, at + 8, bigEndian) && c.calibrationHeight == GetShort(s, at + 10, bigEndian)
      && c.focalLengthRatio == GetInt(s, at + 12, bigEndian)
  {
    if at + SENSOR_CALIBRATION_SIZE > |s| then None
    else Some((SensorCalibration(GetInt(s, at, bigEndian),
                                 GetShort(s, at + 4, bigEndian), GetShort(s, at + 6, bigEndian),
                                 GetShort(s, at + 8, bigEndian), GetShort(s, at + 10, bigEndian),
                                 GetInt(s, at + 12, bigEndian)),
               at + SENSOR_CALIBRATION_SIZE))
  }

  /** `CamSensorCalibrationData.createFromBytes`: the array wrapped without setting an order, so big-endian. */
  function SensorCalibrationFromBytes(bytes: seq<byte>): (r: Option<SensorCalibration>)
    ensures r.Some? <==> |bytes| >= SENSOR_CALIBRATION_SIZE
    ensures r.Some? ==> r.value.nativeWidth == GetShortBE(bytes, 4)
  {
    var p := SensorCalibrationAt(bytes, 0, true);
    if p.Some? then Some(p.value.0) else None
  }

  /** `CamSystemCalibrationData`: the float fields as bit patterns, the two float arrays as sequences. */
  datatype SystemCalibration = SystemCalibration(
    version: int, main: SensorCalibration, aux: SensorCalibration,
    rotationMatrix: seq<int>, geometricSurface: seq<int>,
    principalPointX: int, principalPointY: int, positionFlag: int, baselineDistance: int,
    mainMirrorFlip: int, auxMirrorFlip: int, moduleOrientation: int, rotationFlag: int)

  /**
   * `CamSystemCalibrationData.createFromByteBuff`: the fields in declared
   * order, 222 bytes in all; None is the BufferUnderflowException.
   */
  function SystemCalibrationAt(s: seq<byte>, at: nat): (r: Option<(SystemCalibration, nat)>)
    ensures r.Some? <==> at + SYSTEM_CALIBRATION_SIZE <= |s|
    ensures r.Some? ==> r.value.1 == at + SYSTEM_CALIBRATION_SIZE
    ensures r.Some? ==> var c := r.value.0;
      && c.version == GetIntLE(s, at)
      && Some((c.main, at + 20)) == SensorCalibrationAt(s, at + 4, false)
      && Some((c.aux, at + 36)) == SensorCalibrationAt(s, at + 20, false)
      && Some(c.rotationMatrix) == GetInts(s, at + 36, 9, false)
      && Some(c.geometricSurface) == GetInts(s, at + 72, 32, false)
      && c.principalPointX == GetIntLE(s, at + 200) && c.principalPointY == GetIntLE(s, at + 204)
      && c.positionFlag == GetShortLE(s, at + 208) && c.baselineDistance == GetIntLE(s, at + 210)
      && c.mainMirrorFlip == GetShortLE(s, at + 214) && c.auxMirrorFlip == GetShortLE(s, at + 216)
      && c.moduleOrientation == GetShortLE(s, at + 218) && c.rotationFlag == GetShortLE(s, at + 220)
  {
    if at + SYSTEM_CALIBRATION_SIZE > |s| then None
    else
      var main := SensorCalibrationAt(s, at + 4, false).value.0;
      var aux := SensorCalibrationAt(s, at + 20, false).value.0;
      Some((SystemCalibration(GetIntLE(s, at), main, aux,
                              GetInts(s, at + 36, 9, false).value, GetInts(s, at + 72, 32, false).value,
                              GetIntLE(s, at + 200), GetIntLE(s, at + 204), GetShortLE(s, at + 208),
                              GetIntLE(s, at + 210), GetShortLE(s, at + 214), GetShortLE(s, at + 216),
                              GetShortLE(s, at + 218), GetShortLE(s, at + 220)),
            at + SYSTEM_CALIBRATION_SIZE))
  }

  /** What `CamSystemCalibrationData.createFromBytes` gives: null for null bytes, the record, or the underflow. */
  datatype CalibrationResult = NullData | Underflow | Calibration(data: SystemCalibration)

  /** `CamSystemCalibrationData.createFromBytes`: null stays null; the bytes are read little-endian. */
  function SystemCalibrationFromBytes(bytes: Option<seq<byte>>): (r: CalibrationResult)
    ensures bytes.None? <==> r.NullData?
    ensures r.Underflow? <==> bytes.Some? && |bytes.value| < SYSTEM_CALIBRATION_SIZE
    ensures r.Calibration? ==> (r.data.version == GetIntLE(bytes.value, 0)
      && |r.data.rotationMatrix| == 9 && |r.data.geometricSurface| == 32)
  {
    if bytes.None? then NullData
    else
      var p := SystemCalibrationAt(bytes.value, 0);
      if p.None? then Underflow else Calibration(p.value.0)
  }
}
