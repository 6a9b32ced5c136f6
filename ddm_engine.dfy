// The dual-camera depth-map engine's Java side
// (src/org/codeaurora/snapcam/filter/DDMNativeEngine.java): the little-endian
// scale/crop/rotation blob of each camera, the engine's inputs and the checks
// made before the native depth-map call.
module DdmEngine {
  import opened Bytes
  import opened Buffers
  import ClearSight

  type Rect = ClearSight.Rect

  /** `CamStreamCropInfo`; `scaleRatio` is the float's bit pattern. */
  datatype CropInfo = CropInfo(streamId: int, crop: Rect, roiMap: Rect, userZoom: int, streamZoom: int, scaleRatio: int)

  /** `CamRotationInfo`. */
  datatype RotationInfo = RotationInfo(jpegRotation: int, deviceRotation: int, streamId: int)

  /** `CamReprocessInfo`; `focalLengthRatio` is the float's bit pattern. */
  datatype ReprocessInfo = ReprocessInfo(
    sensor: CropInfo, camif: CropInfo, isp: CropInfo, cpp: CropInfo,
    focalLengthRatio: int, pipelineFlip: int, rotation: RotationInfo)

  const CROP_INFO_INTS: nat := 12
  const ROTATION_INFO_INTS: nat := 3
  /** Four crop records, the focal-length ratio, the flip and the rotation record: 212 bytes. */
  const REPROCESS_INFO_INTS: nat := 4 * CROP_INFO_INTS + 2 + ROTATION_INFO_INTS

  /** A rectangle read as left, top, width, height; right and bottom are sums in Java int arithmetic. */
  function RectOf(left: int, top: int, width: int, height: int): Rect {
    ClearSight.ClearsightRoi(left, top, width, height)
  }

  /** `CamStreamCropInfo.createFromByteBuffer` on the 12 ints it reads. */
  function CropInfoOf(vs: seq<int>): (c: CropInfo)
    requires |vs| == CROP_INFO_INTS
    ensures c.streamId == vs[0] && c.userZoom == vs[9] && c.streamZoom == vs[10] && c.scaleRatio == vs[11]
    ensures c.crop.left == vs[1] && c.crop.top == vs[2] && c.roiMap.left == vs[5] && c.roiMap.top == vs[6]
  {
    CropInfo(vs[0], RectOf(vs[1], vs[2], vs[3], vs[4]), RectOf(vs[5], vs[6], vs[7], vs[8]), vs[9], vs[10], vs[11])
  }

  /** `CamRotationInfo.createFromByteBuffer` on the 3 ints it reads. */
  function RotationInfoOf(vs: seq<int>): (r: RotationInfo)
    requires |vs| == ROTATION_INFO_INTS
    ensures r.jpegRotation == vs[0] && r.deviceRotation == vs[1] && r.streamId == vs[2]
  {
    RotationInfo(vs[0], vs[1], vs[2])
  }

  /** `CamReprocessInfo.createCamReprocessFromBytes(ByteBuffer)` on the 53 ints it reads, in order. */
  function ReprocessInfoOf(vs: seq<int>): (r: ReprocessInfo)
    requires |vs| == REPROCESS_INFO_INTS
    ensures r.focalLengthRatio == vs[48] && r.pipelineFlip == vs[49]
  {
    ReprocessInfo(CropInfoOf(vs[0..12]), CropInfoOf(vs[12..24]), CropInfoOf(vs[24..36]), CropInfoOf(vs[36..48]),
                  vs[48], vs[49], RotationInfoOf(vs[50..53]))
  }

  /**
   * `CamReprocessInfo.createCamReprocessFromBytes(byte[])`: the blob read
   * little-endian from its start; None is the BufferUnderflowException of a
   * blob shorter than 212 bytes. Anything after the record is ignored.
   */
  function ReprocessInfoFromBytes(bytes: seq<byte>): (r: Option<ReprocessInfo>)
    ensures r.Some? <==> |bytes| >= 4 * REPROCESS_INFO_INTS
    ensures r.Some? ==> (r.value.sensor.streamId == GetIntLE(bytes, 0)
      && r.value.pipelineFlip == GetIntLE(bytes, 196) && r.value.rotation.streamId == GetIntLE(bytes, 208))
  {
    var vs := GetInts(bytes, 0, REPROCESS_INFO_INTS, false);
    if vs.None? then None else Some(ReprocessInfoOf(vs.value))
  }

  /** The 4 ints a rectangle was read from: left, top, width and height. */
  function RectInts(r: Rect): seq<int> {
    [r.left, r.top, Int32(r.right - r.left), Int32(r.bottom - r.top)]
  }

  function CropInts(c: CropInfo): (vs: seq<int>)
    ensures |vs| == CROP_INFO_INTS
  {
    [c.streamId] + RectInts(c.crop) + RectInts(c.roiMap) + [c.userZoom, c.streamZoom, c.scaleRatio]
  }

  /** The ints of a reprocess record, in the order the blob holds them. */
  function ReprocessInts(r: ReprocessInfo): (vs: seq<int>)
    ensures |vs| == REPROCESS_INFO_INTS
  {
    CropInts(r.sensor) + CropInts(r.camif) + CropInts(r.isp) + CropInts(r.cpp)
      + [r.focalLengthRatio, r.pipelineFlip, r.rotation.jpegRotation, r.rotation.deviceRotation, r.rotation.streamId]
  }

  predicate RectInt32(r: Rect) {
    IsInt32(r.left) && IsInt32(r.top) && IsInt32(r.right) && IsInt32(r.bottom)
  }

  predicate CropInt32(c: CropInfo) {
    IsInt32(c.streamId) && RectInt32(c.crop) && RectInt32(c.roiMap)
      && IsInt32(c.userZoom) && IsInt32(c.streamZoom) && IsInt32(c.scaleRatio)
  }

  /** Every field of the record fits a Java int, as every field the parser produces does. */
  predicate ReprocessInt32(r: ReprocessInfo) {
    CropInt32(r.sensor) && CropInt32(r.camif) && CropInt32(r.isp) && CropInt32(r.cpp)
      && IsInt32(r.focalLengthRatio) && IsInt32(r.pipelineFlip)
      && IsInt32(r.rotation.jpegRotation) && IsInt32(r.rotation.deviceRotation) && IsInt32(r.rotation.streamId)
  }

  /** Adding a rectangle's width back to its left edge gives its right edge, in Java int arithmetic. */
  lemma RectRoundTrip(r: Rect)
    requires RectInt32(r)
    ensures var vs := RectInts(r); RectOf(vs[0], vs[1], vs[2], vs[3]) == r
  {
    Int32Add(r.left, r.right - r.left);
    Int32Add(r.top, r.bottom - r.top);
  }

  lemma CropRoundTrip(c: CropInfo)
    requires CropInt32(c)
    ensures CropInfoOf(CropInts(c)) == c
  {
    RectRoundTrip(c.crop);
    RectRoundTrip(c.roiMap);
  }

  /** Parsing a record's ints gives the record back. */
  lemma ReprocessOfInts(r: ReprocessInfo)
    requires ReprocessInt32(r)
    ensures ReprocessInfoOf(ReprocessInts(r)) == r
  {
    var vs := ReprocessInts(r);
    assert vs[0..12] == CropInts(r.sensor) && vs[12..24] == CropInts(r.camif);
    assert vs[24..36] == CropInts(r.isp) && vs[36..48] == CropInts(r.cpp);
    CropRoundTrip(r.sensor);
    CropRoundTrip(r.camif);
    CropRoundTrip(r.isp);
    CropRoundTrip(r.cpp);
  }

  lemma ReprocessIntsInt32(r: ReprocessInfo)
    requires ReprocessInt32(r)
    ensures forall i :: 0 <= i < |ReprocessInts(r)| ==> IsInt32(ReprocessInts(r)[i])
  {
    RectSizesInt32(r.sensor);
    RectSizesInt32(r.camif);
    RectSizesInt32(r.isp);
    RectSizesInt32(r.cpp);
    var vs := ReprocessInts(r);
    forall i | 0 <= i < |vs|
      ensures IsInt32(vs[i])
    {
      if i < 12 {
        assert vs[i] == CropInts(r.sensor)[i];
      } else if i < 24 {
        assert vs[i] == CropInts(r.camif)[i - 12];
      } else if i < 36 {
        assert vs[i] == CropInts(r.isp)[i - 24];
      } else if i < 48 {
        assert vs[i] == CropInts(r.cpp)[i - 36];
      }
    }
  }

  /**
   * Writing a record's ints little-endian and parsing the blob gives the
   * record back, whatever bytes follow it.
   */
  lemma ReprocessRoundTrip(r: ReprocessInfo, tail: seq<byte>)
    requires ReprocessInt32(r)
    ensures ReprocessInfoFromBytes(PutInts(ReprocessInts(r), false) + tail) == Some(r)
  {
    ReprocessIntsInt32(r);
    GetPutInts(ReprocessInts(r), false, tail);
    ReprocessOfInts(r);
  }

  lemma RectSizesInt32(c: CropInfo)
    requires CropInt32(c)
    ensures forall i :: 0 <= i < CROP_INFO_INTS ==> IsInt32(CropInts(c)[i])
  {
  }

  /** A camera image as the engine holds it. */
  datatype Image = Image(id: int, width: int, height: int)

  /** The engine: the two images, their reprocess records, the calibration and the bayer lens focus distance. */
  class Engine {
    var bayerImage: Option<Image>
    var monoImage: Option<Image>
    var bayerInfo: Option<ReprocessInfo>
    var monoInfo: Option<ReprocessInfo>
    var calibration: Option<ClearSight.SystemCalibration>
    var lensFocusDistance: real

    constructor ()
      ensures bayerImage == None && monoImage == None && bayerInfo == None && monoInfo == None
      ensures calibration == None && lensFocusDistance == 0.0
    {
      bayerImage, monoImage, bayerInfo, monoInfo := None, None, None, None;
      calibration, lensFocusDistance := None, 0.0;
    }

    /** `isReadyForGenerateDepth`: both images and both reprocess records are present. */
    predicate IsReadyForGenerateDepth()
      reads this
    {
      bayerImage.Some? && monoImage.Some? && bayerInfo.Some? && monoInfo.Some?
    }

    /** `reset`: images, records and focus distance cleared; the calibration stays. */
    method Reset()
      modifies this
      ensures bayerImage == None && monoImage == None && bayerInfo == None && monoInfo == None
      ensures lensFocusDistance == 0.0 && calibration == old(calibration)
      ensures !IsReadyForGenerateDepth()
    {
      bayerImage, monoImage, bayerInfo, monoInfo := None, None, None, None;
      lensFocusDistance := 0.0;
    }

    method SetBayerImage(image: Option<Image>)
      modifies this
      ensures bayerImage == image && monoImage == old(monoImage) && bayerInfo == old(bayerInfo)
      ensures monoInfo == old(monoInfo) && calibration == old(calibration) && lensFocusDistance == old(lensFocusDistance)
    {
      bayerImage := image;
    }

    method SetMonoImage(image: Option<Image>)
      modifies this
      ensures monoImage == image && bayerImage == old(bayerImage) && bayerInfo == old(bayerInfo)
      ensures monoInfo == old(monoInfo) && calibration == old(calibration) && lensFocusDistance == old(lensFocusDistance)
    {
      monoImage := image;
    }

    method SetBayerLensFocusDistance(d: real)
      modifies this
      ensures lensFocusDistance == d && bayerImage == old(bayerImage) && monoImage == old(monoImage)
      ensures bayerInfo == old(bayerInfo) && monoInfo == old(monoInfo) && calibration == old(calibration)
    {
      lensFocusDistance := d;
    }

    method SetCalibration(c: Option<ClearSight.SystemCalibration>)
      modifies this
      ensures calibration == c && bayerImage == old(bayerImage) && monoImage == old(monoImage)
      ensures bayerInfo == old(bayerInfo) && monoInfo == old(monoInfo) && lensFocusDistance == old(lensFocusDistance)
    {
      calibration := c;
    }

    /**
     * `setBayerReprocessResult` / `setMonoReprocessResult`: the record parsed
     * from the result's blob. A short blob throws (thrown) before the
     * assignment, leaving the engine as it was.
     */
    method SetReprocessResult(bayer: bool, blob: seq<byte>) returns (thrown: bool)
      modifies this
      ensures thrown <==> ReprocessInfoFromBytes(blob).None?
      ensures bayer && !thrown ==> bayerInfo == ReprocessInfoFromBytes(blob) && monoInfo == old(monoInfo)
      ensures !bayer && !thrown ==> monoInfo == ReprocessInfoFromBytes(blob) && bayerInfo == old(bayerInfo)
      ensures thrown ==> bayerInfo == old(bayerInfo) && monoInfo == old(monoInfo)
      ensures bayerImage == old(bayerImage) && monoImage == old(monoImage)
      ensures calibration == old(calibration) && lensFocusDistance == old(lensFocusDistance)
    {
      var info := ReprocessInfoFromBytes(blob);
      if info.None? {
        return true;
      }
      if bayer {
        bayerInfo := info;
      } else {
        monoInfo := info;
      }
      return false;
    }

    /**
     * `dualCameraGenerateDDM`: false, with the rectangle untouched, when the
     * focus distance is 0, an image is missing, the depth-map buffer is null,
     * or a record or the calibration is missing; otherwise the native call's
     * answer (nativeOk), with the rectangle set from the 4 ints it filled in
     * (goodRoi: left, top, width, height).
     */
    method DualCameraGenerateDDM(depthMap: Option<seq<byte>>, nativeOk: bool, goodRoi: seq<int>)
      returns (ok: bool, roi: Option<Rect>)
      requires |goodRoi| == 4
      ensures roi.Some? <==> (lensFocusDistance != 0.0 && depthMap.Some? && IsReadyForGenerateDepth() && calibration.Some?)
      ensures ok <==> roi.Some? && nativeOk
      ensures roi.Some? ==> roi.value == RectOf(goodRoi[0], goodRoi[1], goodRoi[2], goodRoi[3])
    {
      if lensFocusDistance == 0.0 {
        return false, None;
      }
      if bayerImage.None? || monoImage.None? {
        return false, None;
      }
      if depthMap.None? {
        return false, None;
      }
      if monoInfo.None? || bayerInfo.None? || calibration.None? {
        return false, None;
      }
      ok := nativeOk;
      roi := Some(RectOf(goodRoi[0], goodRoi[1], goodRoi[2], goodRoi[3]));
    }
  }
}
