// PhotoModule: the queue of names for shots in flight, the camera metadata
// decoder, the JPEG quality and size estimates, the flip codes pushed to the
// driver and the accumulation of pending parameter updates.
module PhotoModule {
  import opened Bytes
  import opened Text
  import CameraUtil
  import Arith

  // ----- NamedImages -----

  /** `NamedEntity`: a shot's file title and its capture date. */
  datatype NamedEntity = NamedEntity(title: string, date: int)

  /** Taking the oldest name from a queue of names: None when the queue is empty. */
  function Pop(queue: seq<NamedEntity>): (r: (Option<NamedEntity>, seq<NamedEntity>))
    ensures r.0.None? <==> queue == []
    ensures r.0.Some? ==> [r.0.value] + r.1 == queue
    ensures r.0.None? ==> r.1 == []
  {
    if queue == [] then (None, []) else (Some(queue[0]), queue[1..])
  }

  /** The names handed out by taking from the queue until it answers None. */
  function Drain(queue: seq<NamedEntity>): (out: seq<NamedEntity>)
    ensures |out| == |queue|
    decreases |queue|
  {
    var (e, rest) := Pop(queue);
    if e.None? then [] else [e.value] + Drain(rest)
  }

  /** The queue is first in, first out: names come out in the order they were added. */
  lemma {:induction false} DrainInOrder(queue: seq<NamedEntity>)
    ensures Drain(queue) == queue
    decreases |queue|
  {
    if queue != [] {
      DrainInOrder(queue[1..]);
    }
  }

  /** Adding names after the current ones does not change which name is taken next. */
  lemma PopAfterAdd(queue: seq<NamedEntity>, e: NamedEntity)
    requires queue != []
    ensures Pop(queue + [e]) == (Pop(queue).0, Pop(queue).1 + [e])
  {
    assert (queue + [e])[1..] == queue[1..] + [e];
  }

  /**
   * `NamedImages`: the names of pictures taken but not yet saved. The title is
   * `CameraUtil.createJpegName(date)` (the file namer, modelled in CameraUtil),
   * passed in.
   */
  class NamedImages {
    var queue: seq<NamedEntity>

    constructor()
      ensures queue == []
    {
      queue := [];
    }

    /** `nameNewImage`: appends the new name at the end. */
    method NameNewImage(title: string, date: int)
      modifies this
      ensures queue == old(queue) + [NamedEntity(title, date)]
    {
      queue := queue + [NamedEntity(title, date)];
    }

    /** `getNextNameEntity`: removes and returns the oldest name, or None (null) when empty. */
    method GetNextNameEntity() returns (e: Option<NamedEntity>)
      modifies this
      ensures (e, queue) == Pop(old(queue))
    {
      if queue != [] {
        e := Some(queue[0]);
        queue := queue[1..];
      } else {
        e := None;
      }
    }
  }

  // ----- MetaDataCallback -----

  /** 2^n. */
  function Pow2(n: nat): (p: nat)
    ensures p >= 1
  {
    if n == 0 then 1 else 2 * Pow2(n - 1)
  }

  /** Java `x << n` on an int: the product wrapped to 32 bits. */
  function ShiftLeft(x: int, n: nat): (r: int)
    ensures IsInt32(r)
  {
    Int32(x * Pow2(n))
  }

  /** The unwrapped sum of the first i terms `byteToInt` adds, taking bytes from offset+3 down. */
  function ByteTerms(b: seq<byte>, offset: nat, i: nat): int
    requires i <= 4 && offset + 4 <= |b|
  {
    if i == 0 then 0 else ByteTerms(b, offset, i - 1) + b[(3 - (i - 1)) + offset] * Pow2((3 - (i - 1)) * 8)
  }

  lemma ByteWeights()
    ensures Pow2(0) == 1 && Pow2(8) == 0x100 && Pow2(16) == 0x1_0000 && Pow2(24) == 0x100_0000
  {
  }

  /** All four terms: the unsigned little-endian value. */
  lemma ByteTermsAll(b: seq<byte>, offset: nat)
    requires offset + 4 <= |b|
    ensures ByteTerms(b, offset, 4) == U32BE(b[offset + 3], b[offset + 2], b[offset + 1], b[offset])
  {
    ByteWeights();
    assert ByteTerms(b, offset, 1) == (b[offset + 3] as int) * 0x100_0000;
    assert ByteTerms(b, offset, 2) == ByteTerms(b, offset, 1) + (b[offset + 2] as int) * 0x1_0000;
    assert ByteTerms(b, offset, 3) == ByteTerms(b, offset, 2) + (b[offset + 1] as int) * 0x100;
    assert ByteTerms(b, offset, 4) == ByteTerms(b, offset, 3) + b[offset];
  }

  /** Adding a wrapped term to a wrapped sum wraps like the exact sum. */
  lemma WrappedSum(a: int, t: int)
    ensures Int32(Int32(a) + Int32(t)) == Int32(a + t)
  {
    Int32Add(a, Int32(t));
    Int32Add(t, a);
  }

  /**
   * `byteToInt`: four bytes from offset in little-endian order, each masked to
   * 0..255 and shifted into place, the sum wrapped to 32 bits.
   */
  method ByteToInt(b: seq<byte>, offset: nat) returns (value: int)
    requires offset + 4 <= |b|
    ensures value == GetIntLE(b, offset)
  {
    value := 0;
    var i := 0;
    while i < 4
      invariant 0 <= i <= 4
      invariant value == Int32(ByteTerms(b, offset, i))
    {
      var shift := (4 - 1 - i) * 8;
      WrappedSum(ByteTerms(b, offset, i), b[(3 - i) + offset] * Pow2(shift));
      value := Int32(value + ShiftLeft(b[(3 - i) + offset], shift));
      i := i + 1;
    }
    ByteTermsAll(b, offset);
  }

  /**
   * The start of `onCameraMetaData`: the three little-endian ints of a
   * metadata record (type, length, value), or None for a record shorter than
   * 12 bytes, which the callback ignores.
   */
  method ReadMetaData(data: seq<byte>) returns (metadata: Option<seq<int>>)
    ensures metadata.Some? <==> |data| >= 12
    ensures metadata.Some? ==>
      (|metadata.value| == 3 && forall i :: 0 <= i < 3 ==> metadata.value[i] == GetIntLE(data, i * 4))
  {
    if |data| >= 12 {
      var m := [0, 0, 0];
      var i := 0;
      while i < 3
        invariant 0 <= i <= 3 && |m| == 3
        invariant forall k :: 0 <= k < i ==> m[k] == GetIntLE(data, k * 4)
      {
        var v := ByteToInt(data, i * 4);
        m := m[i := v];
        i := i + 1;
      }
      metadata := Some(m);
    } else {
      metadata := None;
    }
  }

  // ----- JpegEncodingQualityMappings -----

  const DEFAULT_QUALITY: int := 85
  const QUALITY_LOW: int := 0
  const QUALITY_MEDIUM: int := 1
  const QUALITY_HIGH: int := 2

  /** The named quality levels: "normal", "fine" and "superfine". */
  function QualityLevel(name: string): (r: Option<int>)
    ensures r.Some? <==> name in {"normal", "fine", "superfine"}
  {
    if name == "normal" then Some(QUALITY_LOW)
    else if name == "fine" then Some(QUALITY_MEDIUM)
    else if name == "superfine" then Some(QUALITY_HIGH)
    else None
  }

  /**
   * `getQualityNumber`: a number is taken as the percentage when it is in
   * 0..100 and replaced by 85 otherwise; a named level is looked up through
   * `CameraProfile.getJpegEncodingQualityParameter`, given here as `profile`;
   * anything else is 85.
   */
  function GetQualityNumber(jpegQuality: string, profile: int -> int): (q: int)
    ensures ParseInt(jpegQuality).Some? ==>
      q == (if 0 <= ParseInt(jpegQuality).value <= 100 then ParseInt(jpegQuality).value else DEFAULT_QUALITY)
    ensures ParseInt(jpegQuality).None? && QualityLevel(jpegQuality).None? ==> q == DEFAULT_QUALITY
    ensures ParseInt(jpegQuality).None? && QualityLevel(jpegQuality).Some? ==> q == profile(QualityLevel(jpegQuality).value)
  {
    match ParseInt(jpegQuality)
    case Some(percentile) =>
      if percentile >= 0 && percentile <= 100 then percentile else DEFAULT_QUALITY
    case None =>
      match QualityLevel(jpegQuality)
      case None => DEFAULT_QUALITY
      case Some(level) => profile(level)
  }

  /** Every percentage written as a number comes back as itself. */
  lemma QualityPercentRoundTrip(percent: int, profile: int -> int)
    requires 0 <= percent <= 100
    ensures GetQualityNumber(IntString(percent), profile) == percent
  {
    ParseIntString(percent);
  }

  /** A number outside 0..100 falls back to the default quality. */
  lemma QualityOutOfRange(v: int, profile: int -> int)
    requires IsInt32(v) && (v < 0 || v > 100)
    ensures GetQualityNumber(IntString(v), profile) == DEFAULT_QUALITY
  {
    ParseIntString(v);
  }

  /** The level names are not numbers, so they reach the profile lookup. */
  lemma QualityNamesUseProfile(profile: int -> int)
    ensures GetQualityNumber("normal", profile) == profile(QUALITY_LOW)
    ensures GetQualityNumber("fine", profile) == profile(QUALITY_MEDIUM)
    ensures GetQualityNumber("superfine", profile) == profile(QUALITY_HIGH)
  {
    assert !IsDigit('n') && !IsDigit('f') && !IsDigit('s');
  }

  /** When the profile answers a percentage, every quality string yields one. */
  lemma QualityInRange(jpegQuality: string, profile: int -> int)
    requires forall l :: 0 <= profile(l) <= 100
    ensures 0 <= GetQualityNumber(jpegQuality, profile) <= 100
  {
  }

  // ----- estimateJpegFileSize / updateRemainingPhotos -----

  /** The last index below n whose quality name is `quality`, or -1. */
  function LastMatch(qualities: seq<string>, n: nat, quality: string): (i: int)
    requires n <= |qualities|
    ensures -1 <= i < n
    ensures i >= 0 ==> qualities[i] == quality
    ensures forall k :: i < k < n ==> qualities[k] != quality
  {
    if n == 0 then -1
    else if qualities[n - 1] == quality then n - 1
    else LastMatch(qualities, n - 1, quality)
  }

  /** The ratio configured for a quality name: that of its last occurrence, or 0. */
  function RatioFor(ratios: seq<int>, qualities: seq<string>, quality: string): (ratio: int)
    requires |ratios| <= |qualities|
  {
    var i := LastMatch(qualities, |ratios|, quality);
    if i < 0 then 0 else ratios[i]
  }

  /**
   * `estimateJpegFileSize`: the search runs from the last ratio down to the
   * first; with no match (or a zero ratio) the estimate is 0, otherwise
   * width * height * 3 / ratio in 32-bit arithmetic.
   */
  method EstimateJpegFileSize(width: int, height: int, quality: string, ratios: seq<int>, qualities: seq<string>)
    returns (size: int)
    requires |ratios| <= |qualities|
    requires forall k :: 0 <= k < |ratios| ==> IsInt32(ratios[k])
    ensures RatioFor(ratios, qualities, quality) == 0 ==> size == 0
    ensures RatioFor(ratios, qualities, quality) != 0 ==>
      size == Int32(JavaDiv(Int32(Int32(width * height) * 3), RatioFor(ratios, qualities, quality)))
  {
    var ratio := 0;
    var i := |ratios| - 1;
    while i >= 0
      invariant -1 <= i < |ratios|
      invariant forall k :: i < k < |ratios| ==> qualities[k] != quality
      invariant ratio == 0
    {
      if qualities[i] == quality {
        ratio := ratios[i];
        break;
      }
      i := i - 1;
    }
    assert ratio == RatioFor(ratios, qualities, quality);
    if ratio == 0 {
      size := 0;
    } else {
      size := Int32(JavaDiv(Int32(Int32(width * height) * 3), ratio));
    }
  }

  /** For a picture small enough not to wrap, the estimate is the exact quotient. */
  lemma EstimateExact(width: nat, height: nat, ratio: int)
    requires ratio > 0 && width * height * 3 < 0x8000_0000
    ensures Int32(JavaDiv(Int32(Int32(width * height) * 3), ratio)) == width * height * 3 / ratio
  {
    assert (width * height * 3) / ratio <= width * height * 3 by {
      DivLe(width * height * 3, ratio);
    }
  }

  lemma DivLe(a: nat, b: int)
    requires b > 0
    ensures a / b <= a
  {
    Arith.DivMod(a, b);
    Arith.MulLe(1, b, a / b);
  }

  /**
   * `updateRemainingPhotos`: the free bytes above the low-storage threshold
   * divided by the size estimate (long division, cast to int), or -1 when the
   * estimate is 0.
   */
  function RemainingPhotos(storageBytes: int, lowStorageThreshold: int, estimate: int): (remaining: int)
    ensures estimate == 0 ==> remaining == -1
    ensures IsInt32(remaining)
  {
    if estimate != 0 then Int32(JavaDiv(storageBytes - lowStorageThreshold, estimate)) else -1
  }

  /** With room above the threshold and a positive estimate, the count is the number of whole estimates that fit. */
  lemma RemainingPhotosFit(storageBytes: int, lowStorageThreshold: int, estimate: int)
    requires estimate > 0 && 0 <= storageBytes - lowStorageThreshold < estimate * 0x8000_0000
    ensures var r := RemainingPhotos(storageBytes, lowStorageThreshold, estimate);
      0 <= r && r * estimate <= storageBytes - lowStorageThreshold < (r + 1) * estimate
  {
    var free := storageBytes - lowStorageThreshold;
    var q := free / estimate;
    assert free == q * estimate + free % estimate;
    assert q < 0x8000_0000 by {
      if q >= 0x8000_0000 {
        Arith.MulLe(0x8000_0000, q, estimate);
      }
    }
  }

  // ----- setFlipValue -----

  /** At 90 and 270 degrees the horizontal and vertical flips trade places (codes 1 and 2). */
  function AdjustedFlip(rotation: int, value: int): (r: int)
  {
    if rotation == 90 || rotation == 270 then
      (if value == 1 then 2 else if value == 2 then 1 else value)
    else value
  }

  /** The swap rule: 1 and 2 exchange at 90 and 270 degrees; every other code, and every other rotation, is unchanged. */
  lemma AdjustedFlipCases(rotation: int, value: int)
    ensures (rotation == 90 || rotation == 270) && value == 1 ==> AdjustedFlip(rotation, value) == 2
    ensures (rotation == 90 || rotation == 270) && value == 2 ==> AdjustedFlip(rotation, value) == 1
    ensures value != 1 && value != 2 ==> AdjustedFlip(rotation, value) == value
    ensures rotation != 90 && rotation != 270 ==> AdjustedFlip(rotation, value) == value
  {
  }

  /** Adjusting twice restores the configured code. */
  lemma AdjustedFlipInvolutive(rotation: int, value: int)
    ensures AdjustedFlip(rotation, AdjustedFlip(rotation, value)) == value
  {
  }

  const KEY_QC_PREVIEW_FLIP: string := "preview-flip"
  const KEY_QC_VIDEO_FLIP: string := "video-flip"
  const KEY_QC_SNAPSHOT_PICTURE_FLIP: string := "snapshot-picture-flip"

  /** `CameraUtil.isSupported`: the name is in the supported list (a null list supports nothing). */
  predicate IsSupported(value: Option<string>, supported: Option<seq<string>>)
  {
    value.Some? && supported.Some? && value.value in supported.value
  }

  /** The parameters map after setting a flip key, when its mode is supported. */
  function SetIfSupported(params: map<string, string>, key: string, mode: Option<string>, supported: Option<seq<string>>): (r: map<string, string>)
    ensures IsSupported(mode, supported) ==> r == params[key := mode.value]
    ensures !IsSupported(mode, supported) ==> r == params
  {
    if IsSupported(mode, supported) then params[key := mode.value] else params
  }

  /**
   * `setFlipValue`: the three configured flip codes are adjusted for the JPEG
   * rotation, turned into mode names, and each supported one is stored under
   * its key in the camera parameters.
   */
  method SetFlipValue(previewFlip: int, videoFlip: int, pictureFlip: int, rotation: int,
                      supported: Option<seq<string>>, params: map<string, string>)
    returns (newParams: map<string, string>)
    ensures newParams ==
      SetIfSupported(SetIfSupported(SetIfSupported(params,
        KEY_QC_PREVIEW_FLIP, CameraUtil.FlipModeString(AdjustedFlip(rotation, previewFlip)), supported),
        KEY_QC_VIDEO_FLIP, CameraUtil.FlipModeString(AdjustedFlip(rotation, videoFlip)), supported),
        KEY_QC_SNAPSHOT_PICTURE_FLIP, CameraUtil.FlipModeString(AdjustedFlip(rotation, pictureFlip)), supported)
  {
    var preview := previewFlip;
    var video := videoFlip;
    var picture := pictureFlip;
    if rotation == 90 || rotation == 270 {
      if preview == 1 {
        preview := 2;
      } else if preview == 2 {
        preview := 1;
      }
      if video == 1 {
        video := 2;
      } else if video == 2 {
        video := 1;
      }
      if picture == 1 {
        picture := 2;
      } else if picture == 2 {
        picture := 1;
      }
    }
    newParams := params;
    var previewMode := CameraUtil.FlipModeString(preview);
    if IsSupported(previewMode, supported) {
      newParams := newParams[KEY_QC_PREVIEW_FLIP := previewMode.value];
    }
    var videoMode := CameraUtil.FlipModeString(video);
    if IsSupported(videoMode, supported) {
      newParams := newParams[KEY_QC_VIDEO_FLIP := videoMode.value];
    }
    var pictureMode := CameraUtil.FlipModeString(picture);
    if IsSupported(pictureMode, supported) {
      newParams := newParams[KEY_QC_SNAPSHOT_PICTURE_FLIP := pictureMode.value];
    }
  }

  /** A rotated horizontal flip is pushed to the driver as the vertical flip mode. */
  lemma RotatedFlipMode(rotation: int)
    requires rotation == 90 || rotation == 270
    ensures CameraUtil.FlipModeString(AdjustedFlip(rotation, 1)) == Some(CameraUtil.FLIP_MODE_V)
    ensures CameraUtil.FlipModeString(AdjustedFlip(rotation, 2)) == Some(CameraUtil.FLIP_MODE_H)
  {
  }

  // ----- setCameraParametersWhenIdle -----

  const UPDATE_PARAM_INITIALIZE: bv32 := 1
  const UPDATE_PARAM_ZOOM: bv32 := 2
  const UPDATE_PARAM_PREFERENCE: bv32 := 4
  /** -1: every bit set. */
  const UPDATE_PARAM_ALL: bv32 := 0xFFFF_FFFF

  /** The part of PhotoModule that batches parameter updates until the camera is idle. */
  class ParameterUpdates {
    /** `mUpdateSet`. */
    var updateSet: bv32
    /** `mRestartPreview`. */
    var restartPreview: bool
    /** The update sets passed to `setCameraParameters`, oldest first. */
    var applied: seq<bv32>
    /** Preview restarts done on the way. */
    var restarts: nat
    /** A delayed SET_CAMERA_PARAMETERS_WHEN_IDLE message is queued. */
    var messagePending: bool

    constructor()
      ensures updateSet == 0 && !restartPreview && applied == [] && restarts == 0 && !messagePending
    {
      updateSet := 0;
      restartPreview := false;
      applied := [];
      restarts := 0;
      messagePending := false;
    }

    /**
     * `setCameraParametersWhenIdle`: the requested bits are ORed in. With no
     * device they are dropped (the device will get everything when opened);
     * when idle the accumulated set is applied, the preview restarted if asked
     * and not stopped, and the set cleared; otherwise the bits wait and a
     * retry message is queued. Applying a set with the preference bit may ask
     * for a restart itself (a new picture or preview size): that answer is
     * preferenceRestarts.
     */
    method SetCameraParametersWhenIdle(additional: bv32, hasDevice: bool, idle: bool, previewStopped: bool,
                                       preferenceRestarts: bool)
      modifies this
      ensures !hasDevice ==>
        (updateSet == 0 && applied == old(applied) && restarts == old(restarts) &&
         restartPreview == old(restartPreview) && messagePending == old(messagePending))
      ensures hasDevice && idle ==>
        (updateSet == 0 && applied == old(applied) + [old(updateSet) | additional] &&
         !restartPreview && messagePending == old(messagePending) &&
         restarts == old(restarts) + (if RestartAsked(old(restartPreview), old(updateSet) | additional, preferenceRestarts)
                                         && !previewStopped then 1 else 0))
      ensures hasDevice && !idle ==>
        (updateSet == old(updateSet) | additional && messagePending &&
         applied == old(applied) && restarts == old(restarts) && restartPreview == old(restartPreview))
    {
      updateSet := updateSet | additional;
      if !hasDevice {
        updateSet := 0;
        return;
      } else if idle {
        applied := applied + [updateSet];
        restartPreview := RestartAsked(restartPreview, updateSet, preferenceRestarts);
        if restartPreview && !previewStopped {
          restarts := restarts + 1;
        }
        restartPreview := false;
        updateSet := 0;
      } else {
        if !messagePending {
          messagePending := true;
        }
      }
    }
  }

  /**
   * The restart flag after `setCameraParameters`: raised by the preference
   * update, which runs only when the set has the preference bit; otherwise
   * what it was.
   */
  function RestartAsked(before: bool, updateSet: bv32, preferenceRestarts: bool): bool {
    before || (updateSet & UPDATE_PARAM_PREFERENCE != 0 && preferenceRestarts)
  }

  /** Accumulating keeps every bit requested earlier and now. */
  lemma AccumulateKeepsBits(pending: bv32, additional: bv32)
    ensures (pending | additional) & additional == additional
    ensures (pending | additional) & pending == pending
    ensures pending | UPDATE_PARAM_ALL == UPDATE_PARAM_ALL
  {
  }
}
