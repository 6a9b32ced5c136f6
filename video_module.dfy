// VideoModule: the encoder tables with a default value, the high-speed bit
// rate choice, the duration setting, the flip codes and the preview/recorder
// pending flags.
module VideoModule {
  import opened Bytes
  import opened Text
  import CameraUtil
  import PhotoModule
  import Arith

  // ----- DefaultHashMap -----

  /** `DefaultHashMap`: a map answering a settable default for absent keys. */
  class DefaultHashMap<K(==), V(==)> {
    var contents: map<K, V>
    /** `mDefaultValue`: None until `putDefault` is called (null). */
    var defaultValue: Option<V>

    constructor()
      ensures contents == map[] && defaultValue == None
    {
      contents := map[];
      defaultValue := None;
    }

    method Put(key: K, value: V)
      modifies this
      ensures contents == old(contents)[key := value] && defaultValue == old(defaultValue)
    {
      contents := contents[key := value];
    }

    /** `putDefault`. */
    method PutDefault(value: V)
      modifies this
      ensures defaultValue == Some(value) && contents == old(contents)
    {
      defaultValue := Some(value);
    }

    /** `get`: the stored value, or the default for a key that is absent. */
    function Get(key: K): (r: Option<V>)
      reads this
      ensures key in contents ==> r == Some(contents[key])
      ensures key !in contents ==> r == defaultValue
    {
      if key in contents then Some(contents[key]) else defaultValue
    }

    /**
     * `getKey`: walks the keys (in the map's own order, which is not
     * specified) and answers the first one whose value equals `toCheck`, or
     * None (null) when no key has that value.
     */
    method GetKey(toCheck: V) returns (key: Option<K>)
      ensures key.Some? ==> key.value in contents && contents[key.value] == toCheck
      ensures key.None? <==> forall k :: k in contents ==> contents[k] != toCheck
    {
      var remaining := contents.Keys;
      while remaining != {}
        invariant remaining <= contents.Keys
        invariant forall k :: k in contents && k !in remaining ==> contents[k] != toCheck
        decreases remaining
      {
        var k :| k in remaining;
        var val := Get(k);
        if val == Some(toCheck) {
          return Some(k);
        }
        remaining := remaining - {k};
      }
      key := None;
    }
  }

  // ----- getHighSpeedVideoEncoderBitRate -----

  /** The table key: "<width>x<height>:<rate>". */
  function BitRateKey(width: int, height: int, targetRate: int): string
  {
    IntString(width) + "x" + IntString(height) + ":" + IntString(targetRate)
  }

  /**
   * `getHighSpeedVideoEncoderBitRate`: the bit rate listed for the frame size
   * and target rate, or else the profile's bit rate times the whole number of
   * profile frame rates in the target rate, in 32-bit arithmetic.
   */
  function HighSpeedVideoEncoderBitRate(frameWidth: int, frameHeight: int, frameRate: int, videoBitRate: int,
                                        targetRate: int, table: map<string, int>): (bitRate: int)
    requires frameRate != 0
    ensures BitRateKey(frameWidth, frameHeight, targetRate) in table ==>
      bitRate == table[BitRateKey(frameWidth, frameHeight, targetRate)]
    ensures BitRateKey(frameWidth, frameHeight, targetRate) !in table ==>
      bitRate == Int32(videoBitRate * JavaDiv(targetRate, frameRate))
  {
    var key := BitRateKey(frameWidth, frameHeight, targetRate);
    if key in table then table[key] else Int32(videoBitRate * JavaDiv(targetRate, frameRate))
  }

  /** Without a table entry a target rate that is k profile frame rates scales the profile's rate by k. */
  lemma BitRateScales(frameWidth: int, frameHeight: int, frameRate: int, videoBitRate: int, k: nat, table: map<string, int>)
    requires frameRate > 0 && BitRateKey(frameWidth, frameHeight, k * frameRate) !in table
    requires IsInt32(videoBitRate * k)
    ensures HighSpeedVideoEncoderBitRate(frameWidth, frameHeight, frameRate, videoBitRate, k * frameRate, table)
         == videoBitRate * k
  {
    Arith.MulDiv(k, frameRate);
    assert k * frameRate == frameRate * k;
  }

  /** Without a table entry a target rate below the profile's frame rate gets bit rate 0. */
  lemma BitRateBelowFrameRate(frameWidth: int, frameHeight: int, frameRate: int, videoBitRate: int,
                              targetRate: int, table: map<string, int>)
    requires 0 <= targetRate < frameRate && BitRateKey(frameWidth, frameHeight, targetRate) !in table
    ensures HighSpeedVideoEncoderBitRate(frameWidth, frameHeight, frameRate, videoBitRate, targetRate, table) == 0
  {
    Arith.DivModOf(0, targetRate, frameRate);
    assert JavaDiv(targetRate, frameRate) == 0;
  }

  lemma DigitsFree(s: string, c: char)
    requires AllDigits(s) && !IsDigit(c)
    ensures forall j :: 0 <= j < |s| ==> s[j] != c
  {
  }

  /** "a<sep>b" with neither part holding the separator splits into exactly those two parts. */
  lemma TwoPieces(a: string, sep: char, b: string)
    requires forall j :: 0 <= j < |a| ==> a[j] != sep
    requires forall j :: 0 <= j < |b| ==> b[j] != sep
    ensures Pieces(a + [sep] + b, sep) == [a, b]
  {
    PiecesCons(a, sep, b);
    PiecesNone(b, sep);
  }

  /** A key splits at its 'x' and then at its ':' into the three numbers' texts. */
  lemma KeyPieces(w: nat, h: nat, r: nat)
    ensures Pieces(BitRateKey(w, h, r), 'x') == [DecimalString(w), DecimalString(h) + [':'] + DecimalString(r)]
    ensures Pieces(DecimalString(h) + [':'] + DecimalString(r), ':') == [DecimalString(h), DecimalString(r)]
  {
    var a, b, c := DecimalString(w), DecimalString(h), DecimalString(r);
    DigitsFree(a, 'x'); DigitsFree(b, 'x'); DigitsFree(c, 'x');
    DigitsFree(b, ':'); DigitsFree(c, ':');
    var tail := b + [':'] + c;
    assert forall j :: 0 <= j < |tail| ==> tail[j] != 'x';
    assert BitRateKey(w, h, r) == a + ['x'] + tail;
    TwoPieces(a, 'x', tail);
    TwoPieces(b, ':', c);
  }

  /** Distinct frame sizes and rates have distinct table keys, so a listed rate is never used for another mode. */
  lemma BitRateKeyInjective(w: nat, h: nat, r: nat, w': nat, h': nat, r': nat)
    requires BitRateKey(w, h, r) == BitRateKey(w', h', r')
    ensures w == w' && h == h' && r == r'
  {
    KeyPieces(w, h, r);
    KeyPieces(w', h', r');
    DecimalRoundTrip(w); DecimalRoundTrip(h); DecimalRoundTrip(r);
    DecimalRoundTrip(w'); DecimalRoundTrip(h'); DecimalRoundTrip(r');
  }

  // ----- isDigit -----

  /** `isDigit`: the whole string matches [1-9][0-9]*. */
  predicate IsDigitString(input: string)
  {
    |input| >= 1 && '1' <= input[0] <= '9' && AllDigits(input[1..])
  }

  /** A digit string without a leading zero denotes at least 1. */
  lemma {:induction false} DigitsPositive(s: string)
    requires |s| >= 1 && AllDigits(s) && s[0] != '0'
    ensures DigitsValue(s) >= 1
    decreases |s|
  {
    if |s| > 1 {
      DigitsPositive(s[..|s| - 1]);
    }
  }

  /** A digit string without a leading zero is the decimal text of its value. */
  lemma {:induction false} CanonicalDigits(s: string)
    requires |s| >= 1 && AllDigits(s) && s[0] != '0'
    ensures DecimalString(DigitsValue(s)) == s
    decreases |s|
  {
    var n := DigitsValue(s);
    var d := s[|s| - 1] as int - '0' as int;
    if |s| == 1 {
      assert s[..|s| - 1] == [];
      assert DigitsValue(s[..|s| - 1]) == 0;
    } else {
      var init := s[..|s| - 1];
      CanonicalDigits(init);
      DigitsPositive(init);
      assert n == DigitsValue(init) * 10 + d;
      assert n / 10 == DigitsValue(init) && n % 10 == d;
      assert s == init + [s[|s| - 1]];
    }
  }

  /** `isDigit` accepts exactly the decimal texts of the positive numbers. */
  lemma IsDigitStringExactly(input: string)
    ensures IsDigitString(input) <==> exists n: nat :: n >= 1 && input == DecimalString(n)
  {
    if IsDigitString(input) {
      assert AllDigits(input);
      CanonicalDigits(input);
      DigitsPositive(input);
      var n := DigitsValue(input);
      assert n >= 1 && input == DecimalString(n);
    }
    if exists n: nat :: n >= 1 && input == DecimalString(n) {
      var n: nat :| n >= 1 && input == DecimalString(n);
      assert input[0] != '0';
      assert AllDigits(input);
    }
  }

  // ----- qcomReadVideoPreferences: the duration -----

  /** The duration setting in minutes: the stored string, or the default setting when it is not a number. */
  function DurationMinutes(stored: string, defaultMinutes: int): (minutes: int)
    ensures ParseInt(stored).Some? ==> minutes == ParseInt(stored).value
    ensures ParseInt(stored).None? ==> minutes == defaultMinutes
  {
    match ParseInt(stored)
    case Some(m) => m
    case None => defaultMinutes
  }

  /** `mMaxVideoDurationInMs`: 30 seconds for the "lowest" setting -1, else the minutes in milliseconds (32-bit). */
  function MaxVideoDurationInMs(minutes: int): (ms: int)
    ensures minutes == -1 ==> ms == 30000
    ensures IsInt32(ms)
  {
    if minutes == -1 then 30000 else Int32(60000 * minutes)
  }

  /** Every duration that fits in an int is the exact number of minutes, and reads back as them. */
  lemma DurationExact(minutes: int)
    requires 0 <= minutes <= 35791
    ensures MaxVideoDurationInMs(minutes) == 60000 * minutes
    ensures MaxVideoDurationInMs(minutes) / 60000 == minutes
  {
    Arith.MulDiv(minutes, 60000);
  }

  // ----- setFlipValue -----

  /** Adjusting for rotation never turns a flip on or off. */
  lemma AdjustedFlipZero(rotation: int, value: int)
    ensures PhotoModule.AdjustedFlip(rotation, value) != 0 <==> value != 0
  {
  }

  /**
   * `setFlipValue` of the video module: the photo module's rule for the three
   * codes, after which flipping is enabled exactly when some adjusted code is
   * not 0.
   */
  method SetFlipValue(previewFlip: int, videoFlip: int, pictureFlip: int, rotation: int,
                      supported: Option<seq<string>>, params: map<string, string>)
    returns (newParams: map<string, string>, isFlipEnabled: bool)
    ensures newParams ==
      PhotoModule.SetIfSupported(PhotoModule.SetIfSupported(PhotoModule.SetIfSupported(params,
        PhotoModule.KEY_QC_PREVIEW_FLIP, CameraUtil.FlipModeString(PhotoModule.AdjustedFlip(rotation, previewFlip)), supported),
        PhotoModule.KEY_QC_VIDEO_FLIP, CameraUtil.FlipModeString(PhotoModule.AdjustedFlip(rotation, videoFlip)), supported),
        PhotoModule.KEY_QC_SNAPSHOT_PICTURE_FLIP, CameraUtil.FlipModeString(PhotoModule.AdjustedFlip(rotation, pictureFlip)), supported)
    ensures isFlipEnabled <==> previewFlip != 0 || videoFlip != 0 || pictureFlip != 0
  {
    newParams := PhotoModule.SetFlipValue(previewFlip, videoFlip, pictureFlip, rotation, supported, params);
    var preview := PhotoModule.AdjustedFlip(rotation, previewFlip);
    var video := PhotoModule.AdjustedFlip(rotation, videoFlip);
    var picture := PhotoModule.AdjustedFlip(rotation, pictureFlip);
    AdjustedFlipZero(rotation, previewFlip);
    AdjustedFlipZero(rotation, videoFlip);
    AdjustedFlipZero(rotation, pictureFlip);
    if preview != 0 || video != 0 || picture != 0 {
      isFlipEnabled := true;
    } else {
      isFlipEnabled := false;
    }
  }

  // ----- pending flags -----

  /** The module's preview and recording flags. */
  class Recorder {
    var startPrevPending: bool
    var stopPrevPending: bool
    var startRecPending: bool
    var stopRecPending: bool
    var previewing: bool

    constructor()
      ensures !startPrevPending && !stopPrevPending && !startRecPending && !stopRecPending && !previewing
    {
      startPrevPending := false;
      stopPrevPending := false;
      startRecPending := false;
      stopRecPending := false;
      previewing := false;
    }

    /** `isPreviewReady`: no preview start or stop is under way. */
    function IsPreviewReady(): (ready: bool)
      reads this
      ensures ready <==> !startPrevPending && !stopPrevPending
    {
      if startPrevPending || stopPrevPending then false else true
    }

    /** `isRecorderReady`: no recording start or stop is under way. */
    function IsRecorderReady(): (ready: bool)
      reads this
      ensures ready <==> !startRecPending && !stopRecPending
    {
      if startRecPending || stopRecPending then false else true
    }

    /** `stopPreview`: a running preview is stopped; the flag is raised for the call only. */
    method StopPreview()
      modifies this
      ensures !previewing && !stopPrevPending
      ensures startPrevPending == old(startPrevPending)
      ensures startRecPending == old(startRecPending) && stopRecPending == old(stopRecPending)
    {
      stopPrevPending := true;
      if !previewing {
        stopPrevPending := false;
        return;
      }
      previewing := false;
      stopPrevPending := false;
    }

    /**
     * `startPreview`: `canStart` is "preferences read, not paused and a device
     * open"; `deviceFails` is the device throwing, after which the camera is
     * closed and the exception propagates with the start flag still raised.
     */
    method StartPreview(canStart: bool, deviceFails: bool) returns (thrown: bool)
      modifies this
      ensures thrown <==> canStart && deviceFails
      ensures !canStart ==> previewing == old(previewing) && !startPrevPending
      ensures canStart && !deviceFails ==> previewing && !startPrevPending
      ensures canStart && deviceFails ==> !previewing && startPrevPending
      ensures canStart && old(previewing) ==> !stopPrevPending
      ensures !(canStart && old(previewing)) ==> stopPrevPending == old(stopPrevPending)
      ensures startRecPending == old(startRecPending) && stopRecPending == old(stopRecPending)
    {
      startPrevPending := true;
      if !canStart {
        startPrevPending := false;
        return false;
      }
      if previewing {
        StopPreview();
      }
      if deviceFails {
        previewing := false;
        return true;
      }
      previewing := true;
      startPrevPending := false;
      thrown := false;
    }
  }
}
