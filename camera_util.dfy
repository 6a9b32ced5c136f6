// CameraUtil: orientation rounding, integer helpers, the photo preview frame
// rate choice, the time-string formatter and the image file namer.
module CameraUtil {
  import opened Bytes
  import opened Text

  const ORIENTATION_UNKNOWN: int := -1
  const ORIENTATION_HYSTERESIS: int := 5
  const MAX_PREVIEW_FPS_TIMES_1000: int := 400000
  const PREFERRED_PREVIEW_FPS_TIMES_1000: int := 30000

  function Abs(x: int): nat { if x < 0 then -x else x }

  /** The distance between two angles measured the short way round the circle. */
  function CircularDistance(a: int, b: int): int
  {
    var d := Abs(a - b);
    if d < 360 - d then d else 360 - d
  }

  /** The orientation rounded to the nearest multiple of 90 degrees. */
  function NearestQuadrant(orientation: int): int
  {
    JavaRem(JavaDiv(orientation + 45, 90) * 90, 360)
  }

  /**
   * `roundOrientation`: keeps the remembered orientation until the device has
   * turned at least 45 + hysteresis degrees away from it.
   */
  function RoundOrientation(orientation: int, history: int): (r: int)
    ensures (history != ORIENTATION_UNKNOWN
             && CircularDistance(orientation, history) < 45 + ORIENTATION_HYSTERESIS) ==> r == history
    ensures 0 <= orientation < 360
            && (history == ORIENTATION_UNKNOWN
                || CircularDistance(orientation, history) >= 45 + ORIENTATION_HYSTERESIS)
            ==> r in {0, 90, 180, 270} && CircularDistance(orientation, r) <= 45
  {
    var change := history == ORIENTATION_UNKNOWN
                  || CircularDistance(orientation, history) >= 45 + ORIENTATION_HYSTERESIS;
    if change then
      (QuadrantOf(orientation); NearestQuadrant(orientation))
    else history
  }

  lemma QuadrantOf(o: int)
    ensures 0 <= o < 360 ==> (NearestQuadrant(o) in {0, 90, 180, 270}
                              && CircularDistance(o, NearestQuadrant(o)) <= 45)
  {
    if 0 <= o < 360 {
      var q := (o + 45) / 90;
      assert JavaDiv(o + 45, 90) == q;
      assert 0 <= q <= 4;
      assert q * 90 <= o + 45 < q * 90 + 90;
      if q == 4 {
        assert NearestQuadrant(o) == 0;
      } else {
        assert NearestQuadrant(o) == q * 90;
      }
    }
  }

  /** Rounding again with the rounded value as history changes nothing. */
  lemma RoundOrientationIdempotent(orientation: int, history: int)
    requires 0 <= orientation < 360
    ensures RoundOrientation(orientation, RoundOrientation(orientation, history))
            == RoundOrientation(orientation, history)
  {
  }

  /** A power of two: 1, 2, 4, ... */
  predicate IsPow2(n: int)
    decreases n
  {
    if n <= 1 then n == 1 else n % 2 == 0 && IsPow2(n / 2)
  }

  /**
   * `nextPowerOf2` on a 32-bit word: smears the highest set bit of n - 1 into
   * every lower position, then adds one.
   */
  method NextPowerOf2(n: bv32) returns (r: bv32)
    requires 1 <= n <= 0x4000_0000
    ensures IsPow2(r as int)
    ensures n <= r < n + n
  {
    var x := n - 1;
    x := x | (x >> 16);
    x := x | (x >> 8);
    x := x | (x >> 4);
    x := x | (x >> 2);
    x := x | (x >> 1);
    SmearBits(n);
    r := x + 1;
    SingleBit(r);
  }

  /** The five smearing steps of `nextPowerOf2`, as one expression. */
  function Smeared(v: bv32): bv32
  {
    var a := v | (v >> 16);
    var b := a | (a >> 8);
    var c := b | (b >> 4);
    var d := c | (c >> 2);
    d | (d >> 1)
  }

  /** Smearing n - 1 and adding one leaves a single bit set, at or above n. */
  lemma SmearBits(n: bv32)
    requires 1 <= n <= 0x4000_0000
    ensures Smeared(n - 1) + 1 != 0 && (Smeared(n - 1) + 1) & Smeared(n - 1) == 0
    ensures n <= Smeared(n - 1) + 1 < n + n
  {
  }

  /** A word with a single set bit is a power of two. */
  lemma {:induction false} SingleBit(r: bv32)
    requires r != 0 && r & (r - 1) == 0
    ensures IsPow2(r as int)
    decreases r
  {
    if r != 1 {
      var z := r >> 1;
      assert z != 0 && z & (z - 1) == 0 && z < r;
      assert r == z + z;
      assert r as int == 2 * (z as int);
      SingleBit(z);
    }
  }

  /** `clamp` on ints. */
  function Clamp(x: int, min: int, max: int): (r: int)
    ensures min <= max ==> min <= r <= max
    ensures min <= x <= max ==> r == x
    ensures r == x || r == min || r == max
  {
    if x > max then max else if x < min then min else x
  }

  /**
   * `computeSampleSize`, given the initial sample size: sizes up to 8 are
   * rounded up to a power of two, larger ones up to a multiple of 8.
   */
  method ComputeSampleSize(initialSize: int) returns (roundedSize: int)
    ensures roundedSize >= 1 && roundedSize >= initialSize
    ensures initialSize <= 8 ==> IsPow2(roundedSize) && (roundedSize == 1 || roundedSize < 2 * initialSize)
    ensures initialSize > 8 ==> roundedSize % 8 == 0 && roundedSize < initialSize + 8
  {
    if initialSize <= 8 {
      roundedSize := 1;
      while roundedSize < initialSize
        invariant IsPow2(roundedSize) && 1 <= roundedSize
        invariant roundedSize == 1 || roundedSize < 2 * initialSize
        decreases initialSize - roundedSize
      {
        roundedSize := roundedSize * 2;
      }
    } else {
      roundedSize := (initialSize + 7) / 8 * 8;
    }
  }

  const FLIP_MODE_OFF: string := "off"
  const FLIP_MODE_V: string := "flip-v"
  const FLIP_MODE_H: string := "flip-h"
  const FLIP_MODE_VH: string := "flip-vh"

  /** `getFilpModeString`: the flip setting's name for flip codes 0..3; None otherwise. */
  function FlipModeString(value: int): (r: Option<string>)
    ensures r.Some? <==> 0 <= value <= 3
  {
    match value
    case 0 => Some(FLIP_MODE_OFF)
    case 1 => Some(FLIP_MODE_H)
    case 2 => Some(FLIP_MODE_V)
    case 3 => Some(FLIP_MODE_VH)
    case _ => None
  }

  /** The flip code a flip setting's name stands for: the inverse of FlipModeString. */
  function FlipModeValue(name: string): Option<int>
  {
    if name == FLIP_MODE_OFF then Some(0)
    else if name == FLIP_MODE_H then Some(1)
    else if name == FLIP_MODE_V then Some(2)
    else if name == FLIP_MODE_VH then Some(3)
    else None
  }

  /** Each flip code has its own name, and the name gives back the code. */
  lemma FlipModeRoundTrip(value: int)
    requires 0 <= value <= 3
    ensures FlipModeValue(FlipModeString(value).value) == Some(value)
  {
  }

  /** A supported preview frame-rate range, in frames per 1000 seconds. */
  datatype FpsRange = FpsRange(min: int, max: int)

  /** The range can run at the preferred 30 frames per second. */
  predicate Covers(r: FpsRange)
  {
    r.max >= PREFERRED_PREVIEW_FPS_TIMES_1000 && r.min <= PREFERRED_PREVIEW_FPS_TIMES_1000
  }

  /** The lowest minimum rate among the first k ranges that cover 30 fps, starting from the 400 fps cap. */
  ghost function LowestCoveringMin(rates: seq<FpsRange>, k: nat): (l: int)
    requires k <= |rates|
    ensures l <= MAX_PREVIEW_FPS_TIMES_1000
    ensures forall j :: 0 <= j < k && Covers(rates[j]) ==> l <= rates[j].min
    ensures l == MAX_PREVIEW_FPS_TIMES_1000 || exists j :: 0 <= j < k && Covers(rates[j]) && rates[j].min == l
  {
    if k == 0 then MAX_PREVIEW_FPS_TIMES_1000
    else
      var l := LowestCoveringMin(rates, k - 1);
      if Covers(rates[k - 1]) && rates[k - 1].min < l then rates[k - 1].min else l
  }

  /**
   * `getPhotoPreviewFpsRange`: the index of the first range whose minimum is
   * the lowest covering minimum and whose maximum is the highest among those;
   * None when the list is empty or no such range has a positive maximum.
   */
  method PhotoPreviewFpsRange(rates: seq<FpsRange>) returns (r: Option<nat>)
    ensures |rates| == 0 ==> r == None
    ensures r.Some? ==> r.value < |rates|
                        && rates[r.value].min == LowestCoveringMin(rates, |rates|)
                        && rates[r.value].max > 0
    ensures r.Some? ==> forall j :: (0 <= j < |rates| && rates[j].min == LowestCoveringMin(rates, |rates|))
                                    ==> (rates[j].max <= rates[r.value].max
                                         && (j < r.value ==> rates[j].max < rates[r.value].max))
    ensures r == None ==> forall j :: (0 <= j < |rates| && rates[j].min == LowestCoveringMin(rates, |rates|))
                                     ==> rates[j].max <= 0
  {
    if |rates| == 0 {
      return None;
    }
    var lowestMinRate := MAX_PREVIEW_FPS_TIMES_1000;
    for i := 0 to |rates|
      invariant lowestMinRate == LowestCoveringMin(rates, i)
    {
      var rate := rates[i];
      if rate.max >= PREFERRED_PREVIEW_FPS_TIMES_1000 && rate.min <= PREFERRED_PREVIEW_FPS_TIMES_1000
         && rate.min < lowestMinRate {
        lowestMinRate := rate.min;
      }
    }
    var resultIndex := -1;
    var highestMaxRate := 0;
    for i := 0 to |rates|
      invariant -1 <= resultIndex < i
      invariant resultIndex == -1 ==> highestMaxRate == 0
      invariant resultIndex >= 0 ==> rates[resultIndex].min == lowestMinRate
                                     && highestMaxRate == rates[resultIndex].max > 0
      invariant forall j :: 0 <= j < i && rates[j].min == lowestMinRate ==> rates[j].max <= highestMaxRate
      invariant forall j :: 0 <= j < resultIndex && rates[j].min == lowestMinRate ==> rates[j].max < highestMaxRate
    {
      var rate := rates[i];
      if rate.min == lowestMinRate && highestMaxRate < rate.max {
        highestMaxRate := rate.max;
        resultIndex := i;
      }
    }
    if resultIndex >= 0 {
      return Some(resultIndex);
    }
    return None;
  }

  /** When some range covers 30 fps, a range is chosen and it covers 30 fps too. */
  lemma ChosenRangeCovers(rates: seq<FpsRange>, chosen: nat, j: nat)
    requires j < |rates| && Covers(rates[j])
    requires chosen < |rates| && rates[chosen].min == LowestCoveringMin(rates, |rates|)
    requires forall i :: 0 <= i < |rates| && rates[i].min == LowestCoveringMin(rates, |rates|)
                         ==> rates[i].max <= rates[chosen].max
    ensures Covers(rates[chosen])
  {
    var l := LowestCoveringMin(rates, |rates|);
    assert l <= rates[j].min <= PREFERRED_PREVIEW_FPS_TIMES_1000;
    var w :| 0 <= w < |rates| && Covers(rates[w]) && rates[w].min == l;
    assert rates[w].max <= rates[chosen].max;
  }

  /** A field written with at least two digits, with a leading zero below 10. */
  function Pad2(v: nat): (s: string)
    ensures AllDigits(s) && |s| >= 2
    ensures v < 100 ==> |s| == 2
  {
    if v < 10 then "0" + DecimalString(v) else DecimalString(v)
  }

  /** A padded field reads back as its value. */
  lemma Pad2Value(v: nat)
    ensures DigitsValue(Pad2(v)) == v
  {
    DecimalRoundTrip(v);
    if v < 10 {
      var s := Pad2(v);
      assert s[..|s| - 1] == "0";
    }
  }

  function Hours(ms: nat): nat { ms / 1000 / 60 / 60 }
  function Minutes(ms: nat): nat { ms / 1000 / 60 % 60 }
  function Seconds(ms: nat): nat { ms / 1000 % 60 }
  function Centis(ms: nat): nat { ms % 1000 / 10 }

  /** The fields recompose the duration, down to the millisecond dropped by centiseconds. */
  lemma TimeFields(ms: nat)
    ensures Minutes(ms) < 60 && Seconds(ms) < 60 && Centis(ms) < 100
    ensures ms == ((Hours(ms) * 60 + Minutes(ms)) * 60 + Seconds(ms)) * 1000 + Centis(ms) * 10 + ms % 10
  {
    var sec := ms / 1000;
    var min := sec / 60;
    assert ms == sec * 1000 + ms % 1000;
    assert sec == min * 60 + sec % 60;
    assert min == (min / 60) * 60 + min % 60;
    assert ms % 1000 == (ms % 1000 / 10) * 10 + ms % 1000 % 10;
    assert ms % 1000 % 10 == ms % 10;
  }

  /**
   * `millisecondToTimeString`: [HH:]MM:SS[.CC], the hours field only when
   * there are hours, every field padded to two digits.
   */
  method MillisecondToTimeString(milliSeconds: nat, displayCentiSeconds: bool) returns (s: string)
    ensures s == (if Hours(milliSeconds) > 0 then Pad2(Hours(milliSeconds)) + ":" else "")
                 + Pad2(Minutes(milliSeconds)) + ":" + Pad2(Seconds(milliSeconds))
                 + (if displayCentiSeconds then "." + Pad2(Centis(milliSeconds)) else "")
  {
    var seconds := milliSeconds / 1000;
    var minutes := seconds / 60;
    var hours := minutes / 60;
    var remainderMinutes := minutes - hours * 60;
    var remainderSeconds := seconds - minutes * 60;
    Remainders(milliSeconds);
    s := "";
    if hours > 0 {
      s := AppendField(s, hours);
      s := s + ":";
    }
    ghost var head := s;
    assert head == (if Hours(milliSeconds) > 0 then Pad2(Hours(milliSeconds)) + ":" else "");
    s := AppendField(s, remainderMinutes);
    s := s + ":";
    s := AppendField(s, remainderSeconds);
    ghost var body := s;
    assert body == head + Pad2(Minutes(milliSeconds)) + ":" + Pad2(Seconds(milliSeconds));
    if displayCentiSeconds {
      s := s + ".";
      var remainderCentiSeconds := (milliSeconds - seconds * 1000) / 10;
      s := AppendField(s, remainderCentiSeconds);
      assert s == body + ("." + Pad2(Centis(milliSeconds)));
    } else {
      assert s == body + "";
    }
  }

  /** One field of the time string: a leading zero below 10, then the value's digits. */
  method AppendField(s: string, v: nat) returns (t: string)
    ensures t == s + Pad2(v)
  {
    t := s;
    if v < 10 {
      t := t + "0";
    }
    t := t + DecimalString(v);
  }

  /** The remainders `millisecondToTimeString` computes by subtraction are the fields. */
  lemma Remainders(ms: nat)
    ensures Hours(ms) == ms / 1000 / 60 / 60
    ensures ms / 1000 / 60 - ms / 1000 / 60 / 60 * 60 == Minutes(ms)
    ensures ms / 1000 - ms / 1000 / 60 * 60 == Seconds(ms)
    ensures (ms - ms / 1000 * 1000) / 10 == Centis(ms)
  {
    var sec := ms / 1000;
    var min := sec / 60;
    assert ms == sec * 1000 + ms % 1000;
    assert sec == min * 60 + sec % 60;
    assert min == (min / 60) * 60 + min % 60;
  }

  const REFOCUS_DEPTHMAP_IDX: int := 5
  const REFOCUS_ALLFOCUS_IDX: int := 6

  /** The suffix a refocus shot's name gets at each position of the seven-shot cycle. */
  function RefocusSuffix(idx: int): string
  {
    if idx == REFOCUS_DEPTHMAP_IDX then "_DepthMap"
    else if idx == REFOCUS_ALLFOCUS_IDX then "_Allfocus"
    else "_" + IntString(idx)
  }

  /** The namer's fields, as a value. */
  datatype NamerState = NamerState(refocusIdx: int, lastDate: int, sameSecondCount: int)

  /** One `generateName` call: the suffix added to the formatted date, and the namer's next fields. */
  function NameStep(st: NamerState, dateTaken: int, refocus: bool): (r: (string, NamerState))
    ensures refocus ==> r.1.lastDate == st.lastDate && r.1.sameSecondCount == st.sameSecondCount
    ensures !refocus ==> r.1.refocusIdx == st.refocusIdx
  {
    if refocus then
      if st.refocusIdx == REFOCUS_DEPTHMAP_IDX then (RefocusSuffix(st.refocusIdx), st.(refocusIdx := st.refocusIdx + 1))
      else if st.refocusIdx == REFOCUS_ALLFOCUS_IDX then (RefocusSuffix(st.refocusIdx), st.(refocusIdx := 0))
      else (RefocusSuffix(st.refocusIdx), st.(refocusIdx := st.refocusIdx + 1))
    else if JavaDiv(dateTaken, 1000) == JavaDiv(st.lastDate, 1000) then
      ("_" + IntString(st.sameSecondCount + 1), st.(sameSecondCount := st.sameSecondCount + 1))
    else
      ("", st.(lastDate := dateTaken, sameSecondCount := 0))
  }

  /** Seven refocus names from the start of the cycle: _0 to _4, _DepthMap, _Allfocus, and back to the start. */
  lemma RefocusCycle(st: NamerState, d: seq<int>)
    requires st.refocusIdx == 0 && |d| == 7
    ensures var s1 := NameStep(st, d[0], true);
            var s2 := NameStep(s1.1, d[1], true);
            var s3 := NameStep(s2.1, d[2], true);
            var s4 := NameStep(s3.1, d[3], true);
            var s5 := NameStep(s4.1, d[4], true);
            var s6 := NameStep(s5.1, d[5], true);
            var s7 := NameStep(s6.1, d[6], true);
            [s1.0, s2.0, s3.0, s4.0, s5.0, s6.0, s7.0] == ["_0", "_1", "_2", "_3", "_4", "_DepthMap", "_Allfocus"]
            && s7.1 == st
  {
    assert IntString(0) == "0" && IntString(1) == "1" && IntString(2) == "2";
    assert IntString(3) == "3" && IntString(4) == "4";
    var s1 := NameStep(st, d[0], true);
    assert s1.0 == "_0" && s1.1.refocusIdx == 1;
    var s2 := NameStep(s1.1, d[1], true);
    assert s2.0 == "_1" && s2.1.refocusIdx == 2;
    var s3 := NameStep(s2.1, d[2], true);
    assert s3.0 == "_2" && s3.1.refocusIdx == 3;
    var s4 := NameStep(s3.1, d[3], true);
    assert s4.0 == "_3" && s4.1.refocusIdx == 4;
    var s5 := NameStep(s4.1, d[4], true);
    assert s5.0 == "_4" && s5.1.refocusIdx == 5;
    var s6 := NameStep(s5.1, d[5], true);
    assert s6.0 == "_DepthMap" && s6.1.refocusIdx == 6;
    var s7 := NameStep(s6.1, d[6], true);
    assert s7.0 == "_Allfocus" && s7.1 == st;
  }

  /**
   * Plain names taken within one second: the first starts the second with no
   * suffix, and the following k names get _1 .. _k.
   */
  lemma {:induction false} SameSecondNames(st: NamerState, first: int, later: seq<int>, k: nat)
    requires JavaDiv(first, 1000) != JavaDiv(st.lastDate, 1000)
    requires k <= |later|
    requires forall i :: 0 <= i < |later| ==> JavaDiv(later[i], 1000) == JavaDiv(first, 1000)
    ensures NameStep(st, first, false).0 == ""
    ensures PlainNames(NameStep(st, first, false).1, later, k).1.sameSecondCount == k
    ensures forall i :: 0 <= i < k ==> PlainNames(NameStep(st, first, false).1, later, k).0[i] == "_" + IntString(i + 1)
    ensures PlainNames(NameStep(st, first, false).1, later, k).1.lastDate == first
  {
    SameSecondRun(NameStep(st, first, false).1, first, later, k);
  }

  /** From a namer that last saw `first` with no name yet in its second, k later names of that second get _1 .. _k. */
  lemma {:induction false} SameSecondRun(s0: NamerState, first: int, later: seq<int>, k: nat)
    requires s0.lastDate == first && s0.sameSecondCount == 0 && k <= |later|
    requires forall i :: 0 <= i < |later| ==> JavaDiv(later[i], 1000) == JavaDiv(first, 1000)
    ensures PlainNames(s0, later, k).1.sameSecondCount == k && PlainNames(s0, later, k).1.lastDate == first
    ensures forall i :: 0 <= i < k ==> PlainNames(s0, later, k).0[i] == "_" + IntString(i + 1)
  {
    if k > 0 {
      SameSecondRun(s0, first, later, k - 1);
      var prev := PlainNames(s0, later, k - 1);
      var step := NameStep(prev.1, later[k - 1], false);
      assert JavaDiv(later[k - 1], 1000) == JavaDiv(prev.1.lastDate, 1000);
      assert step == ("_" + IntString(k), prev.1.(sameSecondCount := k));
      var r := PlainNames(s0, later, k);
      assert r == (prev.0 + [step.0], step.1);
      forall i | 0 <= i < k
        ensures r.0[i] == "_" + IntString(i + 1)
      {
        if i < k - 1 {
          assert r.0[i] == prev.0[i];
        }
      }
    }
  }

  /** The suffixes and final fields after plain names for the first k dates. */
  function PlainNames(st: NamerState, dates: seq<int>, k: nat): (r: (seq<string>, NamerState))
    requires k <= |dates|
    ensures |r.0| == k
    decreases k
  {
    if k == 0 then ([], st)
    else
      var prev := PlainNames(st, dates, k - 1);
      var step := NameStep(prev.1, dates[k - 1], false);
      (prev.0 + [step.0], step.1)
  }

  /** `ImageFileNamer`: generates file names from a formatted capture date. */
  class ImageFileNamer {
    var refocusIdx: int
    var lastDate: int
    var sameSecondCount: int

    function State(): NamerState
      reads this
    {
      NamerState(refocusIdx, lastDate, sameSecondCount)
    }

    constructor()
      ensures State() == NamerState(0, 0, 0)
    {
      refocusIdx := 0;
      lastDate := 0;
      sameSecondCount := 0;
    }

    /**
     * `generateName`: `formatted` is the capture date through the namer's
     * date format; the name is that text plus the step's suffix.
     */
    method GenerateName(formatted: string, dateTaken: int, refocus: bool) returns (result: string)
      modifies this
      ensures result == formatted + NameStep(old(State()), dateTaken, refocus).0
      ensures State() == NameStep(old(State()), dateTaken, refocus).1
    {
      ghost var st := State();
      ghost var step := NameStep(st, dateTaken, refocus);
      result := formatted;
      if refocus {
        if refocusIdx == REFOCUS_DEPTHMAP_IDX {
          result := result + "_" + "DepthMap";
          refocusIdx := refocusIdx + 1;
          assert step.0 == "_DepthMap";
        } else if refocusIdx == REFOCUS_ALLFOCUS_IDX {
          result := result + "_" + "Allfocus";
          refocusIdx := 0;
          assert step.0 == "_Allfocus";
        } else {
          assert step.0 == "_" + IntString(refocusIdx);
          result := result + "_" + IntString(refocusIdx);
          refocusIdx := refocusIdx + 1;
        }
      } else {
        if JavaDiv(dateTaken, 1000) == JavaDiv(lastDate, 1000) {
          sameSecondCount := sameSecondCount + 1;
          result := result + "_" + IntString(sameSecondCount);
        } else {
          lastDate := dateTaken;
          sameSecondCount := 0;
        }
      }
    }
  }
}
