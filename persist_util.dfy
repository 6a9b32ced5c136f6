// The camera's persisted system properties (src/com/android/camera/util/PersistUtil.java).
// Every property is read once, when the class loads, with its default when it
// is unset; the record below holds those reads and the getters derive their
// answers from it.
module PersistUtil {
  import opened Bytes
  import opened Text

  const CAMERA_SENSOR_HORIZONTAL_ALIGNED: int := 0
  const CAMERA_SENSOR_VERTICAL_ALIGNED: int := 1

  /**
   * The values `SystemProperties.getInt/getBoolean/get` returned at class
   * load. The three stillmore strings and the two dual-camera strings are
   * held as the numbers `Float.parseFloat` makes of them.
   */
  datatype Props = Props(
    memoryLimit: int, skipMemoryCheck: bool, longshotShotLimit: int,
    previewSize: string, camera2: bool, zslDisabled: bool,
    cancelTouchFocusDelay: int, debug: int,
    stillmoreBrColor: real, stillmoreBrIntensity: real, stillmoreSmoothing: real,
    stillmoreNumImages: int, dualBrIntensity: real, dualSmoothing: real,
    sensorAlign: int)

  /** The properties of a device that sets none of them: every default. */
  function Defaults(): Props {
    Props(60, false, 50, "", false, false, 5000, 0, 0.5, 0.6, 0.0, 5, 0.0, 0.5,
      CAMERA_SENSOR_HORIZONTAL_ALIGNED)
  }

  /** `getStillmoreNumRequiredImages`: the configured count when it is 3, 4 or 5, otherwise 5. */
  function StillmoreNumRequiredImages(p: Props): (n: int)
    ensures 3 <= n <= 5
    ensures 3 <= p.stillmoreNumImages <= 5 ==> n == p.stillmoreNumImages
    ensures !(3 <= p.stillmoreNumImages <= 5) ==> n == 5
  {
    if p.stillmoreNumImages < 3 || p.stillmoreNumImages > 5 then 5 else p.stillmoreNumImages
  }

  /** A configured fraction, or the fallback when it lies outside [0, 1]. */
  function Fraction(v: real, fallback: real): (r: real)
    requires 0.0 <= fallback <= 1.0
    ensures 0.0 <= r <= 1.0
    ensures 0.0 <= v <= 1.0 ==> r == v
    ensures !(0.0 <= v <= 1.0) ==> r == fallback
  {
    if v < 0.0 || v > 1.0 then fallback else v
  }

  /** `getStillmoreBrColor`, `getStillmoreBrIntensity`, `getStillmoreSmoothingIntensity`. */
  function StillmoreBrColor(p: Props): (r: real)
    ensures 0.0 <= r <= 1.0
  {
    Fraction(p.stillmoreBrColor, 0.5)
  }

  function StillmoreBrIntensity(p: Props): (r: real)
    ensures 0.0 <= r <= 1.0
  {
    Fraction(p.stillmoreBrIntensity, 0.6)
  }

  function StillmoreSmoothingIntensity(p: Props): (r: real)
    ensures 0.0 <= r <= 1.0
  {
    Fraction(p.stillmoreSmoothing, 0.0)
  }

  /** `getDualCameraSensorAlign`: vertical alignment is the value 1 and nothing else. */
  function DualCameraSensorAlign(p: Props): (vertical: bool)
    ensures vertical <==> p.sensorAlign == 1
  {
    p.sensorAlign == CAMERA_SENSOR_VERTICAL_ALIGNED
  }

  datatype Point = Point(x: int, y: int)

  /** A preview size: none (`null`), a point, or the NumberFormatException `Integer.parseInt` throws. */
  datatype PreviewSize = NoSize | SizeOf(p: Point) | BadNumber

  /**
   * `getCameraPreviewSize`: the property split at 'x'; with at least two
   * pieces, the first two are parsed as the width and the height and the
   * rest is ignored.
   */
  function CameraPreviewSize(p: Props): (r: PreviewSize)
    ensures r.NoSize? <==> |Split(p.previewSize, 'x')| < 2
    ensures r.SizeOf? ==> var parts := Split(p.previewSize, 'x');
      ParseInt(parts[0]) == Some(r.p.x) && ParseInt(parts[1]) == Some(r.p.y)
  {
    var parts := Split(p.previewSize, 'x');
    if |parts| < 2 then NoSize
    else match (ParseInt(parts[0]), ParseInt(parts[1]))
      case (Some(w), Some(h)) => SizeOf(Point(w, h))
      case _ => BadNumber
  }

  /** A string without 'x', the default empty one among them, gives no size. */
  lemma NoSeparatorNoSize(p: Props)
    requires 'x' !in p.previewSize
    ensures CameraPreviewSize(p) == NoSize
  {
    assert Split(p.previewSize, 'x') == [p.previewSize];
  }

  /** No number's decimal text contains 'x'. */
  lemma NumberHasNoX(i: int)
    ensures forall j :: 0 <= j < |IntString(i)| ==> IntString(i)[j] != 'x'
  {
    var s := IntString(i);
    if i < 0 {
      var d := DecimalString(-i);
      assert s == "-" + d;
      assert forall j :: 1 <= j < |s| ==> s[j] == d[j - 1];
    }
  }

  /** Two x-free pieces joined by 'x', then an optional tail starting with 'x': the split starts with the two pieces. */
  lemma SplitTwo(a: string, b: string, tail: string)
    requires forall j :: 0 <= j < |a| ==> a[j] != 'x'
    requires forall j :: 0 <= j < |b| ==> b[j] != 'x'
    requires b != ""
    requires tail == "" || tail[0] == 'x'
    ensures var parts := Split(a + "x" + b + tail, 'x'); |parts| >= 2 && parts[0] == a && parts[1] == b
  {
    var s := a + "x" + b + tail;
    assert s[|a|] == 'x';
    if tail == "" {
      assert s == a + "x" + b;
      PiecesNone(b, 'x');
      PiecesCons(a, 'x', b);
      assert Pieces(s, 'x') == [a, b];
    } else {
      var rest := tail[1..];
      assert tail == "x" + rest;
      assert b + tail == b + "x" + rest;
      PiecesCons(b, 'x', rest);
      assert s == a + "x" + (b + "x" + rest);
      PiecesCons(a, 'x', b + "x" + rest);
      assert Pieces(s, 'x') == [a] + ([b] + Pieces(rest, 'x'));
    }
    var ps := Pieces(s, 'x');
    var r := DropTrailingEmpty(ps);
    assert ps[1] == b;
    assert |r| >= 2;
  }

  /** "WxH", or "WxH" followed by more 'x' pieces, reads back as the point (W, H). */
  lemma PreviewSizeOfText(p: Props, w: int, h: int, tail: string)
    requires IsInt32(w) && IsInt32(h)
    requires tail == "" || tail[0] == 'x'
    requires p.previewSize == IntString(w) + "x" + IntString(h) + tail
    ensures CameraPreviewSize(p) == SizeOf(Point(w, h))
  {
    NumberHasNoX(w);
    NumberHasNoX(h);
    SplitTwo(IntString(w), IntString(h), tail);
    ParseIntString(w);
    ParseIntString(h);
  }

  /** Two x-separated pieces of which one is not a number raise the NumberFormatException. */
  lemma NonNumericPiece(p: Props, a: string, b: string)
    requires forall j :: 0 <= j < |a| ==> a[j] != 'x'
    requires forall j :: 0 <= j < |b| ==> b[j] != 'x'
    requires b != ""
    requires p.previewSize == a + "x" + b
    requires ParseInt(a) == None || ParseInt(b) == None
    ensures CameraPreviewSize(p) == BadNumber
  {
    SplitTwo(a, b, "");
    assert a + "x" + b + "" == a + "x" + b;
  }

  /** With every property at its default: no preview size, five stillmore images, horizontal sensors. */
  lemma DefaultAnswers()
    ensures CameraPreviewSize(Defaults()) == NoSize
    ensures StillmoreNumRequiredImages(Defaults()) == 5
    ensures !DualCameraSensorAlign(Defaults())
    ensures StillmoreBrColor(Defaults()) == 0.5 && StillmoreBrIntensity(Defaults()) == 0.6
  {
    NoSeparatorNoSize(Defaults());
  }
}
