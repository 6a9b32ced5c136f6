// The panorama capture view (src/com/android/camera/ui/PanoCaptureProcessView.java):
// the ARGB-to-NV21 conversion of each preview thumbnail, the thumbnail and final
// picture sizes, the capture status checks and where a new frame is placed on
// the preview strip.
module PanoView {
  import opened Bytes
  import opened Arith
  import opened Plane

  /** `MAX_PANO_FRAME`: frames per panorama; the preview width is split into this many plus 2. */
  const MAX_PANO_FRAME: nat := 6

  // ---- colour conversion ----

  /** The red, green and blue bytes of an ARGB pixel (masks and arithmetic shifts on a Java int). */
  function Red(p: int): (c: int)
    ensures 0 <= c < 256
  {
    (p / 0x10000) % 256
  }

  function Green(p: int): (c: int)
    ensures 0 <= c < 256
  {
    (p / 0x100) % 256
  }

  function Blue(p: int): (c: int)
    ensures 0 <= c < 256
  {
    p % 256
  }

  /** The BT.601 studio-swing luma and chroma, with `>> 8` as floor division by 256. */
  function LumaOf(r: int, g: int, b: int): int { (66 * r + 129 * g + 25 * b + 128) / 256 + 16 }
  function BlueDiffOf(r: int, g: int, b: int): int { (-38 * r - 74 * g + 112 * b + 128) / 256 + 128 }
  function RedDiffOf(r: int, g: int, b: int): int { (112 * r - 94 * g - 18 * b + 128) / 256 + 128 }

  /** The clamp to [0, 255] applied before each byte is stored. */
  function Clamp(v: int): (c: byte)
    ensures 0 <= v < 256 ==> c == v
  {
    if v < 0 then 0 else if v > 255 then 255 else v
  }

  /** The stored Y, U and V bytes of a pixel. */
  function Y(p: int): byte { Clamp(LumaOf(Red(p), Green(p), Blue(p))) }
  function U(p: int): byte { Clamp(BlueDiffOf(Red(p), Green(p), Blue(p))) }
  function V(p: int): byte { Clamp(RedDiffOf(Red(p), Green(p), Blue(p))) }

  /**
   * For 8-bit channels Y lies in [16, 235] and U and V in [16, 240], so the
   * clamps never change a value.
   */
  lemma StudioSwing(r: int, g: int, b: int)
    requires 0 <= r < 256 && 0 <= g < 256 && 0 <= b < 256
    ensures 16 <= LumaOf(r, g, b) <= 235
    ensures 16 <= BlueDiffOf(r, g, b) <= 240 && 16 <= RedDiffOf(r, g, b) <= 240
  {
    var y := 66 * r + 129 * g + 25 * b + 128;
    assert 0 <= y < 236 * 256;
    var u := -38 * r - 74 * g + 112 * b + 128;
    assert -112 * 256 <= u < 113 * 256;
    var v := 112 * r - 94 * g - 18 * b + 128;
    assert -112 * 256 <= v < 113 * 256;
  }

  /** The stored bytes are the unclamped values. */
  lemma ClampsNeverFire(p: int)
    ensures Y(p) == LumaOf(Red(p), Green(p), Blue(p)) && 16 <= Y(p) <= 235
    ensures U(p) == BlueDiffOf(Red(p), Green(p), Blue(p)) && 16 <= U(p) <= 240
    ensures V(p) == RedDiffOf(Red(p), Green(p), Blue(p)) && 16 <= V(p) <= 240
  {
    StudioSwing(Red(p), Green(p), Blue(p));
  }

  // ---- the converted thumbnail ----

  /** Bytes of the NV21 thumbnail of a w x h bitmap: the luma plane, then h/2 rows of w chroma bytes. */
  function Nv21Size(w: nat, h: nat): (n: nat)
    ensures w * h <= n
  {
    MulNonneg(w, h / 2);
    w * h + w * (h / 2)
  }

  /**
   * Byte k of the converted thumbnail: the Y of pixel k in the luma plane;
   * in chroma row r the (V, U) pair at columns x, x+1 (x even) of pixel
   * (x, 2r), the even pixel of an even row.
   */
  function Nv21At(px: seq<int>, w: nat, h: nat, k: nat): byte
    requires |px| == w * h && k < Nv21Size(w, h)
  {
    if k < w * h then Y(px[k])
    else
      CellOf(w * h, w, h / 2, k);
      var x, r := ColOf(w * h, w, k), RowOf(w * h, w, k);
      var p := px[Cell(0, w, h, x - x % 2, 2 * r)];
      if x % 2 == 0 then V(p) else U(p)
  }

  /** The chroma pair of row r, pair q is the V then the U of pixel (2q, 2r). */
  lemma Nv21Pair(px: seq<int>, w: nat, h: nat, q: nat, r: nat)
    requires |px| == w * h && 2 * q < w && w % 2 == 0 && r < h / 2
    ensures Cell(w * h, w, h / 2, 2 * q + 1, r) < Nv21Size(w, h)
    ensures Nv21At(px, w, h, Cell(w * h, w, h / 2, 2 * q, r)) == V(px[Cell(0, w, h, 2 * q, 2 * r)])
    ensures Nv21At(px, w, h, Cell(w * h, w, h / 2, 2 * q + 1, r)) == U(px[Cell(0, w, h, 2 * q, 2 * r)])
  {
    var L := w * h;
    var k0, k1 := Cell(L, w, h / 2, 2 * q, r), Cell(L, w, h / 2, 2 * q + 1, r);
    assert w * (h / 2) + L == Nv21Size(w, h);
    var p := Cell(0, w, h, 2 * q, 2 * r);
    DivModOf(q, 0, 2);
    DivModOf(q, 1, 2);
    assert ColOf(L, w, k0) == 2 * q && RowOf(L, w, k0) == r;
    assert Nv21At(px, w, h, k0) == V(px[p]);
    assert ColOf(L, w, k1) == 2 * q + 1 && RowOf(L, w, k1) == r;
    assert Nv21At(px, w, h, k1) == U(px[p]);
  }

  lemma EvenOffset(j: nat, w: nat, i: nat)
    requires w % 2 == 0
    ensures (j * w + i) % 2 == i % 2
  {
    var hw := w / 2;
    assert j * w == 2 * (j * hw);
  }

  /** Chroma bytes row j has written after its first i pixels: a pair per even pixel of an even row. */
  function RowPairs(j: nat, i: nat): nat {
    if j % 2 == 0 then 2 * ((i + 1) / 2) else 0
  }

  lemma RowPairsStep(j: nat, i: nat)
    ensures RowPairs(j, i + 1) == RowPairs(j, i) + (if j % 2 == 0 && i % 2 == 0 then 2 else 0)
  {
  }

  /**
   * Where the (V, U) pair of the even pixel i of the even row j goes: the
   * next chroma byte, a cell of the chroma plane with room for both bytes.
   */
  lemma ChromaCursor(w: nat, h: nat, j: nat, i: nat)
    requires w % 2 == 0 && h % 2 == 0 && j < h && j % 2 == 0 && i < w && i % 2 == 0
    ensures w * h + ((j + 1) / 2) * w + RowPairs(j, i) == Cell(w * h, w, h / 2, i, j / 2)
    ensures ((j + 1) / 2) * w + RowPairs(j, i) + 2 <= w * (h / 2)
    ensures 2 * (j / 2) == j
  {
    assert (j + 1) / 2 == j / 2 && 2 * ((i + 1) / 2) == i;
    MulLe(j / 2 + 1, h / 2, w);
    assert (j / 2 + 1) * w == (j / 2) * w + w;
  }

  /** The chroma cursor of an even pixel of an even row holds that pixel's V, then its U. */
  lemma PixelPair(px: seq<int>, w: nat, h: nat, j: nat, i: nat, u: nat)
    requires |px| == w * h && w % 2 == 0 && h % 2 == 0 && j < h && i < w && j % 2 == 0 && i % 2 == 0
    requires u == w * h + ((j + 1) / 2) * w + RowPairs(j, i)
    ensures j * w + i < w * h && u + 2 <= Nv21Size(w, h)
    ensures Nv21At(px, w, h, u) == V(px[j * w + i]) && Nv21At(px, w, h, u + 1) == U(px[j * w + i])
  {
    GridIndex(i, j, w, h);
    ChromaCursor(w, h, j, i);
    var q, r := i / 2, j / 2;
    assert 2 * q == i && 2 * r == j;
    Nv21Pair(px, w, h, q, r);
    assert Cell(0, w, h, 2 * q, 2 * r) == j * w + i;
    assert Cell(w * h, w, h / 2, 2 * q + 1, r) == u + 1;
  }

  /**
   * One step of the conversion loop: pixel i of row j stores its Y at luma
   * byte j*w+i and, when both it and its row are even, its V and U at the
   * chroma cursor u, which it returns advanced.
   */
  method StorePixel(px: seq<int>, w: nat, h: nat, buf: array<byte>, j: nat, i: nat, y: nat, ghost c0: nat, u: nat)
    returns (u': nat)
    requires |px| == w * h && w % 2 == 0 && h % 2 == 0 && buf.Length == Nv21Size(w, h)
    requires j < h && i < w && y == j * w + i < w * h && c0 == ((j + 1) / 2) * w
    requires u == w * h + c0 + RowPairs(j, i) <= buf.Length
    requires forall k :: 0 <= k < y ==> buf[k] == Nv21At(px, w, h, k)
    requires forall k :: w * h <= k < u ==> buf[k] == Nv21At(px, w, h, k)
    modifies buf
    ensures u' == w * h + c0 + RowPairs(j, i + 1) <= buf.Length
    ensures forall k :: 0 <= k <= y ==> buf[k] == Nv21At(px, w, h, k)
    ensures forall k :: w * h <= k < u' ==> buf[k] == Nv21At(px, w, h, k)
  {
    RowPairsStep(j, i);
    var index := y;
    var p := px[index];
    buf[index] := Y(p);
    EvenOffset(j, w, i);
    u' := u;
    if j % 2 == 0 && index % 2 == 0 {
      PixelPair(px, w, h, j, i, u);
      buf[u'] := V(p);
      u' := u' + 1;
      buf[u'] := U(p);
      u' := u' + 1;
    }
  }

  /** After a full row the luma cursor is at the next row and the chroma cursor at the next row's start. */
  lemma NextRow(j: nat, w: nat)
    requires w % 2 == 0
    ensures j * w + w == (j + 1) * w
    ensures ((j + 1) / 2) * w + RowPairs(j, w) == ((j + 2) / 2) * w
  {
    if j % 2 == 0 {
      assert (j + 2) / 2 == j / 2 + 1 && (j + 1) / 2 == j / 2;
      assert (j / 2 + 1) * w == (j / 2) * w + w;
    } else {
      assert (j + 2) / 2 == (j + 1) / 2;
    }
  }

  lemma RowStep(j: nat, w: nat, h: nat, y: nat, c0: nat)
    requires w % 2 == 0 && h % 2 == 0 && j < h && y == j * w && c0 == ((j + 1) / 2) * w
    ensures y + w <= w * h && y + w == (j + 1) * w
    ensures c0 + RowPairs(j, w) == ((j + 2) / 2) * w <= w * (h / 2)
  {
    NextRow(j, w);
    assert (j + 1) * w <= w * h by {
      MulLe(j + 1, h, w);
    }
    assert ((j + 2) / 2) * w <= w * (h / 2) by {
      assert (j + 2) / 2 <= h / 2;
      MulLe((j + 2) / 2, h / 2, w);
    }
  }

  /** The inner loop of the conversion: the w pixels of row j, advancing both cursors. */
  method ConvertRow(px: seq<int>, w: nat, h: nat, buf: array<byte>, j: nat, y0: nat, ghost c0: nat, u0: nat)
    returns (y: nat, u: nat)
    requires |px| == w * h && w % 2 == 0 && h % 2 == 0 && buf.Length == Nv21Size(w, h)
    requires j < h && y0 == j * w && y0 + w <= w * h
    requires c0 == ((j + 1) / 2) * w && u0 == w * h + c0 && u0 + RowPairs(j, w) <= buf.Length
    requires forall k :: 0 <= k < y0 ==> buf[k] == Nv21At(px, w, h, k)
    requires forall k :: w * h <= k < u0 ==> buf[k] == Nv21At(px, w, h, k)
    modifies buf
    ensures y == y0 + w && u == u0 + RowPairs(j, w) <= buf.Length
    ensures forall k :: 0 <= k < y ==> buf[k] == Nv21At(px, w, h, k)
    ensures forall k :: w * h <= k < u ==> buf[k] == Nv21At(px, w, h, k)
  {
    y, u := y0, u0;
    var i := 0;
    while i < w
      invariant 0 <= i <= w && y == j * w + i
      invariant u == w * h + c0 + RowPairs(j, i) <= buf.Length
      invariant forall k :: 0 <= k < y ==> buf[k] == Nv21At(px, w, h, k)
      invariant forall k :: w * h <= k < u ==> buf[k] == Nv21At(px, w, h, k)
    {
      GridIndex(i, j, w, h);
      u := StorePixel(px, w, h, buf, j, i, y, c0, u);
      y := y + 1;
      i := i + 1;
    }
  }

  /**
   * `bitmapToDataNV21`: for each pixel in row-major order, its Y at the next
   * luma byte; on even rows, for each even pixel, its V then its U at the
   * next two chroma bytes. The buffer is then exactly the NV21 thumbnail.
   */
  method BitmapToDataNV21(px: seq<int>, w: nat, h: nat, buf: array<byte>)
    requires |px| == w * h && w % 2 == 0 && h % 2 == 0
    requires buf.Length == Nv21Size(w, h)
    modifies buf
    ensures forall k :: 0 <= k < buf.Length ==> buf[k] == Nv21At(px, w, h, k)
  {
    var y, u := 0, w * h;
    ghost var c0 := 0;
    var j := 0;
    while j < h
      invariant 0 <= j <= h && y == j * w <= w * h
      invariant c0 == ((j + 1) / 2) * w && u == w * h + c0 <= buf.Length
      invariant forall k :: 0 <= k < y ==> buf[k] == Nv21At(px, w, h, k)
      invariant forall k :: w * h <= k < u ==> buf[k] == Nv21At(px, w, h, k)
    {
      RowStep(j, w, h, y, c0);
      y, u := ConvertRow(px, w, h, buf, j, y, c0, u);
      c0 := c0 + RowPairs(j, w);
      j := j + 1;
    }
    assert u == buf.Length by {
      assert (h + 1) / 2 == h / 2;
    }
  }

  // ---- sizes ----

  /** `setPanoPreviewSize`: the thumbnail and final picture sizes, each rounded down to even. */
  datatype PreviewSizes = PreviewSizes(thumbWidth: int, thumbHeight: int, finalWidth: int, finalHeight: int)

  function EvenDown(v: int): (r: int)
    ensures r % 2 == 0
  {
    JavaDiv(v, 2) * 2
  }

  function PanoPreviewSize(width: int, height: int): (s: PreviewSizes)
    ensures s.thumbWidth % 2 == 0 && s.thumbHeight % 2 == 0 && s.finalWidth % 2 == 0 && s.finalHeight % 2 == 0
    ensures width >= 0 && height >= 0 ==>
      0 <= s.thumbWidth * (MAX_PANO_FRAME + 2) <= width && 0 <= s.thumbHeight * (MAX_PANO_FRAME + 2) <= height
      && s.finalWidth <= width < s.finalWidth + 2 && s.finalHeight <= height < s.finalHeight + 2
  {
    PreviewSizes(EvenDown(JavaDiv(width, MAX_PANO_FRAME + 2)), EvenDown(JavaDiv(height, MAX_PANO_FRAME + 2)),
                 EvenDown(width), EvenDown(height))
  }

  /** The NV21 buffer `setPanoPreviewSize` allocates is the thumbnail's NV21 size, as the conversion requires. */
  lemma ThumbBufferFits(width: nat, height: nat)
    ensures var s := PanoPreviewSize(width, height);
      s.thumbWidth >= 0 && s.thumbHeight >= 0
      && s.thumbWidth * s.thumbHeight * 3 / 2 == Nv21Size(s.thumbWidth, s.thumbHeight)
  {
    var s := PanoPreviewSize(width, height);
    var w, h := s.thumbWidth, s.thumbHeight;
    MulNonneg(w, h);
    assert w * (h / 2) * 2 == w * h by {
      assert h == 2 * (h / 2);
    }
  }

  // ---- capture status ----

  datatype PanoStatus = Inactive | ActiveUnknown | ActiveLeft | ActiveRight | ActiveUp | ActiveDown | Completing | Opening {
    predicate Horizontal() { this == ActiveLeft || this == ActiveRight }
    predicate Vertical() { this == ActiveUp || this == ActiveDown }
  }

  /** A frame placed on the preview strip: its position and drawn size, and the size of its bitmap. */
  datatype Frame = Frame(xPos: int, yPos: int, width: int, height: int, bitmapWidth: int, bitmapHeight: int)

  /** The preview strip: the extent covered so far and where the newest frame went. */
  class Picture {
    var xPos: int
    var yPos: int
    var width: int
    var height: int
    var leftIn: int
    var topIn: int
    const bitmapWidth: int
    const bitmapHeight: int

    constructor (f: Frame)
      ensures xPos == f.xPos && yPos == f.yPos && width == f.width && height == f.height
      ensures bitmapWidth == f.bitmapWidth && bitmapHeight == f.bitmapHeight && leftIn == 0 && topIn == 0
    {
      xPos, yPos, width, height := f.xPos, f.yPos, f.width, f.height;
      bitmapWidth, bitmapHeight := f.bitmapWidth, f.bitmapHeight;
      leftIn, topIn := 0, 0;
    }

    /**
     * The placement part of `blendToPreviewPicture` for a left or right
     * sweep: a frame on the wrong side is skipped; otherwise the strip grows
     * by the frame's width less the overlap (none for the first frame) and
     * leftIn, where the frame is drawn, is kept inside [0, bitmap width -
     * frame bitmap width] whenever that range is not empty; the strip then
     * takes the frame's position.
     */
    method BlendHorizontal(status: PanoStatus, pic2: Frame, isFirst: bool)
      requires status.Horizontal()
      modifies this
      ensures topIn == -pic2.yPos && height == old(height)
      ensures SkipsFrame(status == ActiveRight, pic2.xPos - old(xPos)) ==>
        width == old(width) && leftIn == old(leftIn) && xPos == old(xPos) && yPos == old(yPos)
      ensures !SkipsFrame(status == ActiveRight, pic2.xPos - old(xPos)) ==>
        (var newWidth := old(width) + pic2.width - Overlap(pic2.width, pic2.xPos - old(xPos), isFirst);
         width == newWidth && xPos == pic2.xPos && yPos == pic2.yPos
         && leftIn == Place(if status == ActiveRight then newWidth - pic2.width else bitmapWidth - newWidth,
                            bitmapWidth - pic2.bitmapWidth))
    {
      var gap := pic2.xPos - xPos;
      topIn := -pic2.yPos;
      if SkipsFrame(status == ActiveRight, gap) {
        return;
      }
      gap := Overlap(pic2.width, gap, isFirst);
      var newWidth := width + pic2.width - gap;
      if status == ActiveRight {
        leftIn := newWidth - pic2.width;
      } else {
        leftIn := bitmapWidth - newWidth;
      }
      if leftIn < 0 {
        leftIn := 0;
      }
      if leftIn > bitmapWidth - pic2.bitmapWidth {
        leftIn := bitmapWidth - pic2.bitmapWidth;
      }
      width := newWidth;
      xPos, yPos := pic2.xPos, pic2.yPos;
    }

    /** The same placement for an up or down sweep (any status that is not left or right), in the other axis. */
    method BlendVertical(status: PanoStatus, pic2: Frame, isFirst: bool)
      requires !status.Horizontal()
      modifies this
      ensures leftIn == -pic2.xPos && width == old(width)
      ensures SkipsVertical(status, pic2.yPos - old(yPos)) ==>
        height == old(height) && topIn == old(topIn) && xPos == old(xPos) && yPos == old(yPos)
      ensures !SkipsVertical(status, pic2.yPos - old(yPos)) ==>
        (var newHeight := old(height) + pic2.height - Overlap(pic2.height, pic2.yPos - old(yPos), isFirst);
         height == newHeight && xPos == pic2.xPos && yPos == pic2.yPos
         && topIn == Place(if status == ActiveDown then newHeight - pic2.height else bitmapHeight - newHeight,
                           bitmapHeight - pic2.bitmapHeight))
    {
      var gap := pic2.yPos - yPos;
      leftIn := -pic2.xPos;
      if SkipsVertical(status, gap) {
        return;
      }
      gap := Overlap(pic2.height, gap, isFirst);
      var newHeight := height + pic2.height - gap;
      if status == ActiveDown {
        topIn := newHeight - pic2.height;
      } else {
        topIn := bitmapHeight - newHeight;
      }
      if topIn < 0 {
        topIn := 0;
      }
      if topIn > bitmapHeight - pic2.bitmapHeight {
        topIn := bitmapHeight - pic2.bitmapHeight;
      }
      height := newHeight;
      xPos, yPos := pic2.xPos, pic2.yPos;
    }
  }

  /** A right sweep skips a frame ahead of the strip (gap > 0), a left sweep one behind it (gap < 0). */
  predicate SkipsFrame(forward: bool, gap: int) {
    (gap > 0 && forward) || (gap < 0 && !forward)
  }

  predicate SkipsVertical(status: PanoStatus, gap: int) {
    (gap > 0 && status == ActiveDown) || (gap < 0 && status == ActiveUp)
  }

  /** The overlap of a frame of this size with the strip: its size less the distance moved, 0 for the first frame. */
  function Overlap(size: int, gap: int, isFirst: bool): int {
    if isFirst then 0 else size - (if gap < 0 then -gap else gap)
  }

  /**
   * The two clamps on leftIn (and topIn): raised to 0, then lowered to the
   * bound. When the bound is not negative the result lies in [0, bound] and
   * any value already there is kept; when it is negative the result is the
   * bound.
   */
  function Place(v: int, bound: int): (r: int)
    ensures bound >= 0 ==> 0 <= r <= bound
    ensures bound >= 0 && 0 <= v <= bound ==> r == v
    ensures bound < 0 ==> r == bound
  {
    var raised := if v < 0 then 0 else v;
    if raised > bound then bound else raised
  }

  /** The view's capture state. */
  class CaptureView {
    var status: PanoStatus
    var orientation: int
    var pendingOrientation: int
    /** `mFinalDoneLength`: the strip length at which the panorama is complete; 0 before a direction is known. */
    var finalDoneLength: int
    var preview: Picture

    constructor (p: Picture)
      ensures status == Inactive && orientation == 0 && pendingOrientation == 0 && finalDoneLength == 0
      ensures preview == p
    {
      status, orientation, pendingOrientation, finalDoneLength := Inactive, 0, 0, 0;
      preview := p;
    }

    /** `setOrientation`: while a panorama is being taken only the pending orientation changes. */
    method SetOrientation(o: int)
      modifies this
      ensures status == old(status) && finalDoneLength == old(finalDoneLength) && preview == old(preview)
      ensures pendingOrientation == o
      ensures old(status) != Inactive ==> orientation == old(orientation)
      ensures old(status) == Inactive ==> orientation == o
    {
      if status != Inactive {
        pendingOrientation := o;
        return;
      }
      orientation, pendingOrientation := o, o;
    }

    /**
     * `isAllTaken`: never before the completion length is known; otherwise
     * the strip has reached it along the sweep's axis.
     */
    predicate IsAllTaken()
      reads this, preview
    {
      finalDoneLength != 0
      && ((status.Horizontal() && preview.width >= finalDoneLength)
          || (status.Vertical() && preview.height >= finalDoneLength))
    }

    /** A panorama that is inactive, or whose completion length is 0, is never complete. */
    lemma NotTakenWhenUnknown()
      ensures finalDoneLength == 0 || !(status.Horizontal() || status.Vertical()) ==> !IsAllTaken()
    {
    }
  }
}
