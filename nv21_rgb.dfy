// nativeNV21toRgb of jni/image_util_jni.cpp: converts an NV21 frame without
// row padding into RGBA, four bytes per pixel in row-major order. The float
// coefficients 1.164, 1.596, 0.813, 0.391 and 2.018 are taken as the exact
// fractions 1164/1000 and so on; the C cast to int truncates toward zero.
module Nv21Rgb {
  import opened Bytes
  import opened Plane
  import opened Arith

  // ---- specification ----

  /** The `x > 255 ? 255 : x < 0 ? 0 : x` clamp of the channel values. */
  function Clamp255(v: int): (b: byte)
    ensures 0 <= v <= 255 ==> b == v
    ensures v > 255 ==> b == 255
    ensures v < 0 ==> b == 0
  {
    if v > 255 then 255 else if v < 0 then 0 else v
  }

  /** Bytes of an NV21 frame of w x h pixels without row padding. */
  function FrameSize(w: nat, h: nat): nat
  {
    w * h + w * (h / 2)
  }

  /** The V (c = 0) or U (c = 1) byte of the 2 x 2 block holding pixel (x, y), less 128. */
  function ChromaAt(s: seq<byte>, w: nat, h: nat, x: nat, y: nat, c: nat): int
    requires w % 2 == 0 && h % 2 == 0 && FrameSize(w, h) <= |s| && x < w && y < h && c < 2
  {
    (s[Cell(w * h, w, h / 2, x / 2 * 2 + c, y / 2)] as int) - 128
  }

  /** Channel c of pixel (x, y): red, green, blue, then alpha. */
  function Channel(s: seq<byte>, w: nat, h: nat, x: nat, y: nat, c: nat): (b: byte)
    requires w % 2 == 0 && h % 2 == 0 && FrameSize(w, h) <= |s| && x < w && y < h && c < 4
  {
    var lum := s[Cell(0, w, h, x, y)];
    var v, u := ChromaAt(s, w, h, x, y, 0), ChromaAt(s, w, h, x, y, 1);
    if c == 0 then Clamp255(JavaDiv(1164 * lum + 1596 * v, 1000))
    else if c == 1 then Clamp255(JavaDiv(1164 * lum - 813 * v - 391 * u, 1000))
    else if c == 2 then Clamp255(JavaDiv(1164 * lum + 2018 * u, 1000))
    else 0xFF
  }

  /**
   * Destination d once the pixels (px, py) with px < x, or px == x and
   * py < y, have been converted. The RGBA buffer is a plane of h rows of 4w
   * bytes; channel c of pixel (px, py) is its byte (4px + c, py).
   */
  function RgbaUpTo(d: seq<byte>, s: seq<byte>, w: nat, h: nat, x: nat, y: nat): (r: seq<byte>)
    requires w % 2 == 0 && h % 2 == 0 && FrameSize(w, h) <= |s| && 4 * w * h <= |d|
    ensures |r| == |d|
  {
    seq(|d|, k requires 0 <= k < |d| =>
      if k < 4 * w * h && (ColOf(0, 4 * w, k) / 4 < x || (ColOf(0, 4 * w, k) / 4 == x && RowOf(0, 4 * w, k) < y)) then
        CellOf(0, 4 * w, h, k);
        Channel(s, w, h, ColOf(0, 4 * w, k) / 4, RowOf(0, 4 * w, k), ColOf(0, 4 * w, k) % 4)
      else d[k])
  }

  /** The converted frame: every pixel done, the bytes after 4wh untouched. */
  function Rgba(d: seq<byte>, s: seq<byte>, w: nat, h: nat): (r: seq<byte>)
    requires w % 2 == 0 && h % 2 == 0 && FrameSize(w, h) <= |s| && 4 * w * h <= |d|
    ensures |r| == |d|
  {
    RgbaUpTo(d, s, w, h, w, 0)
  }

  // ---- properties ----

  lemma RgbaUpToAt(d: seq<byte>, s: seq<byte>, w: nat, h: nat, x: nat, y: nat, px: nat, py: nat, c: nat)
    requires w % 2 == 0 && h % 2 == 0 && FrameSize(w, h) <= |s| && 4 * w * h <= |d|
    requires px < w && py < h && c < 4
    ensures RgbaUpTo(d, s, w, h, x, y)[Cell(0, 4 * w, h, 4 * px + c, py)] ==
      if px < x || (px == x && py < y) then Channel(s, w, h, px, py, c) else d[Cell(0, 4 * w, h, 4 * px + c, py)]
  {
    assert (4 * px + c) / 4 == px && (4 * px + c) % 4 == c;
  }

  /**
   * The converted frame byte by byte: byte 4(py*w + px) + c is channel c of
   * pixel (px, py), and nothing past the 4wh bytes changes.
   */
  lemma RgbaAt(d: seq<byte>, s: seq<byte>, w: nat, h: nat, px: nat, py: nat, c: nat)
    requires w % 2 == 0 && h % 2 == 0 && FrameSize(w, h) <= |s| && 4 * w * h <= |d|
    requires px < w && py < h && c < 4
    ensures (py * w + px) * 4 + c == Cell(0, 4 * w, h, 4 * px + c, py)
    ensures Rgba(d, s, w, h)[(py * w + px) * 4 + c] == Channel(s, w, h, px, py, c)
  {
    PixelOffset(py, w, px, c);
    RgbaUpToAt(d, s, w, h, w, 0, px, py, c);
  }

  /** Bytes past the 4wh bytes of the RGBA image are never written. */
  lemma RgbaKeepsTail(d: seq<byte>, s: seq<byte>, w: nat, h: nat, k: nat)
    requires w % 2 == 0 && h % 2 == 0 && FrameSize(w, h) <= |s| && 4 * w * h <= k < |d|
    ensures Rgba(d, s, w, h)[k] == d[k]
  {
  }

  /** Every pixel is opaque. */
  lemma AlphaOpaque(s: seq<byte>, w: nat, h: nat, x: nat, y: nat)
    requires w % 2 == 0 && h % 2 == 0 && FrameSize(w, h) <= |s| && x < w && y < h
    ensures Channel(s, w, h, x, y, 3) == 255
  {
  }

  /**
   * The four pixels of a 2 x 2 block read the same V and U bytes, so two
   * pixels of one block with equal luma get equal colours.
   */
  lemma BlockSharesChroma(s: seq<byte>, w: nat, h: nat, x: nat, y: nat, x': nat, y': nat, c: nat)
    requires w % 2 == 0 && h % 2 == 0 && FrameSize(w, h) <= |s| && x < w && y < h && x' < w && y' < h && c < 4
    requires x / 2 == x' / 2 && y / 2 == y' / 2
    requires s[Cell(0, w, h, x, y)] == s[Cell(0, w, h, x', y')]
    ensures Channel(s, w, h, x, y, c) == Channel(s, w, h, x', y', c)
  {
  }

  /** Neutral chroma (V = U = 128) gives a grey pixel: red, green and blue agree. */
  lemma NeutralChromaIsGrey(s: seq<byte>, w: nat, h: nat, x: nat, y: nat)
    requires w % 2 == 0 && h % 2 == 0 && FrameSize(w, h) <= |s| && x < w && y < h
    requires ChromaAt(s, w, h, x, y, 0) == 0 && ChromaAt(s, w, h, x, y, 1) == 0
    ensures Channel(s, w, h, x, y, 0) == Channel(s, w, h, x, y, 1) == Channel(s, w, h, x, y, 2)
    ensures Channel(s, w, h, x, y, 0) == Clamp255(1164 * (s[Cell(0, w, h, x, y)] as int) / 1000)
  {
  }

  /** Black luma with neutral chroma is black, and white luma saturates at 255. */
  lemma LumaExtremes(s: seq<byte>, w: nat, h: nat, x: nat, y: nat)
    requires w % 2 == 0 && h % 2 == 0 && FrameSize(w, h) <= |s| && x < w && y < h
    requires ChromaAt(s, w, h, x, y, 0) == 0 && ChromaAt(s, w, h, x, y, 1) == 0
    ensures s[Cell(0, w, h, x, y)] == 0 ==> Channel(s, w, h, x, y, 0) == 0
    ensures s[Cell(0, w, h, x, y)] >= 220 ==> Channel(s, w, h, x, y, 0) == 255
  {
    NeutralChromaIsGrey(s, w, h, x, y);
  }

  lemma RgbaNone(d: seq<byte>, s: seq<byte>, w: nat, h: nat)
    requires w % 2 == 0 && h % 2 == 0 && FrameSize(w, h) <= |s| && 4 * w * h <= |d|
    ensures RgbaUpTo(d, s, w, h, 0, 0) == d
  {
    forall k | 0 <= k < |d| ensures RgbaUpTo(d, s, w, h, 0, 0)[k] == d[k] {
      if k < 4 * w * h {
        CellOf(0, 4 * w, h, k);
      }
    }
  }

  /** Converting pixel (x, y) writes its four bytes, alpha first as the loop does. */
  lemma RgbaStep(d: seq<byte>, s: seq<byte>, w: nat, h: nat, x: nat, y: nat)
    requires w % 2 == 0 && h % 2 == 0 && FrameSize(w, h) <= |s| && 4 * w * h <= |d| && x < w && y < h
    ensures var p := RgbaUpTo(d, s, w, h, x, y);
      var k0, k1, k2, k3 := Cell(0, 4 * w, h, 4 * x, y), Cell(0, 4 * w, h, 4 * x + 1, y), Cell(0, 4 * w, h, 4 * x + 2, y), Cell(0, 4 * w, h, 4 * x + 3, y);
      RgbaUpTo(d, s, w, h, x, y + 1) ==
        p[k3 := Channel(s, w, h, x, y, 3)][k2 := Channel(s, w, h, x, y, 2)][k1 := Channel(s, w, h, x, y, 1)][k0 := Channel(s, w, h, x, y, 0)]
  {
    var p, q := RgbaUpTo(d, s, w, h, x, y), RgbaUpTo(d, s, w, h, x, y + 1);
    var k0, k1, k2, k3 := Cell(0, 4 * w, h, 4 * x, y), Cell(0, 4 * w, h, 4 * x + 1, y), Cell(0, 4 * w, h, 4 * x + 2, y), Cell(0, 4 * w, h, 4 * x + 3, y);
    var t := p[k3 := Channel(s, w, h, x, y, 3)][k2 := Channel(s, w, h, x, y, 2)][k1 := Channel(s, w, h, x, y, 1)][k0 := Channel(s, w, h, x, y, 0)];
    forall k | 0 <= k < |d| ensures q[k] == t[k] {
      if k < 4 * w * h {
        CellOf(0, 4 * w, h, k);
        var col, row := ColOf(0, 4 * w, k), RowOf(0, 4 * w, k);
        var px, c := col / 4, col % 4;
        assert col == 4 * px + c;
        RgbaUpToAt(d, s, w, h, x, y + 1, px, row, c);
        if px == x && row == y {
          if c == 0 { assert k == k0; } else if c == 1 { assert k == k1; } else if c == 2 { assert k == k2; } else { assert k == k3; }
        } else {
          RgbaUpToAt(d, s, w, h, x, y, px, row, c);
        }
      }
    }
  }

  /** A finished column is the start of the next one. */
  lemma RgbaColumnDone(d: seq<byte>, s: seq<byte>, w: nat, h: nat, x: nat)
    requires w % 2 == 0 && h % 2 == 0 && FrameSize(w, h) <= |s| && 4 * w * h <= |d|
    ensures RgbaUpTo(d, s, w, h, x, h) == RgbaUpTo(d, s, w, h, x + 1, 0)
  {
    forall k | 0 <= k < |d| ensures RgbaUpTo(d, s, w, h, x, h)[k] == RgbaUpTo(d, s, w, h, x + 1, 0)[k] {
      if k < 4 * w * h {
        CellOf(0, 4 * w, h, k);
      }
    }
  }

  // ---- the loop ----

  /**
   * The body of the conversion loop for pixel (x, y): its luma byte, its
   * block's V and U bytes less 128, and the three clamped channels.
   */
  method PixelRgb(inBuf: array<byte>, w: nat, h: nat, x: nat, y: nat) returns (r: byte, g: byte, b: byte)
    requires w % 2 == 0 && h % 2 == 0 && FrameSize(w, h) <= inBuf.Length && x < w && y < h
    ensures r == Channel(inBuf[..], w, h, x, y, 0)
    ensures g == Channel(inBuf[..], w, h, x, y, 1)
    ensures b == Channel(inBuf[..], w, h, x, y, 2)
    ensures ChromaAt(inBuf[..], w, h, x, y, 0) == 0 && ChromaAt(inBuf[..], w, h, x, y, 1) == 0 ==> r == g == b
  {
    var ysize := w * h;
    var lum := inBuf[Cell(0, w, h, x, y)];
    var i := Cell(ysize, w, h / 2, x / 2 * 2, y / 2);
    var i1 := Cell(ysize, w, h / 2, x / 2 * 2 + 1, y / 2);
    var v := (inBuf[i] as int) - 128;
    var u := (inBuf[i1] as int) - 128;
    r := Clamp255(JavaDiv(1164 * lum + 1596 * v, 1000));
    g := Clamp255(JavaDiv(1164 * lum - 813 * v - 391 * u, 1000));
    b := Clamp255(JavaDiv(1164 * lum + 2018 * u, 1000));
    assert r == Channel(inBuf[..], w, h, x, y, 0) && g == Channel(inBuf[..], w, h, x, y, 1)
      && b == Channel(inBuf[..], w, h, x, y, 2);
    if ChromaAt(inBuf[..], w, h, x, y, 0) == 0 && ChromaAt(inBuf[..], w, h, x, y, 1) == 0 {
      NeutralChromaIsGrey(inBuf[..], w, h, x, y);
    }
  }

  /**
   * nativeNV21toRgb: column by column, pixel (x, y) gets its luma byte
   * y*w + x and the pair of its 2 x 2 block at w*h + x/2*2 + (y/2)*w,
   * and its four RGBA bytes are written at 4(y*w + x).
   */
  method NV21ToRgb(inBuf: array<byte>, rgbBuf: array<byte>, w: nat, h: nat)
    requires inBuf != rgbBuf && w % 2 == 0 && h % 2 == 0
    requires FrameSize(w, h) <= inBuf.Length && 4 * w * h <= rgbBuf.Length
    modifies rgbBuf
    ensures rgbBuf[..] == Rgba(old(rgbBuf[..]), inBuf[..], w, h)
  {
    ghost var s, d := inBuf[..], rgbBuf[..];
    RgbaNone(d, s, w, h);
    for x := 0 to w
      invariant rgbBuf[..] == RgbaUpTo(d, s, w, h, x, 0)
    {
      for y := 0 to h
        invariant rgbBuf[..] == RgbaUpTo(d, s, w, h, x, y)
      {
        var r, g, b := PixelRgb(inBuf, w, h, x, y);
        RgbaStep(d, s, w, h, x, y);
        var k0, k1, k2, k3 := Cell(0, 4 * w, h, 4 * x, y), Cell(0, 4 * w, h, 4 * x + 1, y), Cell(0, 4 * w, h, 4 * x + 2, y), Cell(0, 4 * w, h, 4 * x + 3, y);
        ghost var p: seq<byte> := rgbBuf[..];
        var alpha: byte := 0xFF;
        rgbBuf[k3] := alpha;
        rgbBuf[k2] := b;
        rgbBuf[k1] := g;
        rgbBuf[k0] := r;
        assert rgbBuf[..] == p[k3 := alpha][k2 := b][k1 := g][k0 := r];
      }
      RgbaColumnDone(d, s, w, h, x);
    }
  }
}
