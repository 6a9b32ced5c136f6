// nativeResizeImage of jni/image_util_jni.cpp: box-filter downscale of a
// strided NV21 frame by an integer ratio R, cropping the old frame around its
// centre to newWidth*R x newHeight*R. The float aspect test is done here by
// exact cross-multiplication and the float product by an integer quotient.
module Nv21Resize {
  import opened Bytes
  import opened Arith
  import opened Plane

  /** The sizes handed to the resize: old frame with its row stride, and the new frame. */
  datatype Dims = Dims(oldWidth: nat, oldHeight: nat, oldStride: nat, newWidth: nat, newHeight: nat)

  /**
   * What the resize needs of its caller: no zero divisor, each old row fits
   * its stride, and the new frame has even sides so that its chroma plane is
   * newHeight/2 rows of newWidth/2 (V, U) pairs.
   */
  predicate WellFormed(g: Dims)
  {
    g.newWidth > 0 && g.newHeight > 0 &&
    g.newWidth % 2 == 0 && g.newHeight % 2 == 0 && g.oldWidth <= g.oldStride
  }

  /** Bytes of the old frame: luma rows then chroma rows, all of stride bytes. */
  function OldSize(g: Dims): (n: nat)
    ensures g.oldStride * g.oldHeight <= n
  {
    MulNonneg(g.oldStride, g.oldHeight / 2);
    g.oldStride * g.oldHeight + g.oldStride * (g.oldHeight / 2)
  }

  /** Bytes of the new frame. */
  function NewSize(g: Dims): (n: nat)
    ensures g.newWidth * g.newHeight <= n
  {
    MulNonneg(g.newWidth, g.newHeight / 2);
    g.newWidth * g.newHeight + g.newWidth * (g.newHeight / 2)
  }

  // ---- the ratio ----

  /**
   * The old width to crop to: unchanged when both frames have the same
   * aspect ratio, else the width the old height has at the new ratio.
   */
  function AdjustedWidth(g: Dims): (a: nat)
    requires g.newHeight > 0
    ensures g.oldWidth * g.newHeight == g.newWidth * g.oldHeight ==> a == g.oldWidth
    ensures g.oldWidth * g.newHeight != g.newWidth * g.oldHeight ==> a * g.newHeight <= g.newWidth * g.oldHeight < (a + 1) * g.newHeight
  {
    if g.oldWidth * g.newHeight == g.newWidth * g.oldHeight then g.oldWidth
    else
      var a := g.newWidth * g.oldHeight / g.newHeight;
      DivEnclose(g.newWidth * g.oldHeight, g.newHeight);
      a
  }

  lemma DivEnclose(a: nat, n: nat)
    requires n > 0
    ensures (a / n) * n <= a < (a / n + 1) * n
  {
    assert a == (a / n) * n + a % n;
  }

  /**
   * The ratio rule: the width and height quotients, the smaller one raised
   * by 1 when its remainder is at least a quarter of the dividend, then the
   * smaller of the two.
   */
  function BiasedRatio(aw: nat, oh: nat, nw: nat, nh: nat): (r: nat)
    requires nw > 0 && nh > 0
    ensures r <= aw / nw + 1 && r <= oh / nh + 1
    ensures r >= aw / nw || r >= oh / nh
  {
    var wR := aw / nw;
    var hR := oh / nh;
    var wR' := if wR < hR && aw - nw * wR >= aw / 4 then wR + 1 else wR;
    var hR' := if hR < wR' && oh - nh * hR >= oh / 4 then hR + 1 else hR;
    if wR' < hR' then wR' else hR'
  }

  /** The ratio exactly as the code computes it. */
  function SourceRatio(g: Dims): nat
    requires WellFormed(g)
  {
    BiasedRatio(AdjustedWidth(g), g.oldHeight, g.newWidth, g.newHeight)
  }

  /** A ratio whose newWidth*R x newHeight*R window fits inside the old frame. */
  predicate Fits(g: Dims, R: nat)
  {
    g.newWidth * R <= g.oldWidth && g.newHeight * R <= g.oldHeight
  }

  /** r capped so that n*c stays within a; the cap binds only when n*(c+1) would not. */
  function Cap(r: nat, a: nat, n: nat): (c: nat)
    requires n > 0
    ensures c <= r && n * c <= a
    ensures c < r ==> a < n * (c + 1)
  {
    DivEnclose(a, n);
    if r < a / n then
      MulLe(r, a / n, n);
      r
    else a / n
  }

  /**
   * The code's ratio lowered just enough for its window to fit inside the
   * old frame: it fits, and it is either the code's ratio or the largest
   * ratio that fits.
   */
  function FittedRatio(g: Dims): (r: nat)
    requires WellFormed(g)
    ensures r <= SourceRatio(g) && Fits(g, r)
    ensures r < SourceRatio(g) ==> !Fits(g, r + 1)
  {
    var c1 := Cap(SourceRatio(g), g.oldWidth, g.newWidth);
    var c := Cap(c1, g.oldHeight, g.newHeight);
    CapKeepsFit(c, c1, g.newWidth, g.oldWidth);
    c
  }

  /** Lowering a ratio that fits a span keeps it fitting. */
  lemma CapKeepsFit(c: nat, c1: nat, n: nat, a: nat)
    requires c <= c1 && n * c1 <= a
    ensures n * c <= a
  {
    MulLe(c, c1, n);
  }

  /** First old column sampled: half the horizontal crop, C division truncating toward zero. */
  function ColStart(g: Dims, R: nat): int
  {
    JavaDiv(g.oldWidth - g.newWidth * R, 2)
  }

  /** First old row sampled: half the vertical crop. */
  function RowStart(g: Dims, R: nat): int
  {
    JavaDiv(g.oldHeight - g.newHeight * R, 2)
  }

  /** Byte read for pixel (x, y) of the block of output pixel (q, p) at ratio R, as the code computes it. */
  function LumaReadIndex(g: Dims, R: nat, p: nat, q: nat, y: nat, x: nat): int
  {
    (RowStart(g, R) + p * R + y) * g.oldStride + ColStart(g, R) + q * R + x
  }

  // ---- properties of the ratio ----

  /** Equal old and new sizes give ratio 1, in the code and once capped. */
  lemma SameSizeRatio(g: Dims)
    requires WellFormed(g) && g.oldWidth == g.newWidth && g.oldHeight == g.newHeight
    ensures SourceRatio(g) == 1 && FittedRatio(g) == 1
  {
    assert AdjustedWidth(g) == g.newWidth;
    DivModOf(1, 0, g.newWidth);
    DivModOf(1, 0, g.newHeight);
  }

  /** Whenever the code's own window fits inside the old frame, the capped ratio is the code's ratio. */
  lemma FittedAgrees(g: Dims)
    requires WellFormed(g) && Fits(g, SourceRatio(g))
    ensures FittedRatio(g) == SourceRatio(g)
  {
    var r := FittedRatio(g);
    if r < SourceRatio(g) {
      FitsDown(g, r + 1, SourceRatio(g));
    }
  }

  /** A smaller ratio than one that fits fits too. */
  lemma FitsDown(g: Dims, a: nat, b: nat)
    requires a <= b && Fits(g, b)
    ensures Fits(g, a)
  {
    MulLe(a, b, g.newWidth);
    MulLe(a, b, g.newHeight);
  }

  /**
   * A new frame wider in aspect than the old one (400 x 300 to 200 x 100)
   * gets ratio 3 from the code, a window 600 bytes wide from a 400-byte
   * row, and its first read lies 100 bytes before the frame.
   */
  lemma WiderAspectReadsBeforeFrame()
    ensures var g := Dims(400, 300, 400, 200, 100);
      WellFormed(g) && SourceRatio(g) == 3 && !Fits(g, 3) && LumaReadIndex(g, 3, 0, 0, 0, 0) == -100
  {
    var g := Dims(400, 300, 400, 200, 100);
    assert AdjustedWidth(g) == 600;
  }

  /** Rows p*R .. p*R+R-1 after the start of a centred n*R window lie inside o. */
  lemma Window(o: int, n: int, R: int, p: int)
    requires 0 <= p < n && 0 <= R && n * R <= o
    ensures 0 <= JavaDiv(o - n * R, 2) && JavaDiv(o - n * R, 2) + p * R + R <= o
  {
    MulLe(p + 1, n, R);
  }

  /**
   * Pair rows (pair columns) of the 2R-step window of chroma pair p2 lie
   * inside o/2 rows (a row of o bytes).
   */
  lemma PairWindow(o: int, n: int, R: int, p2: int)
    requires 0 <= p2 < n / 2 && n % 2 == 0 && 0 <= R && n * R <= o
    ensures var j := JavaDiv(o - n * R, 2) + p2 * (2 * R);
      0 <= j && j / 2 + R <= o / 2 && 2 * (j / 2 + R) <= o
  {
    var h := n / 2;
    var nR, hR, pR := n * R, h * R, p2 * R;
    RowOfPairs(R, n, h);
    assert nR == 2 * hR;
    MulLe(p2 + 1, h, R);
    assert pR + R <= hR;
    assert p2 * (2 * R) == 2 * pR;
    var j0 := JavaDiv(o - nR, 2);
    assert (j0 + 2 * pR) / 2 == j0 / 2 + pR;
  }

  /** The R x R block of output pixel (q, p) lies inside the old frame. */
  lemma LumaWindowInside(g: Dims, R: nat, p: nat, q: nat)
    requires WellFormed(g) && Fits(g, R) && p < g.newHeight && q < g.newWidth
    ensures 0 <= RowStart(g, R) && RowStart(g, R) + p * R + R <= g.oldHeight
    ensures 0 <= ColStart(g, R) && ColStart(g, R) + q * R + R <= g.oldWidth
  {
    Window(g.oldHeight, g.newHeight, R, p);
    Window(g.oldWidth, g.newWidth, R, q);
  }

  /**
   * The 2R x 2R block of output pair (q2, p2) lies inside the old frame:
   * R chroma rows from row j/2 and R pairs from pair i/2, where (i, j) is
   * the block's first luma pixel.
   */
  lemma ChromaWindowInside(g: Dims, R: nat, p2: nat, q2: nat)
    requires WellFormed(g) && Fits(g, R) && p2 < g.newHeight / 2 && q2 < g.newWidth / 2
    ensures 0 <= RowStart(g, R) + p2 * (2 * R) && (RowStart(g, R) + p2 * (2 * R)) / 2 + R <= g.oldHeight / 2
    ensures 0 <= ColStart(g, R) + q2 * (2 * R) && 2 * ((ColStart(g, R) + q2 * (2 * R)) / 2 + R) <= g.oldWidth
  {
    PairWindow(g.oldHeight, g.newHeight, R, p2);
    PairWindow(g.oldWidth, g.newWidth, R, q2);
  }

  /**
   * At a ratio that fits, which the capped ratio always is, every byte a
   * luma block reads is the old frame's luma byte at a row below oldHeight
   * and a column below oldWidth.
   */
  lemma FittedReadsInside(g: Dims, R: nat, p: nat, q: nat, y: nat, x: nat)
    requires WellFormed(g) && Fits(g, R) && p < g.newHeight && q < g.newWidth && y < R && x < R
    ensures 0 <= RowStart(g, R) + p * R + y < g.oldHeight && 0 <= ColStart(g, R) + q * R + x < g.oldWidth
    ensures LumaReadIndex(g, R, p, q, y, x) == Cell(0, g.oldStride, g.oldHeight, ColStart(g, R) + q * R + x, RowStart(g, R) + p * R + y)
  {
    LumaWindowInside(g, R, p, q);
  }

  // ---- block sums ----

  /** Sum of the n bytes from column col of row `row` of the plane at base. */
  function RowSum(s: seq<byte>, base: nat, S: nat, H: nat, row: nat, col: nat, n: nat): (v: nat)
    requires col + n <= S && row < H && base + S * H <= |s|
    ensures v <= 255 * n
  {
    if n == 0 then 0 else RowSum(s, base, S, H, row, col, n - 1) + s[Cell(base, S, H, col + n - 1, row)]
  }

  /** Sum of the n x m bytes from (col, row) of the plane at base. */
  function BlockSum(s: seq<byte>, base: nat, S: nat, H: nat, row: nat, col: nat, n: nat, m: nat): (v: nat)
    requires col + n <= S && row + m <= H && base + S * H <= |s|
  {
    if m == 0 then 0 else BlockSum(s, base, S, H, row, col, n, m - 1) + RowSum(s, base, S, H, row + m - 1, col, n)
  }

  /** Sum of byte c (0 = V, 1 = U) of the n pairs from pair column pc of row `row` of a chroma plane. */
  function PairRowSum(s: seq<byte>, base: nat, S: nat, H: nat, row: nat, pc: nat, n: nat, c: nat): (v: nat)
    requires 2 * (pc + n) <= S && row < H && base + S * H <= |s| && c < 2
    ensures v <= 255 * n
  {
    if n == 0 then 0 else PairRowSum(s, base, S, H, row, pc, n - 1, c) + s[Cell(base, S, H, 2 * (pc + n - 1) + c, row)]
  }

  /** Sum of byte c of the n x m pairs from pair (pc, row) of a chroma plane. */
  function PairBlockSum(s: seq<byte>, base: nat, S: nat, H: nat, row: nat, pc: nat, n: nat, m: nat, c: nat): (v: nat)
    requires 2 * (pc + n) <= S && row + m <= H && base + S * H <= |s| && c < 2
  {
    if m == 0 then 0 else PairBlockSum(s, base, S, H, row, pc, n, m - 1, c) + PairRowSum(s, base, S, H, row + m - 1, pc, n, c)
  }

  lemma MulSucc(m: int, a: int)
    ensures (m - 1) * a + a == m * a
  {
  }

  /** A block of n x m bytes sums to at most m rows of 255*n. */
  lemma {:induction false} BlockSumBound(s: seq<byte>, base: nat, S: nat, H: nat, row: nat, col: nat, n: nat, m: nat)
    requires col + n <= S && row + m <= H && base + S * H <= |s|
    ensures BlockSum(s, base, S, H, row, col, n, m) <= m * (255 * n)
  {
    if m > 0 {
      BlockSumBound(s, base, S, H, row, col, n, m - 1);
      MulSucc(m, 255 * n);
    }
  }

  lemma {:induction false} PairBlockSumBound(s: seq<byte>, base: nat, S: nat, H: nat, row: nat, pc: nat, n: nat, m: nat, c: nat)
    requires 2 * (pc + n) <= S && row + m <= H && base + S * H <= |s| && c < 2
    ensures PairBlockSum(s, base, S, H, row, pc, n, m, c) <= m * (255 * n)
  {
    if m > 0 {
      PairBlockSumBound(s, base, S, H, row, pc, n, m - 1, c);
      MulSucc(m, 255 * n);
    }
  }

  /** A block of bytes all equal to v sums to m rows of n*v. */
  lemma {:induction false} UniformBlockSum(s: seq<byte>, base: nat, S: nat, H: nat, row: nat, col: nat, n: nat, m: nat, v: byte)
    requires col + n <= S && row + m <= H && base + S * H <= |s|
    requires forall y, x :: row <= y < row + m && col <= x < col + n ==> s[Cell(base, S, H, x, y)] == v
    ensures BlockSum(s, base, S, H, row, col, n, m) == m * (n * v)
  {
    if m > 0 {
      UniformBlockSum(s, base, S, H, row, col, n, m - 1, v);
      UniformRowSum(s, base, S, H, row + m - 1, col, n, v);
      MulSucc(m, n * v);
    }
  }

  lemma {:induction false} UniformRowSum(s: seq<byte>, base: nat, S: nat, H: nat, row: nat, col: nat, n: nat, v: byte)
    requires col + n <= S && row < H && base + S * H <= |s|
    requires forall x :: col <= x < col + n ==> s[Cell(base, S, H, x, row)] == v
    ensures RowSum(s, base, S, H, row, col, n) == n * v
  {
    if n > 0 {
      UniformRowSum(s, base, S, H, row, col, n - 1, v);
      MulSucc(n, v);
    }
  }

  /** The floor of the mean of R*R bytes is a byte. */
  function Mean(sum: nat, R: nat): (b: byte)
    requires R > 0 && sum <= R * (255 * R)
    ensures b * (R * R) <= sum < (b + 1) * (R * R)
  {
    MeanBounds(sum, R, R * R);
    sum / (R * R)
  }

  lemma MeanBounds(sum: nat, R: nat, RR: nat)
    requires R > 0 && sum <= R * (255 * R) && RR == R * R
    ensures RR > 0 && 0 <= sum / RR <= 255 && (sum / RR) * RR <= sum < (sum / RR + 1) * RR
  {
    SquareScale(R, RR);
    DivEnclose(sum, RR);
    MeanBelow(sum, RR);
  }

  lemma SquareScale(R: nat, RR: nat)
    requires R > 0 && RR == R * R
    ensures R * (255 * R) == 255 * RR && RR > 0
  {
    MulLe(1, R, R);
  }

  lemma MeanBelow(sum: nat, RR: nat)
    requires RR > 0 && sum <= 255 * RR
    ensures sum / RR <= 255
  {
    var d := sum / RR;
    DivEnclose(sum, RR);
    if d >= 256 {
      MulLe(256, d, RR);
    }
  }

  /** The floor of the mean of the R x R block at (col, row) of the plane at base. */
  function BlockMean(s: seq<byte>, base: nat, S: nat, H: nat, row: nat, col: nat, R: nat): byte
    requires R > 0 && col + R <= S && row + R <= H && base + S * H <= |s|
  {
    BlockSumBound(s, base, S, H, row, col, R, R);
    Mean(BlockSum(s, base, S, H, row, col, R, R), R)
  }

  /** The floor of the mean of byte c of the R x R pairs at (pc, row) of a chroma plane. */
  function PairBlockMean(s: seq<byte>, base: nat, S: nat, H: nat, row: nat, pc: nat, R: nat, c: nat): byte
    requires R > 0 && 2 * (pc + R) <= S && row + R <= H && base + S * H <= |s| && c < 2
  {
    PairBlockSumBound(s, base, S, H, row, pc, R, R, c);
    Mean(PairBlockSum(s, base, S, H, row, pc, R, R, c), R)
  }

  // ---- the output ----

  /** Output luma pixel (q, p): the floor of the mean of its R x R block of the old frame. */
  function LumaMean(s: seq<byte>, g: Dims, R: nat, p: nat, q: nat): byte
    requires WellFormed(g) && Fits(g, R) && R > 0 && OldSize(g) <= |s| && p < g.newHeight && q < g.newWidth
  {
    LumaBlockInside(g, R, p, q);
    BlockMean(s, 0, g.oldStride, g.oldHeight, RowStart(g, R) + p * R, ColStart(g, R) + q * R, R)
  }

  /** Byte c of output pair (q2, p2): the floor of the mean of byte c of R x R old pairs. */
  function ChromaMean(s: seq<byte>, g: Dims, R: nat, p2: nat, q2: nat, c: nat): byte
    requires WellFormed(g) && Fits(g, R) && R > 0 && OldSize(g) <= |s|
    requires p2 < g.newHeight / 2 && q2 < g.newWidth / 2 && c < 2
  {
    ChromaBlockInside(g, R, p2, q2);
    var row := (RowStart(g, R) + p2 * (2 * R)) / 2;
    var pc := (ColStart(g, R) + q2 * (2 * R)) / 2;
    PairBlockMean(s, g.oldStride * g.oldHeight, g.oldStride, g.oldHeight / 2, row, pc, R, c)
  }

  /**
   * Byte k of the new frame: the luma means in row-major order, then the
   * chroma means, V before U, for newHeight/2 rows of newWidth/2 pairs.
   */
  function OutByte(s: seq<byte>, g: Dims, R: nat, k: nat): byte
    requires WellFormed(g) && Fits(g, R) && R > 0 && OldSize(g) <= |s| && k < NewSize(g)
  {
    var L := g.newWidth * g.newHeight;
    if k < L then
      CellOf(0, g.newWidth, g.newHeight, k);
      LumaMean(s, g, R, RowOf(0, g.newWidth, k), ColOf(0, g.newWidth, k))
    else
      CellOf(L, g.newWidth, g.newHeight / 2, k);
      var col := ColOf(L, g.newWidth, k);
      ChromaMean(s, g, R, RowOf(L, g.newWidth, k), col / 2, col % 2)
  }

  /** The new buffer d once its first n bytes have been written at ratio R. */
  function WrittenUpTo(d: seq<byte>, s: seq<byte>, g: Dims, R: nat, n: nat): (r: seq<byte>)
    requires WellFormed(g) && Fits(g, R) && OldSize(g) <= |s| && NewSize(g) <= |d|
    requires n <= NewSize(g) && (n == 0 || R > 0)
    ensures |r| == |d|
  {
    seq(|d|, k requires 0 <= k < |d| => if k < n then OutByte(s, g, R, k) else d[k])
  }

  /** The new buffer after the resize: nothing written when the ratio is 0, the whole frame otherwise. */
  function Resized(d: seq<byte>, s: seq<byte>, g: Dims): (r: seq<byte>)
    requires WellFormed(g) && OldSize(g) <= |s| && NewSize(g) <= |d|
    ensures |r| == |d|
  {
    var R := FittedRatio(g);
    WrittenUpTo(d, s, g, R, if R == 0 then 0 else NewSize(g))
  }

  // ---- properties of the output ----

  /** Byte Cell(q, p) of the new luma plane is the mean of the block of output pixel (q, p). */
  lemma LumaOut(s: seq<byte>, g: Dims, R: nat, p: nat, q: nat)
    requires WellFormed(g) && Fits(g, R) && R > 0 && OldSize(g) <= |s| && p < g.newHeight && q < g.newWidth
    ensures Cell(0, g.newWidth, g.newHeight, q, p) < NewSize(g)
    ensures OutByte(s, g, R, Cell(0, g.newWidth, g.newHeight, q, p)) == LumaMean(s, g, R, p, q)
  {
  }

  /** Byte c of pair q2 of row p2 of the new chroma plane is the mean of byte c of its block. */
  lemma ChromaOut(s: seq<byte>, g: Dims, R: nat, p2: nat, q2: nat, c: nat)
    requires WellFormed(g) && Fits(g, R) && R > 0 && OldSize(g) <= |s|
    requires p2 < g.newHeight / 2 && q2 < g.newWidth / 2 && c < 2
    ensures var L := g.newWidth * g.newHeight;
      L <= Cell(L, g.newWidth, g.newHeight / 2, 2 * q2 + c, p2) < NewSize(g) &&
      OutByte(s, g, R, Cell(L, g.newWidth, g.newHeight / 2, 2 * q2 + c, p2)) == ChromaMean(s, g, R, p2, q2, c)
  {
    var L := g.newWidth * g.newHeight;
    var k := Cell(L, g.newWidth, g.newHeight / 2, 2 * q2 + c, p2);
    assert ColOf(L, g.newWidth, k) == 2 * q2 + c;
  }

  /** A ratio of 0 (a new frame larger than the old one) writes nothing. */
  lemma ZeroRatioWritesNothing(d: seq<byte>, s: seq<byte>, g: Dims)
    requires WellFormed(g) && OldSize(g) <= |s| && NewSize(g) <= |d| && FittedRatio(g) == 0
    ensures Resized(d, s, g) == d
  {
  }

  /** A ratio of 0 is a new frame wider or taller than the old one. */
  lemma ZeroRatioIsUpscale(g: Dims)
    requires WellFormed(g)
    ensures FittedRatio(g) == 0 <==> g.oldWidth < g.newWidth || g.oldHeight < g.newHeight || SourceRatio(g) == 0
  {
    if FittedRatio(g) == 0 && SourceRatio(g) > 0 {
      assert !Fits(g, 1);
    }
    if g.oldWidth < g.newWidth || g.oldHeight < g.newHeight {
      if FittedRatio(g) > 0 {
        FitsDown(g, 1, FittedRatio(g));
      }
    }
  }

  /** The mean of R*R bytes equal to v is v. */
  lemma MeanOfUniform(R: nat, v: byte)
    requires R > 0
    ensures R * (R * v) <= R * (255 * R) && Mean(R * (R * v), R) == v
  {
    var RR := R * R;
    SquareScale(R, RR);
    assert R * (R * v) == v * RR;
    MulLe(v, 255, RR);
    QuotientUnique(R * (R * v), RR, Mean(R * (R * v), R), v);
  }

  /** The only b with b*n <= v*n < (b+1)*n is v. */
  lemma QuotientUnique(sum: nat, n: nat, b: nat, v: nat)
    requires n > 0 && sum == v * n && b * n <= sum < (b + 1) * n
    ensures b == v
  {
    if b < v {
      MulLe(b + 1, v, n);
    } else if b > v {
      MulLe(v + 1, b, n);
    }
  }


  /** The mean of a single byte is that byte. */
  lemma MeanOne(v: byte)
    ensures Mean(v, 1) == v
  {
  }

  /** Equal sizes copy each luma byte: no averaging and no padding kept. */
  lemma SameSizeCopiesLuma(s: seq<byte>, g: Dims, x: nat, y: nat)
    requires WellFormed(g) && OldSize(g) <= |s| && g.oldWidth == g.newWidth && g.oldHeight == g.newHeight
    requires x < g.newWidth && y < g.newHeight
    ensures Fits(g, 1) && LumaMean(s, g, 1, y, x) == s[Cell(0, g.oldStride, g.oldHeight, x, y)]
  {
    assert RowStart(g, 1) == 0 && ColStart(g, 1) == 0;
    BlockOne(s, 0, g.oldStride, g.oldHeight, y, x);
    MeanOne(s[Cell(0, g.oldStride, g.oldHeight, x, y)]);
  }

  /** A block of one byte sums to that byte. */
  lemma BlockOne(s: seq<byte>, base: nat, S: nat, H: nat, row: nat, col: nat)
    requires col < S && row < H && base + S * H <= |s|
    ensures BlockSum(s, base, S, H, row, col, 1, 1) == s[Cell(base, S, H, col, row)]
  {
  }

  /** A block of one pair sums to its byte c. */
  lemma PairBlockOne(s: seq<byte>, base: nat, S: nat, H: nat, row: nat, pc: nat, c: nat)
    requires 2 * (pc + 1) <= S && row < H && base + S * H <= |s| && c < 2
    ensures PairBlockSum(s, base, S, H, row, pc, 1, 1, c) == s[Cell(base, S, H, 2 * pc + c, row)]
  {
  }

  /** Equal sizes copy each chroma byte. */
  lemma SameSizeCopiesChroma(s: seq<byte>, g: Dims, x: nat, y: nat)
    requires WellFormed(g) && OldSize(g) <= |s| && g.oldWidth == g.newWidth && g.oldHeight == g.newHeight
    requires x < g.newWidth && y < g.newHeight / 2
    ensures Fits(g, 1) && ChromaMean(s, g, 1, y, x / 2, x % 2) == s[Cell(g.oldStride * g.oldHeight, g.oldStride, g.oldHeight / 2, x, y)]
  {
    assert Fits(g, 1);
    var j0, i0 := RowStart(g, 1), ColStart(g, 1);
    assert j0 == 0 && i0 == 0;
    var pc := x / 2;
    assert (j0 + y * (2 * 1)) / 2 == y;
    assert (i0 + pc * (2 * 1)) / 2 == pc;
    assert 2 * pc + x % 2 == x;
    ChromaWindowInside(g, 1, y, pc);
    PairBlockOne(s, g.oldStride * g.oldHeight, g.oldStride, g.oldHeight / 2, y, pc, x % 2);
    MeanOne(s[Cell(g.oldStride * g.oldHeight, g.oldStride, g.oldHeight / 2, x, y)]);
  }

  /**
   * Resizing to the same size copies the frame: every luma byte and every
   * chroma byte of the new frame is the old one at the same row and column,
   * without the old row padding.
   */
  lemma SameSizeCopies(d: seq<byte>, s: seq<byte>, g: Dims, x: nat, y: nat)
    requires WellFormed(g) && OldSize(g) <= |s| && NewSize(g) <= |d|
    requires g.oldWidth == g.newWidth && g.oldHeight == g.newHeight
    requires x < g.newWidth && y < g.newHeight
    ensures Resized(d, s, g)[Cell(0, g.newWidth, g.newHeight, x, y)] == s[Cell(0, g.oldStride, g.oldHeight, x, y)]
    ensures y < g.newHeight / 2 ==>
      Resized(d, s, g)[Cell(g.newWidth * g.newHeight, g.newWidth, g.newHeight / 2, x, y)] ==
        s[Cell(g.oldStride * g.oldHeight, g.oldStride, g.oldHeight / 2, x, y)]
  {
    SameSizeRatio(g);
    SameSizeCopiesLuma(s, g, x, y);
    LumaOut(s, g, 1, y, x);
    if y < g.newHeight / 2 {
      SameSizeCopiesChroma(s, g, x, y);
      assert 2 * (x / 2) + x % 2 == x;
      ChromaOut(s, g, 1, y, x / 2, x % 2);
    }
  }

  /** Byte k of the resized frame, for a ratio above 0. */
  lemma ResizedAt(d: seq<byte>, s: seq<byte>, g: Dims, k: nat)
    requires WellFormed(g) && OldSize(g) <= |s| && NewSize(g) <= |d| && FittedRatio(g) > 0 && k < NewSize(g)
    ensures Resized(d, s, g)[k] == OutByte(s, g, FittedRatio(g), k)
  {
  }

  /** Each block of a uniform luma plane has the plane's value as its mean. */
  lemma UniformLumaMean(s: seq<byte>, g: Dims, R: nat, v: byte, p: nat, q: nat)
    requires WellFormed(g) && Fits(g, R) && R > 0 && OldSize(g) <= |s| && p < g.newHeight && q < g.newWidth
    requires forall k :: 0 <= k < g.oldStride * g.oldHeight ==> s[k] == v
    ensures LumaMean(s, g, R, p, q) == v
  {
    LumaBlockInside(g, R, p, q);
    var row, col := RowStart(g, R) + p * R, ColStart(g, R) + q * R;
    UniformPlaneBlock(s, g.oldStride, g.oldHeight, row, col, R, v);
    UniformBlockMean(s, 0, g.oldStride, g.oldHeight, row, col, R, v);
  }

  /** The R x R luma block of output pixel (q, p) as the arguments of a block of the old luma plane. */
  lemma LumaBlockInside(g: Dims, R: nat, p: nat, q: nat)
    requires WellFormed(g) && Fits(g, R) && p < g.newHeight && q < g.newWidth
    ensures 0 <= RowStart(g, R) + p * R && 0 <= ColStart(g, R) + q * R
    ensures ColStart(g, R) + q * R + R <= g.oldStride && RowStart(g, R) + p * R + R <= g.oldHeight
    ensures 0 + g.oldStride * g.oldHeight <= OldSize(g)
  {
    LumaWindowInside(g, R, p, q);
  }

  /** The R x R pair block of output pair (q2, p2) as the arguments of a block of the old chroma plane. */
  lemma ChromaBlockInside(g: Dims, R: nat, p2: nat, q2: nat)
    requires WellFormed(g) && Fits(g, R) && p2 < g.newHeight / 2 && q2 < g.newWidth / 2
    ensures 0 <= RowStart(g, R) + p2 * (2 * R) && 0 <= ColStart(g, R) + q2 * (2 * R)
    ensures (RowStart(g, R) + p2 * (2 * R)) / 2 + R <= g.oldHeight / 2
    ensures 2 * ((ColStart(g, R) + q2 * (2 * R)) / 2 + R) <= g.oldStride
    ensures 0 <= g.oldStride * g.oldHeight && g.oldStride * g.oldHeight + g.oldStride * (g.oldHeight / 2) <= OldSize(g)
  {
    ChromaWindowInside(g, R, p2, q2);
    MulNonneg(g.oldStride, g.oldHeight);
  }

  /** Every byte of a uniform plane, read through block coordinates, is the plane's value. */
  lemma UniformPlaneBlock(s: seq<byte>, S: nat, H: nat, row: nat, col: nat, R: nat, v: byte)
    requires col + R <= S && row + R <= H && S * H <= |s|
    requires forall k :: 0 <= k < S * H ==> s[k] == v
    ensures forall y, x :: row <= y < row + R && col <= x < col + R ==> s[Cell(0, S, H, x, y)] == v
  {
    forall y, x | row <= y < row + R && col <= x < col + R
      ensures s[Cell(0, S, H, x, y)] == v
    {
      var k := Cell(0, S, H, x, y);
      assert 0 <= k < S * H;
    }
  }

  /** A block of bytes all equal to v has v as its mean. */
  lemma UniformBlockMean(s: seq<byte>, base: nat, S: nat, H: nat, row: nat, col: nat, R: nat, v: byte)
    requires R > 0 && col + R <= S && row + R <= H && base + S * H <= |s|
    requires forall y, x :: row <= y < row + R && col <= x < col + R ==> s[Cell(base, S, H, x, y)] == v
    ensures BlockMean(s, base, S, H, row, col, R) == v
  {
    UniformBlockSum(s, base, S, H, row, col, R, R, v);
    MeanOfUniform(R, v);
  }

  /** A uniform old luma plane gives a uniform new luma plane of the same value. */
  lemma UniformLumaStays(d: seq<byte>, s: seq<byte>, g: Dims, v: byte, x: nat, y: nat)
    requires WellFormed(g) && OldSize(g) <= |s| && NewSize(g) <= |d| && FittedRatio(g) > 0
    requires forall k :: 0 <= k < g.oldStride * g.oldHeight ==> s[k] == v
    requires x < g.newWidth && y < g.newHeight
    ensures Resized(d, s, g)[Cell(0, g.newWidth, g.newHeight, x, y)] == v
  {
    var R := FittedRatio(g);
    UniformLumaMean(s, g, R, v, y, x);
    LumaOut(s, g, R, y, x);
    ResizedAt(d, s, g, Cell(0, g.newWidth, g.newHeight, x, y));
  }

  lemma WrittenNone(d: seq<byte>, s: seq<byte>, g: Dims, R: nat)
    requires WellFormed(g) && Fits(g, R) && OldSize(g) <= |s| && NewSize(g) <= |d|
    ensures WrittenUpTo(d, s, g, R, 0) == d
  {
  }

  lemma WrittenStep(d: seq<byte>, s: seq<byte>, g: Dims, R: nat, n: nat)
    requires WellFormed(g) && Fits(g, R) && R > 0 && OldSize(g) <= |s| && NewSize(g) <= |d| && n < NewSize(g)
    ensures WrittenUpTo(d, s, g, R, n + 1) == WrittenUpTo(d, s, g, R, n)[n := OutByte(s, g, R, n)]
  {
  }

  /** w2 steps of 2R cover the same span as w = 2*w2 steps of R. */
  lemma HalfSteps(w: nat, w2: nat, R: nat)
    requires w % 2 == 0 && w2 == w / 2
    ensures w2 * (2 * R) == w * R
  {
  }

  /** At ratio 0 every step p*R and the bound n*R are 0. */
  lemma ZeroRatio(p: nat, n: nat, R: nat)
    ensures R == 0 ==> p * R == 0 && n * R == 0
  {
  }

  /** Row p below n of an n-row plane of width w: its w cells end within the plane, where row p+1 starts. */
  lemma NextRow(p: nat, n: nat, w: nat, R: nat)
    requires p < n
    ensures p * w + w <= w * n && p * w + w == (p + 1) * w && p * R + R == (p + 1) * R
  {
    MulLe(p + 1, n, w);
    MulSucc(p + 1, w);
    MulSucc(p + 1, R);
  }

  /** The step p*R of a loop stays below n*R exactly while p is below n. */
  lemma StepGuard(p: nat, n: nat, R: nat)
    requires R > 0
    ensures (p * R < n * R) == (p < n)
  {
    if p < n {
      MulLe(p + 1, n, R);
    } else {
      MulLe(n, p, R);
    }
  }

  // ---- the loops ----

  /** Adding the next byte, at its offset in the buffer, extends a row sum by one byte. */
  lemma RowStep(s: seq<byte>, base: nat, S: nat, H: nat, row: nat, col: nat, n: nat)
    requires col + n + 1 <= S && row < H && base + S * H <= |s|
    ensures base + row * S + col + n < |s|
    ensures RowSum(s, base, S, H, row, col, n + 1) == RowSum(s, base, S, H, row, col, n) + s[base + row * S + col + n]
  {
    assert base + row * S + col + n == Cell(base, S, H, col + n, row);
  }

  /** Adding the next pair's byte c, at its offset in the buffer, extends a pair-row sum by one pair. */
  lemma PairRowStep(s: seq<byte>, base: nat, S: nat, H: nat, row: nat, pc: nat, n: nat, c: nat)
    requires 2 * (pc + n + 1) <= S && row < H && base + S * H <= |s| && c < 2
    ensures base + row * S + (pc + n) * 2 + c < |s|
    ensures PairRowSum(s, base, S, H, row, pc, n + 1, c) == PairRowSum(s, base, S, H, row, pc, n, c) + s[base + row * S + (pc + n) * 2 + c]
  {
    assert base + row * S + (pc + n) * 2 + c == Cell(base, S, H, 2 * (pc + n) + c, row);
  }

  /** The sum cv1 of the R x R luma block whose first pixel is (i, j), added as the code adds it. */
  method LumaBlockSum(oldBuf: array<byte>, g: Dims, R: nat, j: nat, i: nat) returns (cv1: nat)
    requires i + R <= g.oldStride && j + R <= g.oldHeight && OldSize(g) <= oldBuf.Length
    ensures cv1 == BlockSum(oldBuf[..], 0, g.oldStride, g.oldHeight, j, i, R, R)
  {
    ghost var s := oldBuf[..];
    cv1 := 0;
    for y := 0 to R
      invariant cv1 == BlockSum(s, 0, g.oldStride, g.oldHeight, j, i, R, y)
    {
      ghost var b := cv1;
      for x := 0 to R
        invariant cv1 == b + RowSum(s, 0, g.oldStride, g.oldHeight, j + y, i, x)
      {
        RowStep(s, 0, g.oldStride, g.oldHeight, j + y, i, x);
        cv1 := cv1 + oldBuf[(j + y) * g.oldStride + i + x] as nat;
      }
    }
  }

  /**
   * The sums cv1 (V) and cv2 (U) of the R x R chroma pairs under the 2R x 2R
   * block whose first luma pixel is (i, j), added as the code adds them.
   */
  method ChromaBlockSums(oldBuf: array<byte>, g: Dims, R: nat, j: nat, i: nat) returns (cv1: nat, cv2: nat)
    requires j / 2 + R <= g.oldHeight / 2 && 2 * (i / 2 + R) <= g.oldStride && OldSize(g) <= oldBuf.Length
    ensures cv1 == PairBlockSum(oldBuf[..], g.oldStride * g.oldHeight, g.oldStride, g.oldHeight / 2, j / 2, i / 2, R, R, 0)
    ensures cv2 == PairBlockSum(oldBuf[..], g.oldStride * g.oldHeight, g.oldStride, g.oldHeight / 2, j / 2, i / 2, R, R, 1)
  {
    ghost var s := oldBuf[..];
    MulNonneg(g.oldStride, g.oldHeight);
    var ySize: nat := g.oldStride * g.oldHeight;
    var C := g.oldHeight / 2;
    cv1, cv2 := 0, 0;
    var y := 0;
    ghost var y2 := 0;
    while y < R * 2
      invariant y == 2 * y2 && y2 <= R
      invariant cv1 == PairBlockSum(s, ySize, g.oldStride, C, j / 2, i / 2, R, y2, 0)
      invariant cv2 == PairBlockSum(s, ySize, g.oldStride, C, j / 2, i / 2, R, y2, 1)
    {
      assert (j + y) / 2 == j / 2 + y2;
      cv1, cv2 := ChromaRowSums(oldBuf, g, R, ySize, j + y, i, cv1, cv2);
      y, y2 := y + 2, y2 + 1;
    }
  }

  /** The V and U sums of the R pairs of chroma row (j+y)/2 from pair column i/2, added to cv1 and cv2 as the code adds them. */
  method ChromaRowSums(oldBuf: array<byte>, g: Dims, R: nat, ySize: nat, jy: nat, i: nat, b1: nat, b2: nat) returns (cv1: nat, cv2: nat)
    requires ySize == g.oldStride * g.oldHeight && jy / 2 < g.oldHeight / 2 && 2 * (i / 2 + R) <= g.oldStride && OldSize(g) <= oldBuf.Length
    ensures cv1 == b1 + PairRowSum(oldBuf[..], ySize, g.oldStride, g.oldHeight / 2, jy / 2, i / 2, R, 0)
    ensures cv2 == b2 + PairRowSum(oldBuf[..], ySize, g.oldStride, g.oldHeight / 2, jy / 2, i / 2, R, 1)
  {
    ghost var s := oldBuf[..];
    var C := g.oldHeight / 2;
    assert ySize + g.oldStride * C <= |s|;
    cv1, cv2 := b1, b2;
    var x := 0;
    ghost var x2 := 0;
    while x < R * 2
      invariant x == 2 * x2 && x2 <= R
      invariant cv1 == b1 + PairRowSum(s, ySize, g.oldStride, C, jy / 2, i / 2, x2, 0)
      invariant cv2 == b2 + PairRowSum(s, ySize, g.oldStride, C, jy / 2, i / 2, x2, 1)
    {
      assert (i + x) / 2 == i / 2 + x2;
      var k := ySize + jy / 2 * g.oldStride + (i + x) / 2 * 2;
      assert x2 < R;
      PairRowStep(s, ySize, g.oldStride, C, jy / 2, i / 2, x2, 0);
      PairRowStep(s, ySize, g.oldStride, C, jy / 2, i / 2, x2, 1);
      cv1 := cv1 + oldBuf[k] as nat;
      cv2 := cv2 + oldBuf[k + 1] as nat;
      x, x2 := x + 2, x2 + 1;
    }
  }

  /** The byte the code stores for output pixel (q, p): its block sum cv1 divided by R*R. */
  method LumaValue(oldBuf: array<byte>, g: Dims, R: nat, ghost p: nat, ghost q: nat, j: int, i: int) returns (v: byte)
    requires WellFormed(g) && Fits(g, R) && R > 0 && OldSize(g) <= oldBuf.Length && p < g.newHeight && q < g.newWidth
    requires j == RowStart(g, R) + p * R && i == ColStart(g, R) + q * R
    ensures v == LumaMean(oldBuf[..], g, R, p, q)
  {
    LumaWindowInside(g, R, p, q);
    MulNonneg(p, R);
    MulNonneg(q, R);
    var cv1 := LumaBlockSum(oldBuf, g, R, j, i);
    ghost var mean := LumaMean(oldBuf[..], g, R, p, q);
    cv1 := cv1 / (R * R);
    assert cv1 == mean as nat;
    v := cv1 as byte;
  }

  /** The bytes the code stores for output pair (q2, p2): its V and U sums divided by R*R. */
  method ChromaValues(oldBuf: array<byte>, g: Dims, R: nat, ghost p2: nat, ghost q2: nat, j: int, i: int) returns (v: byte, u: byte)
    requires WellFormed(g) && Fits(g, R) && R > 0 && OldSize(g) <= oldBuf.Length
    requires p2 < g.newHeight / 2 && q2 < g.newWidth / 2
    requires j == RowStart(g, R) + p2 * (2 * R) && i == ColStart(g, R) + q2 * (2 * R)
    ensures v == ChromaMean(oldBuf[..], g, R, p2, q2, 0) && u == ChromaMean(oldBuf[..], g, R, p2, q2, 1)
  {
    ChromaWindowInside(g, R, p2, q2);
    var cv1, cv2 := ChromaBlockSums(oldBuf, g, R, j, i);
    ghost var mv, mu := ChromaMean(oldBuf[..], g, R, p2, q2, 0), ChromaMean(oldBuf[..], g, R, p2, q2, 1);
    cv1 := cv1 / (R * R);
    cv2 := cv2 / (R * R);
    assert cv1 == mv as nat && cv2 == mu as nat;
    v, u := cv1 as byte, cv2 as byte;
  }

  /**
   * One pass of the inner luma loop: output pixel q of row p, at
   * i = ColStart + q*R, is the mean of the R x R block from (i, j), written
   * at index p*newWidth + q.
   */
  method LumaRow(oldBuf: array<byte>, newBuf: array<byte>, g: Dims, R: nat, wC: int, j: int, ghost p: nat, index0: nat, ghost d: seq<byte>)
      returns (index: nat)
    requires oldBuf != newBuf && WellFormed(g) && Fits(g, R) && R > 0 && p < g.newHeight
    requires OldSize(g) <= oldBuf.Length && NewSize(g) <= newBuf.Length && |d| == newBuf.Length
    requires wC == g.oldWidth - g.newWidth * R && j == RowStart(g, R) + p * R
    requires index0 == p * g.newWidth && index0 + g.newWidth <= g.newWidth * g.newHeight
    requires newBuf[..] == WrittenUpTo(d, oldBuf[..], g, R, index0)
    modifies newBuf
    ensures index == index0 + g.newWidth && newBuf[..] == WrittenUpTo(d, oldBuf[..], g, R, index)
  {
    ghost var s := oldBuf[..];
    index := index0;
    var i := JavaDiv(wC, 2);
    ghost var q := 0;
    while i < g.newWidth * R + JavaDiv(wC, 2)
      invariant 0 <= q <= g.newWidth && i == ColStart(g, R) + q * R && index == p * g.newWidth + q
      invariant oldBuf[..] == s && newBuf[..] == WrittenUpTo(d, s, g, R, index)
      decreases g.newWidth * R + JavaDiv(wC, 2) - i
    {
      StepGuard(q, g.newWidth, R);
      GridIndex(q, p, g.newWidth, g.newHeight);
      MulSucc(q + 1, R);
      var cv1 := LumaValue(oldBuf, g, R, p, q, j, i);
      LumaOut(s, g, R, p, q);
      WrittenStep(d, s, g, R, index);
      newBuf[index] := cv1;
      index := index + 1;
      i, q := i + R, q + 1;
    }
    StepGuard(q, g.newWidth, R);
  }

  /**
   * The luma loops: row p of output pixels, at j = RowStart + p*R, fills
   * indices p*newWidth up to (p+1)*newWidth. A ratio of 0 runs no iteration.
   */
  method LumaPass(oldBuf: array<byte>, newBuf: array<byte>, g: Dims, R: nat, wC: int, hC: int)
    requires oldBuf != newBuf && WellFormed(g) && Fits(g, R)
    requires OldSize(g) <= oldBuf.Length && NewSize(g) <= newBuf.Length
    requires wC == g.oldWidth - g.newWidth * R && hC == g.oldHeight - g.newHeight * R
    modifies newBuf
    ensures newBuf[..] == WrittenUpTo(old(newBuf[..]), oldBuf[..], g, R, if R == 0 then 0 else g.newWidth * g.newHeight)
  {
    ghost var s, d := oldBuf[..], newBuf[..];
    var index := 0;
    WrittenNone(d, s, g, R);
    MulNonneg(g.newWidth, g.newHeight);
    var j := JavaDiv(hC, 2);
    ghost var p := 0;
    while j < g.newHeight * R + JavaDiv(hC, 2)
      invariant 0 <= p <= g.newHeight && j == RowStart(g, R) + p * R && index == p * g.newWidth
      invariant R == 0 ==> p == 0
      invariant index <= g.newWidth * g.newHeight
      invariant oldBuf[..] == s && newBuf[..] == WrittenUpTo(d, s, g, R, index)
      decreases g.newHeight * R + JavaDiv(hC, 2) - j
    {
      ZeroRatio(p, g.newHeight, R);
      assert R > 0;
      StepGuard(p, g.newHeight, R);
      NextRow(p, g.newHeight, g.newWidth, R);
      index := LumaRow(oldBuf, newBuf, g, R, wC, j, p, index, d);
      j, p := j + R, p + 1;
    }
    if R > 0 {
      StepGuard(p, g.newHeight, R);
      assert index == g.newWidth * g.newHeight;
    }
  }

  /**
   * One pass of the inner chroma loop: pair q2 of chroma row p2, at
   * i = ColStart + q2*2R, gets the means of the V and the U bytes of the
   * R x R old pairs from pair (i/2, j/2), written at index
   * newWidth*newHeight + p2*newWidth + 2*q2 and the byte after it.
   */
  method ChromaRow(oldBuf: array<byte>, newBuf: array<byte>, g: Dims, R: nat, wC: int, j: int, ghost p2: nat, index0: nat, ghost d: seq<byte>)
      returns (index: nat)
    requires oldBuf != newBuf && WellFormed(g) && Fits(g, R) && R > 0 && p2 < g.newHeight / 2
    requires OldSize(g) <= oldBuf.Length && NewSize(g) <= newBuf.Length && |d| == newBuf.Length
    requires wC == g.oldWidth - g.newWidth * R && j == RowStart(g, R) + p2 * (2 * R)
    requires index0 == g.newWidth * g.newHeight + p2 * g.newWidth && index0 + g.newWidth <= NewSize(g)
    requires newBuf[..] == WrittenUpTo(d, oldBuf[..], g, R, index0)
    modifies newBuf
    ensures index == index0 + g.newWidth && newBuf[..] == WrittenUpTo(d, oldBuf[..], g, R, index)
  {
    ghost var s := oldBuf[..];
    ghost var L := g.newWidth * g.newHeight;
    ghost var w2, h2 := g.newWidth / 2, g.newHeight / 2;
    assert L <= NewSize(g);
    HalfSteps(g.newWidth, w2, R);
    index := index0;
    var i := JavaDiv(wC, 2);
    ghost var q2 := 0;
    while i < g.newWidth * R + JavaDiv(wC, 2)
      invariant 0 <= q2 <= w2 && i == ColStart(g, R) + q2 * (2 * R) && index == L + p2 * g.newWidth + 2 * q2
      invariant oldBuf[..] == s && newBuf[..] == WrittenUpTo(d, s, g, R, index)
      decreases g.newWidth * R + JavaDiv(wC, 2) - i
    {
      StepGuard(q2, w2, 2 * R);
      MulSucc(q2 + 1, 2 * R);
      GridIndex(2 * q2 + 1, p2, g.newWidth, h2);
      index := ChromaPair(oldBuf, newBuf, g, R, j, i, p2, q2, index, d);
      i, q2 := i + R * 2, q2 + 1;
    }
    StepGuard(q2, w2, 2 * R);
  }

  /** Output pair (q2, p2): its V and U means, stored at index and the byte after it. */
  method ChromaPair(oldBuf: array<byte>, newBuf: array<byte>, g: Dims, R: nat, j: int, i: int, ghost p2: nat, ghost q2: nat,
                    index0: nat, ghost d: seq<byte>) returns (index: nat)
    requires oldBuf != newBuf && WellFormed(g) && Fits(g, R) && R > 0 && p2 < g.newHeight / 2 && q2 < g.newWidth / 2
    requires OldSize(g) <= oldBuf.Length && NewSize(g) <= newBuf.Length && |d| == newBuf.Length
    requires j == RowStart(g, R) + p2 * (2 * R) && i == ColStart(g, R) + q2 * (2 * R)
    requires index0 == g.newWidth * g.newHeight + p2 * g.newWidth + 2 * q2 && index0 + 2 <= NewSize(g)
    requires newBuf[..] == WrittenUpTo(d, oldBuf[..], g, R, index0)
    modifies newBuf
    ensures index == index0 + 2 && newBuf[..] == WrittenUpTo(d, oldBuf[..], g, R, index)
  {
    ghost var s := oldBuf[..];
    var cv1, cv2 := ChromaValues(oldBuf, g, R, p2, q2, j, i);
    ChromaOut(s, g, R, p2, q2, 0);
    ChromaOut(s, g, R, p2, q2, 1);
    WrittenStep(d, s, g, R, index0);
    newBuf[index0] := cv1;
    WrittenStep(d, s, g, R, index0 + 1);
    newBuf[index0 + 1] := cv2;
    index := index0 + 2;
  }

  /**
   * The chroma loops: chroma row p2, at j = RowStart + p2*2R, fills indices
   * newWidth*newHeight + p2*newWidth up to the next row. A ratio of 0 runs
   * no iteration.
   */
  method ChromaPass(oldBuf: array<byte>, newBuf: array<byte>, g: Dims, R: nat, wC: int, hC: int, ghost d: seq<byte>)
    requires oldBuf != newBuf && WellFormed(g) && Fits(g, R)
    requires OldSize(g) <= oldBuf.Length && NewSize(g) <= newBuf.Length && |d| == newBuf.Length
    requires wC == g.oldWidth - g.newWidth * R && hC == g.oldHeight - g.newHeight * R
    requires newBuf[..] == WrittenUpTo(d, oldBuf[..], g, R, if R == 0 then 0 else g.newWidth * g.newHeight)
    modifies newBuf
    ensures newBuf[..] == WrittenUpTo(d, oldBuf[..], g, R, if R == 0 then 0 else NewSize(g))
  {
    ghost var s := oldBuf[..];
    ghost var L := g.newWidth * g.newHeight;
    var index := g.newWidth * g.newHeight;
    var j := JavaDiv(hC, 2);
    ghost var p2 := 0;
    ghost var h2 := g.newHeight / 2;
    HalfSteps(g.newHeight, h2, R);
    assert L + h2 * g.newWidth == NewSize(g);
    while j < g.newHeight * R + JavaDiv(hC, 2)
      invariant 0 <= p2 <= h2 && j == RowStart(g, R) + p2 * (2 * R) && index == L + p2 * g.newWidth
      invariant index <= NewSize(g)
      invariant R == 0 ==> p2 == 0
      invariant newBuf[..] == WrittenUpTo(d, s, g, R, if R == 0 then 0 else index)
      decreases g.newHeight * R + JavaDiv(hC, 2) - j
    {
      ZeroRatio(p2, h2, 2 * R);
      assert R > 0;
      StepGuard(p2, h2, 2 * R);
      NextRow(p2, h2, g.newWidth, 2 * R);
      index := ChromaRow(oldBuf, newBuf, g, R, wC, j, p2, index, d);
      j, p2 := j + R * 2, p2 + 1;
    }
    if R > 0 {
      StepGuard(p2, h2, 2 * R);
      assert index == NewSize(g);
    }
  }

  /**
   * nativeResizeImage with the capped ratio: returns that ratio and leaves
   * the new buffer holding the resized frame.
   */
  method ResizeImage(oldBuf: array<byte>, newBuf: array<byte>, g: Dims) returns (R: nat)
    requires oldBuf != newBuf && WellFormed(g)
    requires OldSize(g) <= oldBuf.Length && NewSize(g) <= newBuf.Length
    modifies newBuf
    ensures R == FittedRatio(g)
    ensures newBuf[..] == Resized(old(newBuf[..]), oldBuf[..], g)
  {
    ghost var d := newBuf[..];
    R := FittedRatio(g);
    var wC := g.oldWidth - g.newWidth * R;
    var hC := g.oldHeight - g.newHeight * R;
    LumaPass(oldBuf, newBuf, g, R, wC, hC);
    ChromaPass(oldBuf, newBuf, g, R, wC, hC, d);
  }
}
