// nativeFlipNV21 of jni/image_util_jni.cpp: mirrors an NV21 frame with a row
// stride in place, either vertically (rows in reverse order) or horizontally
// (each row's first `width` bytes in reverse order, the gap bytes kept). The
// luma plane has `height` rows of `stride` bytes, the chroma plane after it
// height/2 rows of `stride` bytes of (V, U) pairs.
module Nv21Flip {
  import opened Bytes
  import opened Arith
  import opened Plane

  // ---- specification ----

  /** The plane of R rows of S bytes at base with its rows in reverse order. */
  function FlipRows(s: seq<byte>, base: nat, S: nat, R: nat): (r: seq<byte>)
    requires base + S * R <= |s|
    ensures |r| == |s|
  {
    seq(|s|, k requires 0 <= k < |s| =>
      if base <= k < base + S * R then
        CellOf(base, S, R, k);
        s[Cell(base, S, R, ColOf(base, S, k), R - 1 - RowOf(base, S, k))]
      else s[k])
  }

  /** The plane with the first `width` bytes of each row in reverse order. */
  function MirrorRows(s: seq<byte>, base: nat, S: nat, R: nat, width: nat): (r: seq<byte>)
    requires base + S * R <= |s| && width <= S
    ensures |r| == |s|
  {
    seq(|s|, k requires 0 <= k < |s| =>
      if base <= k < base + S * R && ColOf(base, S, k) < width then
        CellOf(base, S, R, k);
        s[Cell(base, S, R, width - 1 - ColOf(base, S, k), RowOf(base, S, k))]
      else s[k])
  }

  /**
   * Where the byte at column c comes from when the (V, U) pairs of a row are
   * mirrored within `width`: V from the V of the mirrored pair, U from its U.
   */
  function Partner(width: nat, c: nat): (p: nat)
    requires c < width && width % 2 == 0
    ensures p < width && p % 2 == c % 2
  {
    if c % 2 == 0 then width - 2 - c else width - c
  }

  /**
   * The plane with the first width/2 (V, U) pairs of each row in reverse
   * order, each pair keeping V before U.
   */
  function MirrorPairs(s: seq<byte>, base: nat, S: nat, R: nat, width: nat): (r: seq<byte>)
    requires base + S * R <= |s| && width <= S && width % 2 == 0
    ensures |r| == |s|
  {
    seq(|s|, k requires 0 <= k < |s| =>
      if base <= k < base + S * R && ColOf(base, S, k) < width then
        CellOf(base, S, R, k);
        s[Cell(base, S, R, Partner(width, ColOf(base, S, k)), RowOf(base, S, k))]
      else s[k])
  }

  /** Bytes an NV21 frame with this stride and height occupies. */
  function StridedSize(stride: nat, height: nat): nat
  {
    stride * height + stride * (height / 2)
  }

  /** The vertically flipped frame: luma rows and chroma rows each reversed. */
  function VerticalFlip(s: seq<byte>, stride: nat, height: nat): (r: seq<byte>)
    requires StridedSize(stride, height) <= |s|
    ensures |r| == |s|
  {
    FlipRows(FlipRows(s, 0, stride, height), stride * height, stride, height / 2)
  }

  /** The horizontally flipped frame: luma bytes and chroma pairs mirrored within `width`. */
  function HorizontalFlip(s: seq<byte>, stride: nat, height: nat, width: nat): (r: seq<byte>)
    requires StridedSize(stride, height) <= |s| && width <= stride && width % 2 == 0
    ensures |r| == |s|
  {
    MirrorPairs(MirrorRows(s, 0, stride, height, width), stride * height, stride, height / 2, width)
  }

  // ---- properties ----

  /** Flipping rows moves byte (x, y) to row R-1-y. */
  lemma FlipRowsAt(s: seq<byte>, base: nat, S: nat, R: nat, x: nat, y: nat)
    requires base + S * R <= |s| && x < S && y < R
    ensures FlipRows(s, base, S, R)[Cell(base, S, R, x, y)] == s[Cell(base, S, R, x, R - 1 - y)]
  {
  }

  /** Flipping the rows of a plane twice gives the plane back. */
  lemma FlipRowsTwice(s: seq<byte>, base: nat, S: nat, R: nat)
    requires base + S * R <= |s|
    ensures FlipRows(FlipRows(s, base, S, R), base, S, R) == s
  {
    var t := FlipRows(s, base, S, R);
    forall k | 0 <= k < |s| ensures FlipRows(t, base, S, R)[k] == s[k] {
      if base <= k < base + S * R {
        CellOf(base, S, R, k);
        var x, y := ColOf(base, S, k), RowOf(base, S, k);
        FlipRowsAt(t, base, S, R, x, y);
        FlipRowsAt(s, base, S, R, x, R - 1 - y);
      }
    }
  }

  /** Mirroring the rows of a plane twice gives the plane back. */
  lemma MirrorRowsTwice(s: seq<byte>, base: nat, S: nat, R: nat, width: nat)
    requires base + S * R <= |s| && width <= S
    ensures MirrorRows(MirrorRows(s, base, S, R, width), base, S, R, width) == s
  {
    var t := MirrorRows(s, base, S, R, width);
    forall k | 0 <= k < |s| ensures MirrorRows(t, base, S, R, width)[k] == s[k] {
      if base <= k < base + S * R && ColOf(base, S, k) < width {
        CellOf(base, S, R, k);
        var x, y := ColOf(base, S, k), RowOf(base, S, k);
        var m := Cell(base, S, R, width - 1 - x, y);
        assert MirrorRows(t, base, S, R, width)[k] == t[m];
        assert t[m] == s[Cell(base, S, R, x, y)];
      }
    }
  }

  /** Mirroring the pairs of a plane twice gives the plane back. */
  lemma MirrorPairsTwice(s: seq<byte>, base: nat, S: nat, R: nat, width: nat)
    requires base + S * R <= |s| && width <= S && width % 2 == 0
    ensures MirrorPairs(MirrorPairs(s, base, S, R, width), base, S, R, width) == s
  {
    var t := MirrorPairs(s, base, S, R, width);
    forall k | 0 <= k < |s| ensures MirrorPairs(t, base, S, R, width)[k] == s[k] {
      if base <= k < base + S * R && ColOf(base, S, k) < width {
        CellOf(base, S, R, k);
        var x, y := ColOf(base, S, k), RowOf(base, S, k);
        var x' := Partner(width, x);
        assert Partner(width, x') == x;
        var m := Cell(base, S, R, x', y);
        assert MirrorPairs(t, base, S, R, width)[k] == t[m];
        assert t[m] == s[Cell(base, S, R, x, y)];
      }
    }
  }

  /** Row flips of two disjoint planes can be done in either order. */
  lemma FlipRowsCommute(s: seq<byte>, b1: nat, R1: nat, b2: nat, S: nat, R2: nat)
    requires b1 + S * R1 <= b2 && b2 + S * R2 <= |s|
    ensures FlipRows(FlipRows(s, b1, S, R1), b2, S, R2) == FlipRows(FlipRows(s, b2, S, R2), b1, S, R1)
  {
  }

  /** Applying the vertical flip twice restores every byte. */
  lemma VerticalFlipTwice(s: seq<byte>, stride: nat, height: nat)
    requires StridedSize(stride, height) <= |s|
    ensures VerticalFlip(VerticalFlip(s, stride, height), stride, height) == s
  {
    var L, C := stride * height, height / 2;
    var a := FlipRows(s, 0, stride, height);
    var b := FlipRows(a, L, stride, C);
    FlipRowsCommute(b, 0, height, L, stride, C);
    FlipRowsTwice(a, L, stride, C);
    FlipRowsTwice(s, 0, stride, height);
  }

  /** Applying the horizontal flip twice restores every byte. */
  lemma HorizontalFlipTwice(s: seq<byte>, stride: nat, height: nat, width: nat)
    requires StridedSize(stride, height) <= |s| && width <= stride && width % 2 == 0
    ensures HorizontalFlip(HorizontalFlip(s, stride, height, width), stride, height, width) == s
  {
    var L, C := stride * height, height / 2;
    var a := MirrorRows(s, 0, stride, height, width);
    var b := MirrorPairs(a, L, stride, C, width);
    var c := MirrorRows(b, 0, stride, height, width);
    // the luma mirror and the chroma mirror touch disjoint planes
    assert c == MirrorPairs(MirrorRows(a, 0, stride, height, width), L, stride, C, width);
    MirrorRowsTwice(s, 0, stride, height, width);
    MirrorPairsTwice(s, L, stride, C, width);
  }

  /** The horizontal flip never changes a luma or chroma byte at or past column `width`. */
  lemma HorizontalFlipKeepsGap(s: seq<byte>, stride: nat, height: nat, width: nat, x: nat, y: nat)
    requires StridedSize(stride, height) <= |s| && width <= x < stride
    requires width % 2 == 0
    ensures y < height ==>
      HorizontalFlip(s, stride, height, width)[Cell(0, stride, height, x, y)] == s[Cell(0, stride, height, x, y)]
    ensures y < height / 2 ==>
      HorizontalFlip(s, stride, height, width)[Cell(stride * height, stride, height / 2, x, y)]
        == s[Cell(stride * height, stride, height / 2, x, y)]
  {
    var L, C := stride * height, height / 2;
    var a := MirrorRows(s, 0, stride, height, width);
    if y < height {
      var k := Cell(0, stride, height, x, y);
      assert a[k] == s[k];
      assert MirrorPairs(a, L, stride, C, width)[k] == a[k];
    }
    if y < C {
      var k := Cell(L, stride, C, x, y);
      assert a[k] == s[k];
      assert MirrorPairs(a, L, stride, C, width)[k] == a[k];
    }
  }


  // ---- loop states ----

  /**
   * The plane once the vertical flip loops have exchanged rows j and R-1-j
   * of the columns lo..hi-1 for every j below y.
   */
  function FlipColumnsUpTo(t: seq<byte>, base: nat, S: nat, R: nat, lo: nat, hi: nat, y: nat): (r: seq<byte>)
    requires lo <= hi <= S && base + S * R <= |t|
    ensures |r| == |t|
  {
    seq(|t|, k requires 0 <= k < |t| =>
      if base <= k < base + S * R && lo <= ColOf(base, S, k) < hi &&
         (RowOf(base, S, k) < y || R - 1 - RowOf(base, S, k) < y) then
        CellOf(base, S, R, k);
        t[Cell(base, S, R, ColOf(base, S, k), R - 1 - RowOf(base, S, k))]
      else t[k])
  }

  /**
   * The plane once the horizontal flip loops have exchanged the n columns
   * from a with the n columns from b in every row below y.
   */
  function SwapBlocksUpTo(t: seq<byte>, base: nat, S: nat, R: nat, a: nat, b: nat, n: nat, y: nat): (r: seq<byte>)
    requires (a + n <= b || a == b) && b + n <= S && y <= R && base + S * R <= |t|
    ensures |r| == |t|
  {
    seq(|t|, k requires 0 <= k < |t| =>
      if base <= k < base + S * R && RowOf(base, S, k) < y && a <= ColOf(base, S, k) < a + n then
        CellOf(base, S, R, k);
        t[Cell(base, S, R, ColOf(base, S, k) - a + b, RowOf(base, S, k))]
      else if base <= k < base + S * R && RowOf(base, S, k) < y && b <= ColOf(base, S, k) < b + n then
        CellOf(base, S, R, k);
        t[Cell(base, S, R, ColOf(base, S, k) - b + a, RowOf(base, S, k))]
      else t[k])
  }

  /** The plane once the horizontal luma loop has mirrored columns c and width-1-c for every c below x. */
  function MirrorUpTo(s: seq<byte>, base: nat, S: nat, R: nat, width: nat, x: nat): (r: seq<byte>)
    requires x <= width <= S && base + S * R <= |s|
    ensures |r| == |s|
  {
    seq(|s|, k requires 0 <= k < |s| =>
      if base <= k < base + S * R && (ColOf(base, S, k) < x || width - x <= ColOf(base, S, k) < width) then
        CellOf(base, S, R, k);
        s[Cell(base, S, R, width - 1 - ColOf(base, S, k), RowOf(base, S, k))]
      else s[k])
  }

  /** The plane once the horizontal chroma loop has mirrored the pairs at columns below x. */
  function MirrorPairsUpTo(s: seq<byte>, base: nat, S: nat, R: nat, width: nat, x: nat): (r: seq<byte>)
    requires x <= width <= S && width % 2 == 0 && base + S * R <= |s|
    ensures |r| == |s|
  {
    seq(|s|, k requires 0 <= k < |s| =>
      if base <= k < base + S * R && (ColOf(base, S, k) < x || width - x <= ColOf(base, S, k) < width) then
        CellOf(base, S, R, k);
        s[Cell(base, S, R, Partner(width, ColOf(base, S, k)), RowOf(base, S, k))]
      else s[k])
  }

  lemma FlipColumnsUpToAt(t: seq<byte>, base: nat, S: nat, R: nat, lo: nat, hi: nat, y: nat, c: nat, j: nat)
    requires lo <= hi <= S && base + S * R <= |t| && c < S && j < R
    ensures FlipColumnsUpTo(t, base, S, R, lo, hi, y)[Cell(base, S, R, c, j)] ==
      if lo <= c < hi && (j < y || R - 1 - j < y) then t[Cell(base, S, R, c, R - 1 - j)] else t[Cell(base, S, R, c, j)]
  {
  }

  lemma SwapBlocksUpToAt(t: seq<byte>, base: nat, S: nat, R: nat, a: nat, b: nat, n: nat, y: nat, c: nat, j: nat)
    requires (a + n <= b || a == b) && b + n <= S && y <= R && base + S * R <= |t| && c < S && j < R
    ensures SwapBlocksUpTo(t, base, S, R, a, b, n, y)[Cell(base, S, R, c, j)] ==
      if j < y && a <= c < a + n then t[Cell(base, S, R, c - a + b, j)]
      else if j < y && b <= c < b + n then t[Cell(base, S, R, c - b + a, j)]
      else t[Cell(base, S, R, c, j)]
  {
  }

  /** Before the first row nothing has moved. */
  lemma FlipColumnsNone(t: seq<byte>, base: nat, S: nat, R: nat, lo: nat, hi: nat)
    requires lo <= hi <= S && base + S * R <= |t|
    ensures FlipColumnsUpTo(t, base, S, R, lo, hi, 0) == t
  {
    forall k | 0 <= k < |t| ensures FlipColumnsUpTo(t, base, S, R, lo, hi, 0)[k] == t[k] {
      if base <= k < base + S * R {
        CellOf(base, S, R, k);
      }
    }
  }

  /** Before the first row nothing has moved. */
  lemma SwapBlocksNone(t: seq<byte>, base: nat, S: nat, R: nat, a: nat, b: nat, n: nat)
    requires (a + n <= b || a == b) && b + n <= S && base + S * R <= |t|
    ensures SwapBlocksUpTo(t, base, S, R, a, b, n, 0) == t
  {
    forall k | 0 <= k < |t| ensures SwapBlocksUpTo(t, base, S, R, a, b, n, 0)[k] == t[k] {
      if base <= k < base + S * R {
        CellOf(base, S, R, k);
      }
    }
  }

  /** One step of the vertical luma loop: two bytes of column x exchanged. */
  lemma FlipColumnStep(t: seq<byte>, base: nat, S: nat, R: nat, x: nat, y: nat)
    requires x < S && base + S * R <= |t| && y < R / 2
    ensures var p, top, bottom := FlipColumnsUpTo(t, base, S, R, x, x + 1, y), Cell(base, S, R, x, y), Cell(base, S, R, x, R - 1 - y);
      p[top] == t[top] && p[bottom] == t[bottom] &&
      FlipColumnsUpTo(t, base, S, R, x, x + 1, y + 1) == p[top := t[bottom]][bottom := t[top]]
  {
    var p, q := FlipColumnsUpTo(t, base, S, R, x, x + 1, y), FlipColumnsUpTo(t, base, S, R, x, x + 1, y + 1);
    var top, bottom := Cell(base, S, R, x, y), Cell(base, S, R, x, R - 1 - y);
    FlipColumnsUpToAt(t, base, S, R, x, x + 1, y, x, y);
    FlipColumnsUpToAt(t, base, S, R, x, x + 1, y, x, R - 1 - y);
    forall k | 0 <= k < |t| ensures q[k] == p[top := t[bottom]][bottom := t[top]][k] {
      if base <= k < base + S * R {
        CellOf(base, S, R, k);
        FlipColumnsUpToAt(t, base, S, R, x, x + 1, y, ColOf(base, S, k), RowOf(base, S, k));
        FlipColumnsUpToAt(t, base, S, R, x, x + 1, y + 1, ColOf(base, S, k), RowOf(base, S, k));
      }
    }
  }

  /** One step of the vertical chroma loop: two pairs of columns x, x1 = x+1 exchanged. */
  lemma FlipPairColumnStep(t: seq<byte>, base: nat, S: nat, R: nat, x: nat, x1: nat, y: nat)
    requires x1 == x + 1 && x1 < S && base + S * R <= |t| && y < R / 2
    ensures var p := FlipColumnsUpTo(t, base, S, R, x, x + 2, y);
      var v0, u0, v1, u1 := Cell(base, S, R, x, y), Cell(base, S, R, x1, y), Cell(base, S, R, x, R - 1 - y), Cell(base, S, R, x1, R - 1 - y);
      p[v0] == t[v0] && p[u0] == t[u0] && p[v1] == t[v1] && p[u1] == t[u1] &&
      FlipColumnsUpTo(t, base, S, R, x, x + 2, y + 1) == p[v0 := t[v1]][u0 := t[u1]][v1 := t[v0]][u1 := t[u0]]
  {
    var p, q := FlipColumnsUpTo(t, base, S, R, x, x + 2, y), FlipColumnsUpTo(t, base, S, R, x, x + 2, y + 1);
    var v0, u0, v1, u1 := Cell(base, S, R, x, y), Cell(base, S, R, x1, y), Cell(base, S, R, x, R - 1 - y), Cell(base, S, R, x1, R - 1 - y);
    FlipColumnsUpToAt(t, base, S, R, x, x + 2, y, x, y);
    FlipColumnsUpToAt(t, base, S, R, x, x + 2, y, x1, y);
    FlipColumnsUpToAt(t, base, S, R, x, x + 2, y, x, R - 1 - y);
    FlipColumnsUpToAt(t, base, S, R, x, x + 2, y, x1, R - 1 - y);
    forall k | 0 <= k < |t| ensures q[k] == p[v0 := t[v1]][u0 := t[u1]][v1 := t[v0]][u1 := t[u0]][k] {
      if base <= k < base + S * R {
        CellOf(base, S, R, k);
        var c, j := ColOf(base, S, k), RowOf(base, S, k);
        FlipColumnsUpToAt(t, base, S, R, x, x + 2, y + 1, c, j);
        if !((c == x || c == x1) && (j == y || j == R - 1 - y)) {
          FlipColumnsUpToAt(t, base, S, R, x, x + 2, y, c, j);
        }
      }
    }
  }

  /** One step of the horizontal luma loop: columns a and b exchanged in row y. */
  lemma SwapColumnStep(t: seq<byte>, base: nat, S: nat, R: nat, a: nat, b: nat, y: nat)
    requires a < b < S && base + S * R <= |t| && y < R
    ensures var p, left, right := SwapBlocksUpTo(t, base, S, R, a, b, 1, y), Cell(base, S, R, a, y), Cell(base, S, R, b, y);
      p[left] == t[left] && p[right] == t[right] &&
      SwapBlocksUpTo(t, base, S, R, a, b, 1, y + 1) == p[left := t[right]][right := t[left]]
  {
    var p, q := SwapBlocksUpTo(t, base, S, R, a, b, 1, y), SwapBlocksUpTo(t, base, S, R, a, b, 1, y + 1);
    var left, right := Cell(base, S, R, a, y), Cell(base, S, R, b, y);
    SwapBlocksUpToAt(t, base, S, R, a, b, 1, y, a, y);
    SwapBlocksUpToAt(t, base, S, R, a, b, 1, y, b, y);
    forall k | 0 <= k < |t| ensures q[k] == p[left := t[right]][right := t[left]][k] {
      if base <= k < base + S * R {
        CellOf(base, S, R, k);
        SwapBlocksUpToAt(t, base, S, R, a, b, 1, y, ColOf(base, S, k), RowOf(base, S, k));
        SwapBlocksUpToAt(t, base, S, R, a, b, 1, y + 1, ColOf(base, S, k), RowOf(base, S, k));
      }
    }
  }

  /** One step of the horizontal chroma loop: the pairs at a, a1 = a+1 and b, b1 = b+1 exchanged in row y. */
  lemma SwapPairStep(t: seq<byte>, base: nat, S: nat, R: nat, a: nat, a1: nat, b: nat, b1: nat, y: nat)
    requires a1 == a + 1 && b1 == b + 1 && (a + 2 <= b || a == b) && b1 < S && base + S * R <= |t| && y < R
    ensures var p := SwapBlocksUpTo(t, base, S, R, a, b, 2, y);
      var v0, u0, v1, u1 := Cell(base, S, R, a, y), Cell(base, S, R, a1, y), Cell(base, S, R, b, y), Cell(base, S, R, b1, y);
      p[v0] == t[v0] && p[u0] == t[u0] && p[v1] == t[v1] && p[u1] == t[u1] &&
      SwapBlocksUpTo(t, base, S, R, a, b, 2, y + 1) == p[v0 := t[v1]][u0 := t[u1]][v1 := t[v0]][u1 := t[u0]]
  {
    var p, q := SwapBlocksUpTo(t, base, S, R, a, b, 2, y), SwapBlocksUpTo(t, base, S, R, a, b, 2, y + 1);
    var v0, u0, v1, u1 := Cell(base, S, R, a, y), Cell(base, S, R, a1, y), Cell(base, S, R, b, y), Cell(base, S, R, b1, y);
    SwapBlocksUpToAt(t, base, S, R, a, b, 2, y, a, y);
    SwapBlocksUpToAt(t, base, S, R, a, b, 2, y, a1, y);
    SwapBlocksUpToAt(t, base, S, R, a, b, 2, y, b, y);
    SwapBlocksUpToAt(t, base, S, R, a, b, 2, y, b1, y);
    forall k | 0 <= k < |t| ensures q[k] == p[v0 := t[v1]][u0 := t[u1]][v1 := t[v0]][u1 := t[u0]][k] {
      if base <= k < base + S * R {
        CellOf(base, S, R, k);
        var c, j := ColOf(base, S, k), RowOf(base, S, k);
        SwapBlocksUpToAt(t, base, S, R, a, b, 2, y + 1, c, j);
        if !((c == a || c == a1 || c == b || c == b1) && j == y) {
          SwapBlocksUpToAt(t, base, S, R, a, b, 2, y, c, j);
        }
      }
    }
  }

  /** Flipping the next columns after the first x extends the flipped region. */
  lemma FlipColumnsExtend(s: seq<byte>, base: nat, S: nat, R: nat, x: nat, hi: nat)
    requires x <= hi <= S && base + S * R <= |s|
    ensures FlipColumnsUpTo(FlipColumnsUpTo(s, base, S, R, 0, x, R / 2), base, S, R, x, hi, R / 2)
      == FlipColumnsUpTo(s, base, S, R, 0, hi, R / 2)
  {
    var p := FlipColumnsUpTo(s, base, S, R, 0, x, R / 2);
    forall k | 0 <= k < |s| ensures FlipColumnsUpTo(p, base, S, R, x, hi, R / 2)[k] == FlipColumnsUpTo(s, base, S, R, 0, hi, R / 2)[k] {
      if base <= k < base + S * R {
        CellOf(base, S, R, k);
        var c, j := ColOf(base, S, k), RowOf(base, S, k);
        FlipColumnsUpToAt(p, base, S, R, x, hi, R / 2, c, j);
        FlipColumnsUpToAt(s, base, S, R, 0, hi, R / 2, c, j);
        FlipColumnsUpToAt(s, base, S, R, 0, x, R / 2, c, j);
        FlipColumnsUpToAt(s, base, S, R, 0, x, R / 2, c, R - 1 - j);
      }
    }
  }

  /** With every column done the plane's rows are reversed. */
  lemma FlipColumnsAll(s: seq<byte>, base: nat, S: nat, R: nat)
    requires base + S * R <= |s|
    ensures FlipColumnsUpTo(s, base, S, R, 0, S, R / 2) == FlipRows(s, base, S, R)
  {
    forall k | 0 <= k < |s| ensures FlipColumnsUpTo(s, base, S, R, 0, S, R / 2)[k] == FlipRows(s, base, S, R)[k] {
      if base <= k < base + S * R {
        CellOf(base, S, R, k);
      }
    }
  }

  lemma MirrorUpToAt(s: seq<byte>, base: nat, S: nat, R: nat, width: nat, x: nat, c: nat, j: nat)
    requires x <= width <= S && base + S * R <= |s| && c < S && j < R
    ensures MirrorUpTo(s, base, S, R, width, x)[Cell(base, S, R, c, j)] ==
      if c < x || width - x <= c < width then s[Cell(base, S, R, width - 1 - c, j)] else s[Cell(base, S, R, c, j)]
  {
  }

  lemma MirrorPairsUpToAt(s: seq<byte>, base: nat, S: nat, R: nat, width: nat, x: nat, c: nat, j: nat)
    requires x <= width <= S && width % 2 == 0 && base + S * R <= |s| && c < S && j < R
    ensures MirrorPairsUpTo(s, base, S, R, width, x)[Cell(base, S, R, c, j)] ==
      if c < x || width - x <= c < width then s[Cell(base, S, R, Partner(width, c), j)] else s[Cell(base, S, R, c, j)]
  {
  }

  /** Exchanging columns x and b = width-1-x extends the mirrored region by one column. */
  lemma MirrorExtend(s: seq<byte>, base: nat, S: nat, R: nat, width: nat, x: nat, x1: nat, b: nat)
    requires x < width / 2 && x1 == x + 1 && b == width - 1 - x && width <= S && base + S * R <= |s|
    ensures SwapBlocksUpTo(MirrorUpTo(s, base, S, R, width, x), base, S, R, x, b, 1, R)
      == MirrorUpTo(s, base, S, R, width, x1)
  {
    var p := MirrorUpTo(s, base, S, R, width, x);
    var q := MirrorUpTo(s, base, S, R, width, x1);
    forall k | 0 <= k < |s| ensures SwapBlocksUpTo(p, base, S, R, x, b, 1, R)[k] == q[k] {
      if base <= k < base + S * R {
        CellOf(base, S, R, k);
        var c, j := ColOf(base, S, k), RowOf(base, S, k);
        SwapBlocksUpToAt(p, base, S, R, x, b, 1, R, c, j);
        MirrorUpToAt(s, base, S, R, width, x1, c, j);
        if c == x {
          MirrorUpToAt(s, base, S, R, width, x, b, j);
        } else if c == b {
          MirrorUpToAt(s, base, S, R, width, x, x, j);
        } else {
          MirrorUpToAt(s, base, S, R, width, x, c, j);
        }
      }
    }
  }

  /** Exchanging the pairs at x and b = width-2-x extends the mirrored region by one pair. */
  lemma MirrorPairsExtend(s: seq<byte>, base: nat, S: nat, R: nat, width: nat, x: nat, x2: nat, b: nat)
    requires x % 2 == 0 && x < width / 2 && x2 == x + 2 && b == width - 2 - x
    requires width <= S && width % 2 == 0 && base + S * R <= |s|
    ensures SwapBlocksUpTo(MirrorPairsUpTo(s, base, S, R, width, x), base, S, R, x, b, 2, R)
      == MirrorPairsUpTo(s, base, S, R, width, x2)
  {
    var p := MirrorPairsUpTo(s, base, S, R, width, x);
    var q := MirrorPairsUpTo(s, base, S, R, width, x2);
    forall k | 0 <= k < |s| ensures SwapBlocksUpTo(p, base, S, R, x, b, 2, R)[k] == q[k] {
      if base <= k < base + S * R {
        CellOf(base, S, R, k);
        var c, j := ColOf(base, S, k), RowOf(base, S, k);
        SwapBlocksUpToAt(p, base, S, R, x, b, 2, R, c, j);
        MirrorPairsUpToAt(s, base, S, R, width, x2, c, j);
        if c == x || c == x + 1 {
          assert Partner(width, c) == c - x + b by {
            if c == x { assert c % 2 == 0; } else { assert c % 2 == 1; }
          }
          MirrorPairsUpToAt(s, base, S, R, width, x, c - x + b, j);
        } else if c == b || c == b + 1 {
          assert Partner(width, c) == c - b + x by {
            if c == b { assert c % 2 == 0; } else { assert c % 2 == 1; }
          }
          MirrorPairsUpToAt(s, base, S, R, width, x, c - b + x, j);
        } else {
          MirrorPairsUpToAt(s, base, S, R, width, x, c, j);
        }
      }
    }
  }

  /** Before the first column nothing is mirrored; after the middle one the whole width is. */
  lemma MirrorEnds(s: seq<byte>, base: nat, S: nat, R: nat, width: nat)
    requires width <= S && base + S * R <= |s|
    ensures MirrorUpTo(s, base, S, R, width, 0) == s
    ensures MirrorUpTo(s, base, S, R, width, width / 2) == MirrorRows(s, base, S, R, width)
  {
    forall k | 0 <= k < |s| ensures MirrorUpTo(s, base, S, R, width, 0)[k] == s[k] {
      if base <= k < base + S * R {
        CellOf(base, S, R, k);
      }
    }
    forall k | 0 <= k < |s| ensures MirrorUpTo(s, base, S, R, width, width / 2)[k] == MirrorRows(s, base, S, R, width)[k] {
      if base <= k < base + S * R {
        CellOf(base, S, R, k);
      }
    }
  }

  /** Before the first pair nothing is mirrored; from the middle pair on the whole width is. */
  lemma MirrorPairsEnds(s: seq<byte>, base: nat, S: nat, R: nat, width: nat, x: nat)
    requires width / 2 <= x <= width && width <= S && width % 2 == 0 && base + S * R <= |s|
    ensures MirrorPairsUpTo(s, base, S, R, width, 0) == s
    ensures MirrorPairsUpTo(s, base, S, R, width, x) == MirrorPairs(s, base, S, R, width)
  {
    forall k | 0 <= k < |s| ensures MirrorPairsUpTo(s, base, S, R, width, 0)[k] == s[k] {
      if base <= k < base + S * R {
        CellOf(base, S, R, k);
      }
    }
    forall k | 0 <= k < |s| ensures MirrorPairsUpTo(s, base, S, R, width, x)[k] == MirrorPairs(s, base, S, R, width)[k] {
      if base <= k < base + S * R {
        CellOf(base, S, R, k);
      }
    }
  }

  // ---- the in-place loops ----

  /** Inner loop of the vertical luma flip: rows y and R-1-y of column x exchanged for y < R/2. */
  method FlipColumn(buf: array<byte>, base: nat, S: nat, R: nat, x: nat)
    requires x < S && base + S * R <= buf.Length
    modifies buf
    ensures buf[..] == FlipColumnsUpTo(old(buf[..]), base, S, R, x, x + 1, R / 2)
  {
    ghost var t := buf[..];
    FlipColumnsNone(t, base, S, R, x, x + 1);
    for y := 0 to R / 2
      invariant buf[..] == FlipColumnsUpTo(t, base, S, R, x, x + 1, y)
    {
      var top, bottom := Cell(base, S, R, x, y), Cell(base, S, R, x, R - 1 - y);
      FlipColumnStep(t, base, S, R, x, y);
      var temp1 := buf[top];
      buf[top] := buf[bottom];
      buf[bottom] := temp1;
    }
  }

  /** Vertical flip of the luma plane: every column flipped, left to right. */
  method FlipLumaVertical(buf: array<byte>, base: nat, S: nat, R: nat)
    requires base + S * R <= buf.Length
    modifies buf
    ensures buf[..] == FlipRows(old(buf[..]), base, S, R)
  {
    ghost var s := buf[..];
    FlipColumnsNone(s, base, S, R, 0, 0);
    for x := 0 to S
      invariant buf[..] == FlipColumnsUpTo(s, base, S, R, 0, x, R / 2)
    {
      FlipColumn(buf, base, S, R, x);
      FlipColumnsExtend(s, base, S, R, x, x + 1);
    }
    FlipColumnsAll(s, base, S, R);
  }

  /**
   * Inner loop of the vertical chroma flip: the (V, U) pairs at columns x and
   * x1 = x+1 of rows y and R-1-y exchanged through two temporaries for y < R/2.
   */
  method FlipPairColumn(buf: array<byte>, base: nat, S: nat, R: nat, x: nat, x1: nat)
    requires x1 == x + 1 && x1 < S && base + S * R <= buf.Length
    modifies buf
    ensures buf[..] == FlipColumnsUpTo(old(buf[..]), base, S, R, x, x + 2, R / 2)
  {
    ghost var t := buf[..];
    FlipColumnsNone(t, base, S, R, x, x + 2);
    for y := 0 to R / 2
      invariant buf[..] == FlipColumnsUpTo(t, base, S, R, x, x + 2, y)
    {
      var v0, u0 := Cell(base, S, R, x, y), Cell(base, S, R, x1, y);
      var v1, u1 := Cell(base, S, R, x, R - 1 - y), Cell(base, S, R, x1, R - 1 - y);
      FlipPairColumnStep(t, base, S, R, x, x1, y);
      var temp1 := buf[v0];
      var temp2 := buf[u0];
      buf[v0] := buf[v1];
      buf[u0] := buf[u1];
      buf[v1] := temp1;
      buf[u1] := temp2;
    }
  }

  /** Vertical flip of the chroma plane: every (V, U) column pair flipped, left to right. */
  method FlipChromaVertical(buf: array<byte>, base: nat, S: nat, R: nat)
    requires S % 2 == 0 && base + S * R <= buf.Length
    modifies buf
    ensures buf[..] == FlipRows(old(buf[..]), base, S, R)
  {
    ghost var s := buf[..];
    FlipColumnsNone(s, base, S, R, 0, 0);
    var x := 0;
    while x < S
      invariant x % 2 == 0 && x <= S
      invariant buf[..] == FlipColumnsUpTo(s, base, S, R, 0, x, R / 2)
    {
      FlipPairColumn(buf, base, S, R, x, x + 1);
      FlipColumnsExtend(s, base, S, R, x, x + 2);
      x := x + 2;
    }
    FlipColumnsAll(s, base, S, R);
  }

  /** Inner loop of the horizontal luma flip: columns a and b exchanged in every row. */
  method SwapColumns(buf: array<byte>, base: nat, S: nat, R: nat, a: nat, b: nat)
    requires a < b < S && base + S * R <= buf.Length
    modifies buf
    ensures buf[..] == SwapBlocksUpTo(old(buf[..]), base, S, R, a, b, 1, R)
  {
    ghost var t := buf[..];
    SwapBlocksNone(t, base, S, R, a, b, 1);
    for y := 0 to R
      invariant buf[..] == SwapBlocksUpTo(t, base, S, R, a, b, 1, y)
    {
      var left, right := Cell(base, S, R, a, y), Cell(base, S, R, b, y);
      SwapColumnStep(t, base, S, R, a, b, y);
      var temp1 := buf[left];
      buf[left] := buf[right];
      buf[right] := temp1;
    }
  }

  /** Horizontal flip of the luma plane: columns x and width-1-x exchanged for x < width/2. */
  method FlipLumaHorizontal(buf: array<byte>, base: nat, S: nat, R: nat, width: nat)
    requires width <= S && base + S * R <= buf.Length
    modifies buf
    ensures buf[..] == MirrorRows(old(buf[..]), base, S, R, width)
  {
    ghost var s := buf[..];
    MirrorEnds(s, base, S, R, width);
    for x := 0 to width / 2
      invariant buf[..] == MirrorUpTo(s, base, S, R, width, x)
    {
      SwapColumns(buf, base, S, R, x, width - 1 - x);
      MirrorExtend(s, base, S, R, width, x, x + 1, width - 1 - x);
    }
  }

  /**
   * Inner loop of the horizontal chroma flip: the pair at columns a, a1 = a+1
   * and the pair at b, b1 = b+1 exchanged in every row through two
   * temporaries, V with V and U with U (the same pair when a == b).
   */
  method SwapPairColumns(buf: array<byte>, base: nat, S: nat, R: nat, a: nat, a1: nat, b: nat, b1: nat)
    requires a1 == a + 1 && b1 == b + 1 && (a + 2 <= b || a == b) && b1 < S && base + S * R <= buf.Length
    modifies buf
    ensures buf[..] == SwapBlocksUpTo(old(buf[..]), base, S, R, a, b, 2, R)
  {
    ghost var t := buf[..];
    SwapBlocksNone(t, base, S, R, a, b, 2);
    for y := 0 to R
      invariant buf[..] == SwapBlocksUpTo(t, base, S, R, a, b, 2, y)
    {
      var v0, u0 := Cell(base, S, R, a, y), Cell(base, S, R, a1, y);
      var v1, u1 := Cell(base, S, R, b, y), Cell(base, S, R, b1, y);
      SwapPairStep(t, base, S, R, a, a1, b, b1, y);
      var temp1 := buf[v0];
      var temp2 := buf[u0];
      buf[v0] := buf[v1];
      buf[u0] := buf[u1];
      buf[v1] := temp1;
      buf[u1] := temp2;
    }
  }

  /** Horizontal flip of the chroma plane: pairs at x and width-2-x exchanged for even x < width/2. */
  method FlipChromaHorizontal(buf: array<byte>, base: nat, S: nat, R: nat, width: nat)
    requires width <= S && width % 2 == 0 && base + S * R <= buf.Length
    modifies buf
    ensures buf[..] == MirrorPairs(old(buf[..]), base, S, R, width)
  {
    ghost var s := buf[..];
    MirrorPairsEnds(s, base, S, R, width, width);
    var x := 0;
    while x < width / 2
      invariant x % 2 == 0 && x <= width
      invariant buf[..] == MirrorPairsUpTo(s, base, S, R, width, x)
    {
      SwapPairColumns(buf, base, S, R, x, x + 1, width - 2 - x, width - 1 - x);
      MirrorPairsExtend(s, base, S, R, width, x, x + 2, width - 2 - x);
      x := x + 2;
    }
    MirrorPairsEnds(s, base, S, R, width, x);
  }

  /**
   * nativeFlipNV21: flips the frame in place. The luma plane is `height` rows
   * of `stride` bytes; the chroma plane follows at stride*height. A
   * horizontal flip mirrors only the first stride-gap bytes of each row.
   */
  method FlipNV21(buf: array<byte>, stride: nat, height: nat, gap: int, isVertical: bool)
    requires stride % 2 == 0 && StridedSize(stride, height) <= buf.Length
    requires !isVertical ==> 0 <= gap <= stride && gap % 2 == 0
    modifies buf
    ensures isVertical ==> buf[..] == VerticalFlip(old(buf[..]), stride, height)
    ensures !isVertical ==> buf[..] == HorizontalFlip(old(buf[..]), stride, height, stride - gap)
  {
    var ysize := stride * height;
    if isVertical {
      FlipLumaVertical(buf, 0, stride, height);
      FlipChromaVertical(buf, ysize, stride, height / 2);
    } else {
      var width := stride - gap;
      FlipLumaHorizontal(buf, 0, stride, height, width);
      FlipChromaHorizontal(buf, ysize, stride, height / 2, width);
    }
  }
}
