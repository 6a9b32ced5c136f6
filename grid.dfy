// Row-major W x H grids stored in flat sequences, and the three right-angle
// rotations of such a grid, each listed in the cell order in which the
// camera's rotation loops write them (jni/image_util_jni.cpp).
module Grid {
  import opened Arith

  /** Column x read from the bottom row up: what rotation by 90 writes for column x. */
  function Col90<T>(g: seq<T>, W: nat, H: nat, x: nat): (c: seq<T>)
    requires x < W && |g| >= W * H
    ensures |c| == H
  {
    seq(H, j requires 0 <= j < H => GridIndex(x, H - 1 - j, W, H); g[(H - 1 - j) * W + x])
  }

  /** Column x read from the top row down: what rotation by 270 writes for column x. */
  function Col270<T>(g: seq<T>, W: nat, H: nat, x: nat): (c: seq<T>)
    requires x < W && |g| >= W * H
    ensures |c| == H
  {
    seq(H, j requires 0 <= j < H => GridIndex(x, j, W, H); g[j * W + x])
  }

  /** Row y read from right to left: what rotation by 180 writes for row y. */
  function RevRow<T>(g: seq<T>, W: nat, H: nat, y: nat): (c: seq<T>)
    requires y < H && |g| >= W * H
    ensures |c| == W
  {
    seq(W, j requires 0 <= j < W => GridIndex(W - 1 - j, y, W, H); g[y * W + (W - 1 - j)])
  }

  /** The first n columns of the rotation by 90, left column first. */
  function Rot90Cols<T>(g: seq<T>, W: nat, H: nat, n: nat): (r: seq<T>)
    requires n <= W && |g| >= W * H
    ensures |r| == n * H
  {
    if n == 0 then [] else Rot90Cols(g, W, H, n - 1) + Col90(g, W, H, n - 1)
  }

  /** The first n columns of the rotation by 270, right column first. */
  function Rot270Cols<T>(g: seq<T>, W: nat, H: nat, n: nat): (r: seq<T>)
    requires n <= W && |g| >= W * H
    ensures |r| == n * H
  {
    if n == 0 then [] else Rot270Cols(g, W, H, n - 1) + Col270(g, W, H, W - n)
  }

  /** The first n rows of the rotation by 180, bottom row first. */
  function Rot180Rows<T>(g: seq<T>, W: nat, H: nat, n: nat): (r: seq<T>)
    requires n <= H && |g| >= W * H
    ensures |r| == n * W
  {
    if n == 0 then [] else Rot180Rows(g, W, H, n - 1) + RevRow(g, W, H, H - n)
  }

  /** The grid rotated by 90, 270 or (any other degree) 180. */
  function Rotated<T>(g: seq<T>, W: nat, H: nat, deg: int): (r: seq<T>)
    requires |g| >= W * H
    ensures |r| == W * H
  {
    if deg == 90 then Rot90Cols(g, W, H, W)
    else if deg == 270 then Rot270Cols(g, W, H, W)
    else Rot180Rows(g, W, H, H)
  }

  lemma {:induction false} Rot90ColsAt<T>(g: seq<T>, W: nat, H: nat, n: nat, c: nat, j: nat)
    requires n <= W && |g| >= W * H && c < n && j < H
    ensures c * H + j < n * H
    ensures Rot90Cols(g, W, H, n)[c * H + j] == Col90(g, W, H, c)[j]
  {
    MulLe(c + 1, n, H);
    assert (c + 1) * H == c * H + H;
    if c < n - 1 {
      Rot90ColsAt(g, W, H, n - 1, c, j);
    } else {
      assert c * H == (n - 1) * H;
    }
  }

  lemma {:induction false} Rot270ColsAt<T>(g: seq<T>, W: nat, H: nat, n: nat, c: nat, x: nat, j: nat)
    requires n <= W && |g| >= W * H && c < n && c + x == W - 1 && j < H
    ensures c * H + j < n * H
    ensures Rot270Cols(g, W, H, n)[c * H + j] == Col270(g, W, H, x)[j]
  {
    MulLe(c + 1, n, H);
    assert (c + 1) * H == c * H + H;
    if c < n - 1 {
      Rot270ColsAt(g, W, H, n - 1, c, x, j);
    } else {
      assert c * H == (n - 1) * H;
    }
  }

  lemma {:induction false} Rot180RowsAt<T>(g: seq<T>, W: nat, H: nat, n: nat, r: nat, j: nat)
    requires n <= H && |g| >= W * H && r < n && j < W
    ensures r * W + j < n * W
    ensures Rot180Rows(g, W, H, n)[r * W + j] == RevRow(g, W, H, H - 1 - r)[j]
  {
    MulLe(r + 1, n, W);
    assert (r + 1) * W == r * W + W;
    if r < n - 1 {
      Rot180RowsAt(g, W, H, n - 1, r, j);
    } else {
      assert r * W == (n - 1) * W;
    }
  }

  /** Rotation by 90 sends cell (x, y) to column H-1-y of row x of the H-wide result. */
  lemma Rotate90At<T>(g: seq<T>, W: nat, H: nat, x: nat, y: nat, r: nat)
    requires |g| >= W * H && x < W && y < H && r == H - 1 - y
    ensures x * H + r < W * H && y * W + x < W * H
    ensures Rotated(g, W, H, 90)[x * H + r] == g[y * W + x]
  {
    Rot90ColsAt(g, W, H, W, x, r);
    GridIndex(x, y, W, H);
  }

  /**
   * Rotation by 270 sends cell (x, y) to column y of row c = W-1-x of the
   * H-wide result.
   */
  lemma Rotate270At<T>(g: seq<T>, W: nat, H: nat, x: nat, y: nat, c: nat)
    requires |g| >= W * H && x < W && y < H && c == W - 1 - x
    ensures c * H + y < W * H && y * W + x < W * H
    ensures Rotated(g, W, H, 270)[c * H + y] == g[y * W + x]
  {
    Rot270ColsAt(g, W, H, W, c, x, y);
    GridIndex(x, y, W, H);
  }

  /** Rotation by 180 sends cell (x, y) to cell (c, r) = (W-1-x, H-1-y). */
  lemma Rotate180At<T>(g: seq<T>, W: nat, H: nat, x: nat, y: nat, r: nat, c: nat)
    requires |g| >= W * H && x < W && y < H && r == H - 1 - y && c == W - 1 - x
    ensures r * W + c < W * H && y * W + x < W * H
    ensures Rotated(g, W, H, 180)[r * W + c] == g[y * W + x]
  {
    Rot180RowsAt(g, W, H, H, r, c);
    assert H * W == W * H;
    GridIndex(x, y, W, H);
  }

  /** Every cell index of a W x H grid splits into a row and a column. */
  lemma GridSplit(k: nat, W: nat, H: nat)
    requires k < W * H
    ensures 0 < W && k % W < W && k / W < H && k == (k / W) * W + k % W
  {
    assert W != 0;
    DivBelow(k, H, W);
  }

  /** Rotating by 180 twice gives back the grid. */
  lemma Rotate180Twice<T>(g: seq<T>, W: nat, H: nat)
    requires |g| >= W * H
    ensures Rotated(Rotated(g, W, H, 180), W, H, 180) == g[..W * H]
  {
    var r := Rotated(g, W, H, 180);
    var rr := Rotated(r, W, H, 180);
    forall k | 0 <= k < W * H
      ensures rr[k] == g[k]
    {
      GridSplit(k, W, H);
      var x, y := k % W, k / W;
      Rotate180At(g, W, H, x, y, H - 1 - y, W - 1 - x);
      Rotate180At(r, W, H, W - 1 - x, H - 1 - y, y, x);
    }
  }

  /** Rotating by 90 and then rotating the H x W result by 270 gives back the grid. */
  lemma Rotate90Then270<T>(g: seq<T>, W: nat, H: nat)
    requires |g| >= W * H
    ensures H * W == W * H
    ensures Rotated(Rotated(g, W, H, 90), H, W, 270) == g[..W * H]
  {
    var r := Rotated(g, W, H, 90);
    assert H * W == W * H;
    var rr := Rotated(r, H, W, 270);
    forall k | 0 <= k < W * H
      ensures rr[k] == g[k]
    {
      GridSplit(k, W, H);
      var x, y := k % W, k / W;
      Rotate90At(g, W, H, x, y, H - 1 - y);
      Rotate270At(r, H, W, H - 1 - y, x, y);
    }
  }

  /** Rotating by 270 and then rotating the H x W result by 90 gives back the grid. */
  lemma Rotate270Then90<T>(g: seq<T>, W: nat, H: nat)
    requires |g| >= W * H
    ensures H * W == W * H
    ensures Rotated(Rotated(g, W, H, 270), H, W, 90) == g[..W * H]
  {
    var r := Rotated(g, W, H, 270);
    assert H * W == W * H;
    var rr := Rotated(r, H, W, 90);
    forall k | 0 <= k < W * H
      ensures rr[k] == g[k]
    {
      GridSplit(k, W, H);
      var x, y := k % W, k / W;
      Rotate270At(g, W, H, x, y, W - 1 - x);
      Rotate90At(r, H, W, y, W - 1 - x, x);
    }
  }

  /** Two quarter turns make a half turn. */
  lemma Rotate90Twice<T>(g: seq<T>, W: nat, H: nat)
    requires |g| >= W * H
    ensures H * W == W * H
    ensures Rotated(Rotated(g, W, H, 90), H, W, 90) == Rotated(g, W, H, 180)
  {
    var r := Rotated(g, W, H, 90);
    assert H * W == W * H;
    var rr := Rotated(r, H, W, 90);
    var h := Rotated(g, W, H, 180);
    forall k | 0 <= k < W * H
      ensures rr[k] == h[k]
    {
      GridSplit(k, W, H);
      var c, rw := k % W, k / W;
      var x, y := W - 1 - c, H - 1 - rw;
      Rotate180At(g, W, H, x, y, rw, c);
      Rotate90At(g, W, H, x, y, rw);
      Rotate90At(r, H, W, rw, x, c);
    }
  }

  /** Four quarter turns give back the grid. */
  lemma FourQuarterTurns<T>(g: seq<T>, W: nat, H: nat)
    requires |g| >= W * H
    ensures H * W == W * H
    ensures Rotated(Rotated(Rotated(Rotated(g, W, H, 90), H, W, 90), W, H, 90), H, W, 90)
            == g[..W * H]
  {
    Rotate90Twice(g, W, H);
    var half := Rotated(g, W, H, 180);
    Rotate90Twice(half, W, H);
    Rotate180Twice(g, W, H);
  }
}
