// Byte planes with a row stride: R rows of S bytes each, stored one after the
// other from some base offset of a flat buffer. The flip, split, resize and
// colour-conversion loops of jni/image_util_jni.cpp all address their buffers
// as cells (x, y) of such planes, at offset base + y*S + x.
module Plane {
  import opened Arith

  /** The row of plane offset k, for rows of S bytes starting at base. */
  function RowOf(base: nat, S: nat, k: int): int
    requires 0 < S
  {
    (k - base) / S
  }

  /** The column of plane offset k, for rows of S bytes starting at base. */
  function ColOf(base: nat, S: nat, k: int): int
    requires 0 < S
  {
    (k - base) % S
  }

  /**
   * Byte x of row y of the plane: it lies inside the plane's S*R bytes and
   * its row and column can be read back from it, so distinct cells are
   * distinct offsets.
   */
  function Cell(base: nat, S: nat, R: nat, x: nat, y: nat): (k: nat)
    requires x < S && y < R
    ensures base <= k < base + S * R
    ensures RowOf(base, S, k) == y && ColOf(base, S, k) == x
  {
    DivModOf(y, x, S);
    GridIndex(x, y, S, R);
    base + y * S + x
  }

  /** Every offset inside the plane is a cell of it. */
  lemma CellOf(base: nat, S: nat, R: nat, k: int)
    requires base <= k < base + S * R
    ensures 0 < S && 0 <= ColOf(base, S, k) < S && 0 <= RowOf(base, S, k) < R
    ensures k == Cell(base, S, R, ColOf(base, S, k), RowOf(base, S, k))
  {
    var j := k - base;
    assert j == (j / S) * S + j % S;
    if j / S >= R {
      MulLe(R, j / S, S);
    }
  }
}
