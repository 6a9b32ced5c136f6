// Small arithmetic facts about grid indices, used by the image-buffer models.
module Arith {
  lemma MulLe(a: int, b: int, c: int)
    requires a <= b && 0 <= c
    ensures a * c <= b * c
  {}
  lemma DivModOf(q: int, r: int, n: int)
    requires 0 <= r < n
    ensures (q * n + r) / n == q && (q * n + r) % n == r
  {
    var a := q * n + r;
    var d, m := a / n, a % n;
    assert a == d * n + m;
    assert (q - d) * n == m - r;
    if q - d >= 1 {
      MulLe(1, q - d, n);
    } else if q - d <= -1 {
      MulLe(q - d, -1, n);
    }
  }
  /** A multiple of n divided by n. */
  lemma MulDiv(a: int, n: int)
    requires 0 < n
    ensures (n * a) / n == a && (n * a) % n == 0
  {
    DivModOf(a, 0, n);
    assert n * a == a * n + 0;
  }

  /** The quotient and remainder of k by n put back together. */
  lemma DivMod(k: int, n: int)
    requires 0 <= k && 0 < n
    ensures k == (k / n) * n + k % n && 0 <= k % n < n && 0 <= k / n
  {
  }
  lemma GridIndex(x: int, y: int, w: int, h: int)
    requires 0 <= x < w && 0 <= y < h
    ensures 0 <= y * w + x < w * h
  {
    MulLe(y, h - 1, w);
    MulLe(0, y, w);
  }
  lemma DivBelow(k: int, w: int, h: int)
    requires 0 <= k < w * h && 0 < h
    ensures 0 <= k / h < w
  {}

  /** A row offset in bytes is twice the row offset in pairs. */
  lemma RowOfPairs(y: int, w: int, cw: int)
    requires w == 2 * cw
    ensures y * w == 2 * (y * cw)
  {
  }

  lemma MulNonneg(a: int, b: int)
    requires 0 <= a && 0 <= b
    ensures 0 <= a * b
  {
  }

  /** A pixel index times the 4 bytes of a pixel, as a byte offset in rows of 4w bytes. */
  lemma PixelOffset(y: int, w: int, x: int, c: int)
    ensures (y * w + x) * 4 + c == y * (4 * w) + (4 * x + c)
  {
  }
}
