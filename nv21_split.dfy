// nativeNV21Split of jni/image_util_jni.cpp: copies the luma plane and the
// chroma plane of a strided NV21 frame into two separate buffers with their
// own row stride, `width` bytes per row.
module Nv21Split {
  import opened Bytes
  import opened Plane

  // ---- specification ----

  /**
   * Destination d after the first `width` bytes of each of the R rows of the
   * source plane at sbase (row stride sS) went to the same place in the
   * plane at 0 of d (row stride dS). The rest of d keeps its bytes.
   */
  function CopiedRows(d: seq<byte>, src: seq<byte>, sbase: nat, sS: nat, dS: nat, R: nat, width: nat): (r: seq<byte>)
    requires width <= sS && width <= dS && dS * R <= |d| && sbase + sS * R <= |src|
    ensures |r| == |d|
  {
    CopiedUpTo(d, src, sbase, sS, dS, R, width, R, 0)
  }

  /** The copy after rows 0..j-1 and the first i bytes of row j. */
  function CopiedUpTo(d: seq<byte>, src: seq<byte>, sbase: nat, sS: nat, dS: nat, R: nat, width: nat, j: nat, i: nat): (r: seq<byte>)
    requires width <= sS && width <= dS && dS * R <= |d| && sbase + sS * R <= |src|
    ensures |r| == |d|
  {
    seq(|d|, k requires 0 <= k < |d| =>
      if k < dS * R && ColOf(0, dS, k) < width &&
         (RowOf(0, dS, k) < j || (RowOf(0, dS, k) == j && ColOf(0, dS, k) < i)) then
        CellOf(0, dS, R, k);
        src[Cell(sbase, sS, R, ColOf(0, dS, k), RowOf(0, dS, k))]
      else d[k])
  }

  // ---- properties ----

  lemma CopiedUpToAt(d: seq<byte>, src: seq<byte>, sbase: nat, sS: nat, dS: nat, R: nat, width: nat, j: nat, i: nat, x: nat, y: nat)
    requires width <= sS && width <= dS && dS * R <= |d| && sbase + sS * R <= |src| && x < dS && y < R
    ensures CopiedUpTo(d, src, sbase, sS, dS, R, width, j, i)[Cell(0, dS, R, x, y)] ==
      if x < width && (y < j || (y == j && x < i)) then src[Cell(sbase, sS, R, x, y)] else d[Cell(0, dS, R, x, y)]
  {
  }

  /**
   * The split's result, byte by byte: within each row's first `width` bytes
   * the destination holds the source byte of the same row and column, and
   * every other byte, including the stride padding and everything after the
   * R rows, is left as it was.
   */
  lemma CopiedRowsAt(d: seq<byte>, src: seq<byte>, sbase: nat, sS: nat, dS: nat, R: nat, width: nat, k: nat)
    requires width <= sS && width <= dS && dS * R <= |d| && sbase + sS * R <= |src| && k < |d|
    ensures k < dS * R && ColOf(0, dS, k) < width ==>
      0 <= RowOf(0, dS, k) < R && CopiedRows(d, src, sbase, sS, dS, R, width)[k] ==
        src[Cell(sbase, sS, R, ColOf(0, dS, k), RowOf(0, dS, k))]
    ensures !(k < dS * R && ColOf(0, dS, k) < width) ==> CopiedRows(d, src, sbase, sS, dS, R, width)[k] == d[k]
  {
    if k < dS * R {
      CellOf(0, dS, R, k);
    }
  }

  /** Copying rows the destination already holds changes nothing: the split is idempotent. */
  lemma CopiedRowsTwice(d: seq<byte>, src: seq<byte>, sbase: nat, sS: nat, dS: nat, R: nat, width: nat)
    requires width <= sS && width <= dS && dS * R <= |d| && sbase + sS * R <= |src|
    ensures var r := CopiedRows(d, src, sbase, sS, dS, R, width);
      CopiedRows(r, src, sbase, sS, dS, R, width) == r
  {
    var r := CopiedRows(d, src, sbase, sS, dS, R, width);
    forall k | 0 <= k < |d| ensures CopiedRows(r, src, sbase, sS, dS, R, width)[k] == r[k] {
      CopiedRowsAt(d, src, sbase, sS, dS, R, width, k);
      CopiedRowsAt(r, src, sbase, sS, dS, R, width, k);
    }
  }

  lemma CopiedNone(d: seq<byte>, src: seq<byte>, sbase: nat, sS: nat, dS: nat, R: nat, width: nat)
    requires width <= sS && width <= dS && dS * R <= |d| && sbase + sS * R <= |src|
    ensures CopiedUpTo(d, src, sbase, sS, dS, R, width, 0, 0) == d
  {
    forall k | 0 <= k < |d| ensures CopiedUpTo(d, src, sbase, sS, dS, R, width, 0, 0)[k] == d[k] {
      if k < dS * R {
        CellOf(0, dS, R, k);
      }
    }
  }

  /** Copying byte i of row j extends the copy by one byte. */
  lemma CopiedStep(d: seq<byte>, src: seq<byte>, sbase: nat, sS: nat, dS: nat, R: nat, width: nat, j: nat, i: nat)
    requires width <= sS && width <= dS && dS * R <= |d| && sbase + sS * R <= |src| && j < R && i < width
    ensures CopiedUpTo(d, src, sbase, sS, dS, R, width, j, i + 1) ==
      CopiedUpTo(d, src, sbase, sS, dS, R, width, j, i)[Cell(0, dS, R, i, j) := src[Cell(sbase, sS, R, i, j)]]
  {
    var p := CopiedUpTo(d, src, sbase, sS, dS, R, width, j, i);
    var q := CopiedUpTo(d, src, sbase, sS, dS, R, width, j, i + 1);
    forall k | 0 <= k < |d| ensures q[k] == p[Cell(0, dS, R, i, j) := src[Cell(sbase, sS, R, i, j)]][k] {
      if k < dS * R {
        CellOf(0, dS, R, k);
      }
    }
  }

  /** A finished row is the start of the next one. */
  lemma CopiedRowDone(d: seq<byte>, src: seq<byte>, sbase: nat, sS: nat, dS: nat, R: nat, width: nat, j: nat)
    requires width <= sS && width <= dS && dS * R <= |d| && sbase + sS * R <= |src|
    ensures CopiedUpTo(d, src, sbase, sS, dS, R, width, j, width) == CopiedUpTo(d, src, sbase, sS, dS, R, width, j + 1, 0)
  {
    var p := CopiedUpTo(d, src, sbase, sS, dS, R, width, j, width);
    var q := CopiedUpTo(d, src, sbase, sS, dS, R, width, j + 1, 0);
    forall k | 0 <= k < |d| ensures p[k] == q[k] {
      if k < dS * R {
        CellOf(0, dS, R, k);
      }
    }
  }

  // ---- the loop ----

  /**
   * nativeNV21Split: row j of the luma plane (rows of srcStride bytes) and,
   * for j < height/2, row j of the chroma plane after it are copied, `width`
   * bytes each, into yBuf and vuBuf at row stride dstStride.
   */
  method Split(src: array<byte>, yBuf: array<byte>, vuBuf: array<byte>, width: nat, height: nat, srcStride: nat, dstStride: nat)
    requires yBuf != vuBuf && src != yBuf && src != vuBuf
    requires width <= srcStride && width <= dstStride
    requires srcStride * height + srcStride * (height / 2) <= src.Length
    requires dstStride * height <= yBuf.Length && dstStride * (height / 2) <= vuBuf.Length
    modifies yBuf, vuBuf
    ensures yBuf[..] == CopiedRows(old(yBuf[..]), src[..], 0, srcStride, dstStride, height, width)
    ensures vuBuf[..] == CopiedRows(old(vuBuf[..]), src[..], srcStride * height, srcStride, dstStride, height / 2, width)
  {
    ghost var s, y0, vu0 := src[..], yBuf[..], vuBuf[..];
    var ySize := srcStride * height;
    var C := height / 2;
    CopiedNone(y0, s, 0, srcStride, dstStride, height, width);
    CopiedNone(vu0, s, ySize, srcStride, dstStride, C, width);
    for j := 0 to height
      invariant yBuf[..] == CopiedUpTo(y0, s, 0, srcStride, dstStride, height, width, j, 0)
      invariant vuBuf[..] == CopiedUpTo(vu0, s, ySize, srcStride, dstStride, C, width, if j < C then j else C, 0)
    {
      for i := 0 to width
        invariant yBuf[..] == CopiedUpTo(y0, s, 0, srcStride, dstStride, height, width, j, i)
        invariant j < C ==> vuBuf[..] == CopiedUpTo(vu0, s, ySize, srcStride, dstStride, C, width, j, i)
        invariant j >= C ==> vuBuf[..] == CopiedUpTo(vu0, s, ySize, srcStride, dstStride, C, width, C, 0)
      {
        CopiedStep(y0, s, 0, srcStride, dstStride, height, width, j, i);
        yBuf[Cell(0, dstStride, height, i, j)] := src[Cell(0, srcStride, height, i, j)];
        if j < C {
          CopiedStep(vu0, s, ySize, srcStride, dstStride, C, width, j, i);
          vuBuf[Cell(0, dstStride, C, i, j)] := src[Cell(ySize, srcStride, C, i, j)];
        }
      }
      CopiedRowDone(y0, s, 0, srcStride, dstStride, height, width, j);
      if j < C {
        CopiedRowDone(vu0, s, ySize, srcStride, dstStride, C, width, j);
      }
    }
  }
}
