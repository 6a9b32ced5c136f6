// The refocus viewer's depth map and image choice
// (src/com/android/camera/RefocusActivity.java): the 25-byte trailer of the
// depth-map file, the big-endian `readInteger`, the histogram mode `getDepth`
// computes over a window of the map, and `setCurrentImage`.
module Refocus {
  import opened Bytes

  /** NAMES: the five focus levels and the all-in-focus image. */
  const NAMES_LENGTH: int := 6
  const W_SIZE: int := 61

  /** A Java byte's value: the stored 0..255 read as signed. */
  function Signed(b: byte): (v: int)
    ensures -128 <= v < 128
    ensures b < 128 ==> v == b
  {
    if b < 128 then b else b - 256
  }

  /** The big-endian value of the first i bytes at offset, unsigned. */
  function Prefix(data: seq<byte>, offset: nat, i: nat): (v: int)
    requires offset + i <= |data|
    ensures 0 <= v
    decreases i
  {
    if i == 0 then 0 else Prefix(data, offset, i - 1) * 256 + data[offset + i - 1]
  }

  /** Shifting a wrapped value wraps the same as shifting the value itself. */
  lemma Int32Shift(a: int)
    ensures Int32(Int32(a) * 256) == Int32(a * 256)
  {
    Int32Residue(a);
    var k := (a - Int32(a)) / TWO32;
    assert a - Int32(a) == k * TWO32;
    assert a * 256 == Int32(a) * 256 + (256 * k) * TWO32;
    ModShift(Int32(a) * 256 + 0x8000_0000, 256 * k);
  }

  /**
   * `readInteger`: the first byte, then three times a shift by 8 and the
   * next byte, all in 32-bit int arithmetic: the big-endian `getInt`.
   */
  method ReadInteger(data: seq<byte>, offset: nat) returns (result: int)
    requires offset + 4 <= |data|
    ensures result == GetIntBE(data, offset)
  {
    result := data[offset];
    assert result == Int32(Prefix(data, offset, 1));
    for i := 1 to 4
      invariant result == Int32(Prefix(data, offset, i))
    {
      Int32Shift(Prefix(data, offset, i));
      result := Int32(result * 256);
      Int32Add(Prefix(data, offset, i) * 256, data[offset + i]);
      result := Int32(result + data[offset + i]);
    }
  }

  /** The trailer of a depth-map file: failed, width, height. */
  datatype Trailer = Trailer(fail: bool, width: int, height: int)

  /**
   * The `DepthMap` constructor's reading of the trailer: with more than 25
   * bytes, the fail flag at len-25 and the width and height at len-24 and
   * len-20; the map fails anyway when width*height + 25 (in 32-bit int
   * arithmetic) exceeds the length. A short file keeps the fields' initial
   * values: failed, 0 by 0.
   */
  function ReadTrailer(data: seq<byte>): (t: Trailer)
    ensures |data| <= 25 ==> t.fail && t.width == 0 && t.height == 0
    ensures !t.fail ==> |data| > 25 && data[|data| - 25] == 0 && Int32(Int32(t.width * t.height) + 25) <= |data|
    ensures |data| > 25 ==> t.width == GetIntBE(data, |data| - 24) && t.height == GetIntBE(data, |data| - 20)
  {
    var n := |data|;
    var t := if n > 25 then Trailer(data[n - 25] != 0, GetIntBE(data, n - 24), GetIntBE(data, n - 20))
             else Trailer(true, 0, 0);
    if Int32(Int32(t.width * t.height) + 25) > n then t.(fail := true) else t
  }

  /** A trailer whose non-negative dimensions fit in an int and leave room for the map is accepted when its flag is 0. */
  lemma TrailerAccepted(data: seq<byte>)
    requires |data| > 25 && data[|data| - 25] == 0
    requires var w, h := GetIntBE(data, |data| - 24), GetIntBE(data, |data| - 20);
      0 <= w && 0 <= h && w * h + 25 <= |data| && w * h + 25 < 0x8000_0000
    ensures !ReadTrailer(data).fail
  {
    var w, h := GetIntBE(data, |data| - 24), GetIntBE(data, |data| - 20);
    Arith.MulNonneg(w, h);
    assert Int32(w * h) == w * h;
    assert Int32(w * h + 25) == w * h + 25;
  }

  /** The sampling window: 61 cells each way around the point, clipped to the map. */
  datatype Window = Window(colStart: int, colEnd: int, rowStart: int, rowEnd: int)

  function Max(a: int, b: int): int { if a >= b then a else b }
  function Min(a: int, b: int): int { if a <= b then a else b }

  function WindowAt(width: int, height: int, newX: int, newY: int): (w: Window)
    requires IsInt32(newX) && IsInt32(newY)
    ensures 0 <= w.colStart && 0 <= w.rowStart
    ensures w.colEnd <= width && w.rowEnd <= height
    ensures newX - W_SIZE / 2 < 0x7FFF_FFFF - W_SIZE ==> w.colEnd - w.colStart <= W_SIZE
    ensures newY - W_SIZE / 2 < 0x7FFF_FFFF - W_SIZE ==> w.rowEnd - w.rowStart <= W_SIZE
  {
    var colStart := Max(Int32(newX - W_SIZE / 2), 0);
    var rowStart := Max(Int32(newY - W_SIZE / 2), 0);
    Window(colStart, Min(Int32(colStart + W_SIZE), width), rowStart, Min(Int32(rowStart + W_SIZE), height))
  }

  /** `row * mWidth + col` in 32-bit int arithmetic. */
  function CellIndex(width: int, row: int, col: int): int {
    Int32(Int32(row * width) + col)
  }

  /** The level `hist[level]++` counts for one cell, or None where the source throws: an index outside the data, or a negative level. */
  function CellLevel(data: seq<byte>, width: int, row: int, col: int): (r: Option<int>)
    ensures r.Some? ==> 0 <= r.value < 128
  {
    var k := CellIndex(width, row, col);
    if k < 0 || k >= |data| || Signed(data[k]) < 0 then None else Some(Signed(data[k]))
  }

  /** The levels of rows [r0, r1) of one column, in loop order, or None when one of them throws. */
  function ColumnLevels(data: seq<byte>, width: int, col: int, r0: int, r1: int): (r: Option<seq<int>>)
    ensures r.Some? ==> forall k :: 0 <= k < |r.value| ==> 0 <= r.value[k] < 128
    decreases r1 - r0
  {
    if r1 <= r0 then Some([])
    else match (ColumnLevels(data, width, col, r0, r1 - 1), CellLevel(data, width, r1 - 1, col))
      case (Some(ls), Some(l)) => Some(ls + [l])
      case _ => None
  }

  /** The levels of columns [c0, c1) of the window, column by column, or None when one of them throws. */
  function WindowLevels(data: seq<byte>, width: int, c0: int, c1: int, r0: int, r1: int): (r: Option<seq<int>>)
    ensures r.Some? ==> forall k :: 0 <= k < |r.value| ==> 0 <= r.value[k] < 128
    decreases c1 - c0
  {
    if c1 <= c0 then Some([])
    else match (WindowLevels(data, width, c0, c1 - 1, r0, r1), ColumnLevels(data, width, c1 - 1, r0, r1))
      case (Some(ls), Some(cs)) => Some(ls + cs)
      case _ => None
  }

  function Count(levels: seq<int>, v: int): nat {
    multiset(levels)[v]
  }

  /**
   * The depth `getDepth` settles on: the all-in-focus index when no cell was
   * counted, otherwise the level counted most often, the smallest one on a
   * tie.
   */
  ghost predicate IsMode(levels: seq<int>, d: int) {
    && (|levels| == 0 ==> d == NAMES_LENGTH - 1)
    && (|levels| > 0 ==>
          0 <= d < 256
          && (forall v :: 0 <= v < 256 ==> Count(levels, v) <= Count(levels, d))
          && (forall v :: 0 <= v < d ==> Count(levels, v) < Count(levels, d)))
  }

  /** The characterisation pins the depth down: no two depths are both the mode. */
  lemma ModeUnique(levels: seq<int>, d1: int, d2: int)
    requires IsMode(levels, d1) && IsMode(levels, d2)
    ensures d1 == d2
  {
    if |levels| > 0 {
      assert Count(levels, d1) <= Count(levels, d2) && Count(levels, d2) <= Count(levels, d1);
    }
  }

  /** A non-empty window's mode is a level that occurs in it. */
  lemma ModeOccurs(levels: seq<int>, d: int)
    requires forall k :: 0 <= k < |levels| ==> 0 <= levels[k] < 256
    requires |levels| > 0 && IsMode(levels, d)
    ensures d in levels
  {
    assert levels[0] in multiset(levels);
    assert Count(levels, levels[0]) <= Count(levels, d);
  }

  /** Counting one more level. */
  lemma CountSnoc(ls: seq<int>, l: int)
    ensures forall v :: Count(ls + [l], v) == Count(ls, v) + (if v == l then 1 else 0)
  {
    assert multiset(ls + [l]) == multiset(ls) + multiset{l};
  }

  /** `hist[level]++` on a histogram of ls: the histogram of ls with level appended. */
  method Bump(hist: array<int>, ghost ls: seq<int>, level: int)
    requires hist.Length == 256 && 0 <= level < 256
    requires forall v :: 0 <= v < 256 ==> hist[v] == Count(ls, v)
    modifies hist
    ensures forall v :: 0 <= v < 256 ==> hist[v] == Count(ls + [level], v)
  {
    CountSnoc(ls, level);
    hist[level] := hist[level] + 1;
  }

  /** What `getDepth` returns: a depth index, or the ArrayIndexOutOfBoundsException. */
  datatype Depth = Level(level: int) | IndexOutOfBounds

  /**
   * The `DepthMap`: the file's bytes and the trailer read from them. The
   * float coordinates of `getDepth` are passed both as given (for the
   * `x > 1` tests) and already scaled to the map cell (newX, newY), the float
   * products and the rotated-map cases being outside this model.
   */
  class DepthMap {
    const data: seq<byte>
    const width: int
    const height: int
    const fail: bool

    constructor (bytes: seq<byte>)
      ensures data == bytes && Trailer(fail, width, height) == ReadTrailer(bytes)
    {
      data := bytes;
      var n := |bytes|;
      var f, w, h := true, 0, 0;
      if n > 25 {
        f := bytes[n - 25] != 0;
        w := ReadInteger(bytes, n - 24);
        h := ReadInteger(bytes, n - 20);
      }
      if Int32(Int32(w * h) + 25) > n {
        f := true;
      }
      fail, width, height := f, w, h;
    }

    /** The histogram of one column's rows [r0, r1), added to `hist`; false where the source throws. */
    method AddColumn(hist: array<int>, col: int, r0: int, r1: int, ghost before: seq<int>) returns (ok: bool)
      requires hist.Length == 256
      requires forall v :: 0 <= v < 256 ==> hist[v] == Count(before, v)
      modifies hist
      ensures ok <==> ColumnLevels(data, width, col, r0, r1).Some?
      ensures ok ==> forall v :: 0 <= v < 256 ==> hist[v] == Count(before + ColumnLevels(data, width, col, r0, r1).value, v)
    {
      var row := r0;
      if r1 <= r0 {
        assert before + [] == before;
        return true;
      }
      ghost var cur: seq<int> := [];
      assert before + cur == before;
      while row < r1
        invariant r0 <= row <= r1
        invariant ColumnLevels(data, width, col, r0, row) == Some(cur)
        invariant forall v :: 0 <= v < 256 ==> hist[v] == Count(before + cur, v)
      {
        var k := Int32(Int32(row * width) + col);
        if k < 0 || k >= |data| || Signed(data[k]) < 0 {
          NoneStays(col, r0, row + 1, r1);
          return false;
        }
        var level := Signed(data[k]);
        Bump(hist, before + cur, level);
        assert before + (cur + [level]) == (before + cur) + [level];
        cur := cur + [level];
        row := row + 1;
      }
      return true;
    }

    /** Once a cell of a column throws, the whole column does. */
    lemma {:induction false} NoneStays(col: int, r0: int, r: int, r1: int)
      requires r0 < r <= r1 && ColumnLevels(data, width, col, r0, r).None?
      ensures ColumnLevels(data, width, col, r0, r1).None?
      decreases r1 - r
    {
      if r < r1 {
        NoneStays(col, r0, r + 1, r1);
      }
    }

    /** Once a column of the window throws, the whole window does. */
    lemma {:induction false} WindowNoneStays(c0: int, c: int, c1: int, r0: int, r1: int)
      requires c0 < c <= c1 && WindowLevels(data, width, c0, c, r0, r1).None?
      ensures WindowLevels(data, width, c0, c1, r0, r1).None?
      decreases c1 - c
    {
      if c < c1 {
        WindowNoneStays(c0, c + 1, c1, r0, r1);
      }
    }

    /** The counting loops of `getDepth`: the histogram of the window's levels, or false where the source throws. */
    method Histogram(w: Window) returns (ok: bool, hist: array<int>)
      ensures fresh(hist) && hist.Length == 256
      ensures ok <==> WindowLevels(data, width, w.colStart, w.colEnd, w.rowStart, w.rowEnd).Some?
      ensures ok ==> forall v :: 0 <= v < 256 ==>
        hist[v] == Count(WindowLevels(data, width, w.colStart, w.colEnd, w.rowStart, w.rowEnd).value, v)
    {
      hist := new int[256](_ => 0);
      var col := w.colStart;
      if w.colEnd <= w.colStart {
        return true, hist;
      }
      while col < w.colEnd
        invariant w.colStart <= col <= w.colEnd
        invariant WindowLevels(data, width, w.colStart, col, w.rowStart, w.rowEnd).Some?
        invariant forall v :: 0 <= v < 256 ==> hist[v] == Count(WindowLevels(data, width, w.colStart, col, w.rowStart, w.rowEnd).value, v)
      {
        ghost var before := WindowLevels(data, width, w.colStart, col, w.rowStart, w.rowEnd).value;
        var colOk := AddColumn(hist, col, w.rowStart, w.rowEnd, before);
        if !colOk {
          WindowNoneStays(w.colStart, col + 1, w.colEnd, w.rowStart, w.rowEnd);
          return false, hist;
        }
        col := col + 1;
      }
      return true, hist;
    }

    /**
     * `getDepth`: the all-in-focus index for a failed map or a point right of
     * or below the map; otherwise the mode of the window's histogram.
     */
    method GetDepth(x: real, y: real, newX: int, newY: int) returns (r: Depth)
      requires IsInt32(newX) && IsInt32(newY)
      ensures fail || x > 1.0 || y > 1.0 ==> r == Level(NAMES_LENGTH - 1)
      ensures !(fail || x > 1.0 || y > 1.0) ==>
        var w := WindowAt(width, height, newX, newY);
        var ls := WindowLevels(data, width, w.colStart, w.colEnd, w.rowStart, w.rowEnd);
        (ls.None? ==> r == IndexOutOfBounds) && (ls.Some? ==> r.Level? && IsMode(ls.value, r.level))
    {
      if fail || x > 1.0 || y > 1.0 {
        return Level(NAMES_LENGTH - 1);
      }
      var w := WindowAt(width, height, newX, newY);
      var ok, hist := Histogram(w);
      if !ok {
        return IndexOutOfBounds;
      }
      ghost var ls := WindowLevels(data, width, w.colStart, w.colEnd, w.rowStart, w.rowEnd).value;
      var depth := MostFrequent(hist, ls);
      r := Level(depth);
    }
  }

  /**
   * The final scan of `getDepth`: a count replaces the best one only when it
   * is non-zero and the best is still zero or smaller.
   */
  method MostFrequent(hist: array<int>, ghost levels: seq<int>) returns (depth: int)
    requires hist.Length == 256
    requires forall k :: 0 <= k < |levels| ==> 0 <= levels[k] < 256
    requires forall v :: 0 <= v < 256 ==> hist[v] == Count(levels, v)
    ensures IsMode(levels, depth)
  {
    depth := NAMES_LENGTH - 1;
    var maxCount := 0;
    for i := 0 to 256
      invariant maxCount >= 0
      invariant maxCount == 0 ==> depth == NAMES_LENGTH - 1 && forall v :: 0 <= v < i ==> hist[v] == 0
      invariant maxCount > 0 ==> 0 <= depth < i && hist[depth] == maxCount
      invariant forall v :: 0 <= v < i ==> hist[v] <= maxCount
      invariant maxCount > 0 ==> forall v :: 0 <= v < depth ==> hist[v] < maxCount
    {
      var count := hist[i];
      if count != 0 && (maxCount == 0 || count > maxCount) {
        maxCount := count;
        depth := i;
      }
    }
    if |levels| > 0 {
      assert levels[0] in multiset(levels);
      assert hist[levels[0]] > 0;
    } else {
      assert forall v :: 0 <= v < 256 ==> Count(levels, v) == 0;
    }
  }

  /** The image choice: which image was requested, which is shown, and the load tasks started. */
  class Viewer {
    var currentImage: int
    var requestedImage: int
    var loads: seq<int>
    var cancels: nat

    constructor ()
      ensures currentImage == -1 && requestedImage == -1 && loads == [] && cancels == 0
    {
      currentImage, requestedImage, loads, cancels := -1, -1, [], 0;
    }

    /**
     * `setCurrentImage`: only a depth in [0, 6) other than the last request
     * is taken up; it cancels the running load, and starts loading that image
     * unless it is already the current one.
     */
    method SetCurrentImage(depth: int)
      modifies this
      ensures var taken := 0 <= depth < NAMES_LENGTH && depth != old(requestedImage);
        && (!taken ==>
              currentImage == old(currentImage) && requestedImage == old(requestedImage)
              && loads == old(loads) && cancels == old(cancels))
        && (taken ==>
              requestedImage == depth && currentImage == depth
              && cancels == old(cancels) + (if old(loads) == [] then 0 else 1)
              && loads == old(loads) + (if depth == old(currentImage) then [] else [depth]))
    {
      if depth >= 0 && depth < NAMES_LENGTH && depth != requestedImage {
        requestedImage := depth;
        if loads != [] {
          cancels := cancels + 1;
        }
        if depth != currentImage {
          currentImage := depth;
          loads := loads + [depth];
        }
      }
    }

    /** `allInFocus`: the all-in-focus image is requested. */
    method AllInFocus()
      modifies this
      ensures old(requestedImage) != NAMES_LENGTH - 1 ==> requestedImage == NAMES_LENGTH - 1 && currentImage == NAMES_LENGTH - 1
      ensures old(requestedImage) == NAMES_LENGTH - 1 ==> currentImage == old(currentImage) && loads == old(loads)
    {
      SetCurrentImage(NAMES_LENGTH - 1);
    }
  }
}
