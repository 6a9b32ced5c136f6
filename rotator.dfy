// The rotate90andMerge kernel of rs/rotator.rs. RenderScript runs it once for
// every pixel (x, y) of the width x height input frame (width being the row
// stride, pad the stride padding at the right of each row). Each run reads
// its luma byte and, for even x and y, its chroma pair, and stores them into
// the output frame gOut at positions that depend on the degree. Its return
// value, always 0, is what the launch stores into the allocation it runs over,
// the input frame's luma cell (x, y).
module Rotator {
  import opened Bytes
  import opened Arith
  import opened Grid
  import opened Nv21

  /** The script's globals: width (the row stride), height, pad and degree. */
  datatype Params = Params(width: nat, height: nat, pad: nat, degree: nat)

  /** One rsSetElementAt_uchar call: `value` stored at offset `at` of gOut. */
  datatype Write = Write(at: nat, value: byte)

  /** The bytes of both frames: width*height*3/2, a luma plane then a chroma plane of pairs. */
  function FrameSize(p: Params): nat { NV21Size(p.width, p.height, p.width / 2, p.height / 2) }

  /**
   * The frames the kernel runs on: even width, height and padding, the
   * padding no wider than the frame. Under it every offset the kernel
   * computes in uint32 arithmetic is a non-negative value inside the frame,
   * so the model computes them on unbounded integers.
   */
  predicate WellFormed(p: Params) {
    p.width % 2 == 0 && p.height % 2 == 0 && p.pad % 2 == 0 && p.pad <= p.width
  }

  /** Degrees 0, 180 and 270 skip the padding columns; 90 does not; other degrees write nothing. */
  predicate SkipsPadding(p: Params) { p.degree == 0 || p.degree == 180 || p.degree == 270 }

  predicate KnownDegree(p: Params) { p.degree == 90 || SkipsPadding(p) }

  /** Pixel (x, y) is stored at all: its degree is known and it is not a skipped padding column. */
  predicate Stored(p: Params, x: nat, y: nat) {
    KnownDegree(p) && !(SkipsPadding(p) && x >= p.width - p.pad)
  }

  // ---- offsets ----

  /** The luma plane is the first width*height bytes of the frame. */
  lemma LumaInFrame(p: Params)
    ensures p.width * p.height <= FrameSize(p)
  {
    MulNonneg(p.width / 2, p.height / 2);
  }

  /** A chroma pair slot: offset c*h + r with even r inside a (w/2) x h half plane. */
  lemma ChromaSlot(c: nat, r: nat, w: nat, h: nat)
    requires w % 2 == 0 && h % 2 == 0 && c < w / 2 && r < h && r % 2 == 0
    ensures c * h + r == 2 * (c * (h / 2) + r / 2)
    ensures c * (h / 2) + r / 2 < (w / 2) * (h / 2)
  {
    RowOfPairs(c, h, h / 2);
    MulLe(c + 1, w / 2, h / 2);
  }

  /** The same slot as an offset of a whole w x h frame: an even offset of its chroma plane. */
  lemma ChromaAt(c: nat, r: nat, w: nat, h: nat)
    requires w % 2 == 0 && h % 2 == 0 && c < w / 2 && r < h && r % 2 == 0
    ensures w * h + c * h + r + 1 < NV21Size(w, h, w / 2, h / 2)
    ensures (c * h + r) % 2 == 0
  {
    ChromaSlot(c, r, w, h);
  }

  /** Where the luma byte of pixel (x, y) goes. */
  function LumaTarget(p: Params, x: nat, y: nat): (k: nat)
    requires WellFormed(p) && x < p.width && y < p.height && Stored(p, x, y)
    ensures k < p.width * p.height <= FrameSize(p)
  {
    LumaInFrame(p);
    if p.degree == 180 then
      GridIndex(p.height - 1 - y, p.width - 1 - x - p.pad, p.height, p.width);
      (p.width - 1 - x - p.pad) * p.height + p.height - 1 - y
    else if p.degree == 90 then
      GridIndex(p.height - 1 - y, x, p.height, p.width);
      x * p.height + p.height - 1 - y
    else if p.degree == 270 then
      GridIndex(y, p.width - 1 - x - p.pad, p.height, p.width);
      (p.width - 1 - x - p.pad) * p.height + y
    else
      GridIndex(y, x, p.height, p.width);
      x * p.height + y
  }

  /** Offset r of row c of the output chroma plane, rows being `height` bytes long. */
  function ChromaTarget(p: Params, c: nat, r: nat): (k: nat)
    requires WellFormed(p) && c < p.width / 2 && r < p.height && r % 2 == 0
    ensures p.width * p.height <= k && k + 1 < FrameSize(p) && (k - p.width * p.height) % 2 == 0
  {
    ChromaAt(c, r, p.width, p.height);
    p.width * p.height + c * p.height + r
  }

  /**
   * Where the V byte of an even pixel (x, y) goes, by degree:
   * ySize + (width-2-x-pad)/2*height + height-1-y-1 for 180,
   * ySize + x/2*height + height-1-y-1 for 90,
   * ySize + (width-1-x-pad)/2*height + y for 270 and
   * ySize + x/2*height + y for 0.
   */
  function VTarget(p: Params, x: nat, y: nat): (k: nat)
    requires WellFormed(p) && x < p.width && y < p.height && Stored(p, x, y) && x % 2 == 0 && y % 2 == 0
    ensures p.width * p.height <= k && k + 1 < FrameSize(p) && (k - p.width * p.height) % 2 == 0
  {
    assert y + 2 <= p.height;
    if p.degree == 180 then
      assert x + 2 <= p.width - p.pad;
      HalfColumn(p.width - 2 - x - p.pad, p.width);
      ChromaTarget(p, (p.width - 2 - x - p.pad) / 2, p.height - 2 - y)
    else if p.degree == 90 then
      HalfColumn(x, p.width);
      ChromaTarget(p, x / 2, p.height - 2 - y)
    else if p.degree == 270 then
      assert x + 2 <= p.width - p.pad;
      HalfColumn(p.width - 1 - x - p.pad, p.width);
      ChromaTarget(p, (p.width - 1 - x - p.pad) / 2, y)
    else
      HalfColumn(x, p.width);
      ChromaTarget(p, x / 2, y)
  }

  /** A column of the luma plane halves to a column of the chroma plane of pairs. */
  lemma HalfColumn(a: int, w: nat)
    requires 0 <= a < w && w % 2 == 0
    ensures 0 <= a / 2 < w / 2
  {
  }

  /**
   * Where the source stores the U byte: one byte after V for degrees 180
   * and 90, but one byte before V for degrees 270 and 0 (the odd slot of
   * the previous pair, or the last luma byte for the first pair of a row).
   */
  function SourceUTarget(p: Params, x: nat, y: nat): (k: nat)
    requires WellFormed(p) && x < p.width && y < p.height && Stored(p, x, y) && x % 2 == 0 && y % 2 == 0
    ensures k < FrameSize(p)
    ensures if p.degree == 90 || p.degree == 180 then k == VTarget(p, x, y) + 1 else k + 1 == VTarget(p, x, y)
  {
    if p.degree == 90 || p.degree == 180 then VTarget(p, x, y) + 1 else VTarget(p, x, y) - 1
  }

  /** Where the V byte of an even pixel is read: pair (x/2, y/2) of the input chroma plane. */
  function ChromaSource(p: Params, x: nat, y: nat): (k: nat)
    requires WellFormed(p) && x < p.width && y < p.height && x % 2 == 0 && y % 2 == 0
    ensures p.width * p.height <= k && k + 1 < FrameSize(p)
    ensures k == p.width * p.height + 2 * ((y / 2) * (p.width / 2) + x / 2)
  {
    ChromaSlot(y / 2, x, p.height, p.width);
    assert (p.height / 2) * (p.width / 2) == (p.width / 2) * (p.height / 2);
    p.width * p.height + x + (y / 2) * p.width
  }

  // ---- the writes of one run ----

  /**
   * The writes of the run for pixel (x, y), in the order the source makes
   * them: luma, then U, then V. With `corrected` false U goes where the
   * source puts it; with `corrected` true it goes one byte after V for
   * every degree.
   */
  function PixelWrites(p: Params, s: seq<byte>, x: nat, y: nat, corrected: bool): (ws: seq<Write>)
    requires WellFormed(p) && x < p.width && y < p.height && |s| >= FrameSize(p)
    ensures forall i :: 0 <= i < |ws| ==> ws[i].at < FrameSize(p)
    ensures |ws| == if !Stored(p, x, y) then 0 else if x % 2 == 0 && y % 2 == 0 then 3 else 1
  {
    GridIndex(x, y, p.width, p.height);
    LumaInFrame(p);
    if !Stored(p, x, y) then []
    else
      var luma := [Write(LumaTarget(p, x, y), s[x + y * p.width])];
      if x % 2 == 0 && y % 2 == 0 then
        var index := ChromaSource(p, x, y);
        var u := if corrected then VTarget(p, x, y) + 1 else SourceUTarget(p, x, y);
        luma + [Write(u, s[index + 1]), Write(VTarget(p, x, y), s[index])]
      else luma
  }

  /** The writes of one run exactly as the source makes them. */
  function SourceWrites(p: Params, s: seq<byte>, x: nat, y: nat): (ws: seq<Write>)
    requires WellFormed(p) && x < p.width && y < p.height && |s| >= FrameSize(p)
    ensures forall i :: 0 <= i < |ws| ==> ws[i].at < FrameSize(p)
  {
    PixelWrites(p, s, x, y, false)
  }

  /** The writes of one run with U stored after V for every degree. */
  function Writes(p: Params, s: seq<byte>, x: nat, y: nat): (ws: seq<Write>)
    requires WellFormed(p) && x < p.width && y < p.height && |s| >= FrameSize(p)
    ensures forall i :: 0 <= i < |ws| ==> ws[i].at < FrameSize(p)
  {
    PixelWrites(p, s, x, y, true)
  }

  predicate InBounds(ws: seq<Write>, n: nat) { forall i :: 0 <= i < |ws| ==> ws[i].at < n }

  /** A buffer after the writes ws, made in order (a later write to an offset wins). */
  function Apply(d: seq<byte>, ws: seq<Write>): (r: seq<byte>)
    requires InBounds(ws, |d|)
    ensures |r| == |d|
    decreases |ws|
  {
    if ws == [] then d
    else Apply(d, ws[..|ws| - 1])[ws[|ws| - 1].at := ws[|ws| - 1].value]
  }

  /** Some write of ws stores to offset k. */
  predicate Targets(ws: seq<Write>, k: nat) { exists i :: 0 <= i < |ws| && ws[i].at == k }

  /** Every write of ws stores the byte R holds at its offset. */
  predicate Agrees(ws: seq<Write>, R: seq<byte>) {
    forall i :: 0 <= i < |ws| ==> ws[i].at < |R| && ws[i].value == R[ws[i].at]
  }

  /** The writes of the runs for pixels 0..n-1, pixel n being (n % width, n / width). */
  function LaunchWrites(p: Params, s: seq<byte>, n: nat): (ws: seq<Write>)
    requires WellFormed(p) && |s| >= FrameSize(p) && n <= p.width * p.height
    ensures InBounds(ws, FrameSize(p))
  {
    if n == 0 then []
    else
      DivBelow(n - 1, p.height, p.width);
      LaunchWrites(p, s, n - 1) + Writes(p, s, (n - 1) % p.width, (n - 1) / p.width)
  }

  /** The input frame with its first n bytes (the luma cells of the first n runs) set to 0. */
  function Zeroed(s: seq<byte>, n: nat): (r: seq<byte>)
    requires n <= |s|
    ensures |r| == |s|
  {
    seq(|s|, k requires 0 <= k < |s| => if k < n then 0 else s[k])
  }

  // ---- properties of one run ----

  /** The padding columns of degrees 0, 180 and 270, and every pixel of an unknown degree, store nothing. */
  lemma PaddingStoresNothing(p: Params, s: seq<byte>, x: nat, y: nat)
    requires WellFormed(p) && x < p.width && y < p.height && |s| >= FrameSize(p)
    requires !KnownDegree(p) || (SkipsPadding(p) && x >= p.width - p.pad)
    ensures SourceWrites(p, s, x, y) == [] && Writes(p, s, x, y) == []
  {
  }

  /**
   * Degree 90 rotates clockwise: luma byte in[x + y*width] goes to
   * out[x*height + height-1-y], and for even x and y the V byte read at
   * ySize + x + (y/2)*width goes to the even chroma offset
   * ySize + (x/2)*height + height-2-y with U right after it, so the pair
   * keeps NV21's V-then-U order.
   */
  lemma Degree90Writes(p: Params, s: seq<byte>, x: nat, y: nat)
    requires WellFormed(p) && x < p.width && y < p.height && |s| >= FrameSize(p) && p.degree == 90
    ensures x + y * p.width < p.width * p.height
    ensures var ws := SourceWrites(p, s, x, y);
      |ws| >= 1 && ws[0] == Write(x * p.height + p.height - 1 - y, s[x + y * p.width]) &&
      (x % 2 == 0 && y % 2 == 0 ==>
        var v := p.width * p.height + x / 2 * p.height + p.height - 2 - y;
        var index := p.width * p.height + x + (y / 2) * p.width;
        |ws| == 3 && ws[1] == Write(v + 1, s[index + 1]) && ws[2] == Write(v, s[index]) &&
        (v - p.width * p.height) % 2 == 0)
  {
    GridIndex(x, y, p.width, p.height);
  }

  /**
   * In the source, degrees 0 and 270 store U one byte BEFORE its V, at an
   * odd offset from the chroma plane's start: the U slot of the previous
   * pair, not the pair's own.
   */
  lemma SourceUBeforeV(p: Params, s: seq<byte>, x: nat, y: nat)
    requires WellFormed(p) && x < p.width && y < p.height && |s| >= FrameSize(p)
    requires (p.degree == 0 || p.degree == 270) && x < p.width - p.pad && x % 2 == 0 && y % 2 == 0
    ensures var ws := SourceWrites(p, s, x, y);
      |ws| == 3 && ws[1].at + 1 == ws[2].at && (ws[1].at + 1 - p.width * p.height) % 2 == 0
  {
  }

  /**
   * The overlap, on a 4 x 2 frame at degree 0: the run for pixel (0, 0)
   * stores its U byte at offset 7, the last byte of the 8-byte luma plane,
   * where the run for pixel (3, 1) stores its luma byte.
   */
  lemma SourceUOverwritesLuma(s: seq<byte>)
    requires |s| >= 12
    ensures var p := Params(4, 2, 0, 0);
      WellFormed(p) && FrameSize(p) == 12 &&
      SourceWrites(p, s, 0, 0)[1] == Write(7, s[9]) && 7 < p.width * p.height &&
      SourceWrites(p, s, 3, 1) == [Write(7, s[7])]
  {
    var p := Params(4, 2, 0, 0);
    assert ChromaSource(p, 0, 0) == 8;
    assert SourceUTarget(p, 0, 0) == 7;
    assert LumaTarget(p, 3, 1) == 7;
  }

  /** With the correction every degree stores U right after its V, inside the chroma plane. */
  lemma CorrectedUAfterV(p: Params, s: seq<byte>, x: nat, y: nat)
    requires WellFormed(p) && x < p.width && y < p.height && |s| >= FrameSize(p)
    requires Stored(p, x, y) && x % 2 == 0 && y % 2 == 0
    ensures var ws := Writes(p, s, x, y);
      |ws| == 3 && ws[1].at == ws[2].at + 1 && p.width * p.height <= ws[2].at &&
      (ws[2].at - p.width * p.height) % 2 == 0 &&
      ws[2].value == s[ChromaSource(p, x, y)] && ws[1].value == s[ChromaSource(p, x, y) + 1]
  {
  }

  /** A run reads only its own luma cell and the chroma plane. */
  lemma WritesRead(p: Params, s: seq<byte>, t: seq<byte>, x: nat, y: nat)
    requires WellFormed(p) && x < p.width && y < p.height && |s| >= FrameSize(p) && |t| == |s|
    requires x + y * p.width < |s| && s[x + y * p.width] == t[x + y * p.width]
    requires forall k :: p.width * p.height <= k < FrameSize(p) ==> s[k] == t[k]
    ensures Writes(p, s, x, y) == Writes(p, t, x, y)
  {
    LumaInFrame(p);
    if Stored(p, x, y) && x % 2 == 0 && y % 2 == 0 {
      var index := ChromaSource(p, x, y);
      assert s[index] == t[index] && s[index + 1] == t[index + 1];
    }
  }

  // ---- properties of writes in order ----

  lemma ApplySnoc(d: seq<byte>, ws: seq<Write>, w: Write)
    requires InBounds(ws, |d|) && w.at < |d|
    ensures InBounds(ws + [w], |d|)
    ensures Apply(d, ws + [w]) == Apply(d, ws)[w.at := w.value]
  {
    assert (ws + [w])[..|ws|] == ws;
  }

  /** Writes made in two runs are the writes of both, in order. */
  lemma {:induction false} ApplyConcat(d: seq<byte>, a: seq<Write>, b: seq<Write>)
    requires InBounds(a, |d|) && InBounds(b, |d|)
    ensures InBounds(a + b, |d|)
    ensures Apply(d, a + b) == Apply(Apply(d, a), b)
    decreases |b|
  {
    if b != [] {
      var b' := b[..|b| - 1];
      assert (a + b)[..|a + b| - 1] == a + b';
      assert (a + b)[|a + b| - 1] == b[|b| - 1];
      ApplyConcat(d, a, b');
      assert InBounds(a + b', |d|);
      assert Apply(d, a + b) == Apply(d, a + b')[b[|b| - 1].at := b[|b| - 1].value];
    } else {
      assert a + b == a;
    }
  }

  /**
   * When every write stores the byte a reference buffer R holds at its
   * offset, the result holds R's byte wherever something was written and
   * the old byte everywhere else, whatever the order of the writes.
   */
  lemma {:induction false} ApplyAgrees(d: seq<byte>, ws: seq<Write>, R: seq<byte>, k: nat)
    requires |R| == |d| && Agrees(ws, R) && k < |d|
    ensures InBounds(ws, |d|)
    ensures Apply(d, ws)[k] == if Targets(ws, k) then R[k] else d[k]
    decreases |ws|
  {
    if ws != [] {
      var ws' := ws[..|ws| - 1];
      var last := ws[|ws| - 1];
      assert Agrees(ws', R) by {
        forall i | 0 <= i < |ws'| ensures ws'[i].at < |R| && ws'[i].value == R[ws'[i].at] {
          assert ws'[i] == ws[i];
        }
      }
      ApplyAgrees(d, ws', R, k);
      if last.at != k {
        if Targets(ws, k) {
          var i :| 0 <= i < |ws| && ws[i].at == k;
          assert ws'[i] == ws[i];
        }
        if Targets(ws', k) {
          var i :| 0 <= i < |ws'| && ws'[i].at == k;
          assert ws[i] == ws'[i];
        }
      } else {
        assert Targets(ws, k);
      }
    }
  }

  // ---- the kernel and its launch ----

  /**
   * One run of rotate90andMerge for pixel (x, y): gOut gets the run's writes
   * (with U after V for every degree) and the result is 0.
   */
  method Kernel(gIn: array<byte>, gOut: array<byte>, p: Params, x: nat, y: nat) returns (r: byte)
    requires gIn != gOut && WellFormed(p) && x < p.width && y < p.height
    requires FrameSize(p) <= gIn.Length && FrameSize(p) <= gOut.Length
    modifies gOut
    ensures r == 0
    ensures gOut[..] == Apply(old(gOut[..]), Writes(p, gIn[..], x, y))
  {
    ghost var d, s := gOut[..], gIn[..];
    r := 0;
    GridIndex(x, y, p.width, p.height);
    var yValue := gIn[x + y * p.width];
    if !Stored(p, x, y) {
      assert Writes(p, s, x, y) == [];
      return;
    }
    RunShape(p, s, x, y);
    var lumaAt := LumaTarget(p, x, y);
    gOut[lumaAt] := yValue;
    ghost var done := [Write(lumaAt, yValue)];
    ApplySnoc(d, [], Write(lumaAt, yValue));
    assert [] + [Write(lumaAt, yValue)] == done;
    if x % 2 == 0 && y % 2 == 0 {
      var index := ChromaSource(p, x, y);
      var vValue := gIn[index];
      var uValue := gIn[index + 1];
      var v := VTarget(p, x, y);
      gOut[v + 1] := uValue;
      ApplySnoc(d, done, Write(v + 1, uValue));
      done := done + [Write(v + 1, uValue)];
      gOut[v] := vValue;
      ApplySnoc(d, done, Write(v, vValue));
      done := done + [Write(v, vValue)];
    }
    assert done == Writes(p, s, x, y);
  }

  /** The writes of a stored run: its luma byte, then for an even pixel U and V. */
  lemma RunShape(p: Params, s: seq<byte>, x: nat, y: nat)
    requires WellFormed(p) && x < p.width && y < p.height && |s| >= FrameSize(p) && Stored(p, x, y)
    ensures x + y * p.width < p.width * p.height
    ensures var ws := Writes(p, s, x, y);
      |ws| >= 1 && ws[0] == Write(LumaTarget(p, x, y), s[x + y * p.width]) &&
      if x % 2 == 0 && y % 2 == 0 then
        |ws| == 3 && ws[1] == Write(VTarget(p, x, y) + 1, s[ChromaSource(p, x, y) + 1]) &&
        ws[2] == Write(VTarget(p, x, y), s[ChromaSource(p, x, y)])
      else |ws| == 1
  {
    GridIndex(x, y, p.width, p.height);
  }

  /** The pixel number of (x, y) in launch order, which is also its luma offset. */
  lemma PixelNumber(p: Params, x: nat, y: nat)
    requires x < p.width && y < p.height
    ensures y * p.width + x < p.width * p.height
    ensures (y * p.width + x) % p.width == x && (y * p.width + x) / p.width == y
  {
    GridIndex(x, y, p.width, p.height);
    DivModOf(y, x, p.width);
  }

  /** Pixel n of the launch is (n % width, n / width), and its luma cell is byte n. */
  lemma PixelOf(p: Params, n: nat)
    requires n < p.width * p.height
    ensures 0 < p.width && n % p.width < p.width && 0 <= n / p.width < p.height
    ensures n % p.width + n / p.width * p.width == n
  {
    DivMod(n, p.width);
    LumaInFrame(p);
    DivBelow(n, p.height, p.width);
  }

  /** The run for pixel n reads the same bytes after the first n luma cells were set to 0. */
  lemma RunSeesInput(p: Params, s: seq<byte>, n: nat, x: nat, y: nat)
    requires WellFormed(p) && |s| >= FrameSize(p) && n < p.width * p.height && n < |s|
    requires x < p.width && y < p.height && x + y * p.width == n
    ensures Writes(p, Zeroed(s, n), x, y) == Writes(p, s, x, y)
  {
    LumaInFrame(p);
    WritesRead(p, s, Zeroed(s, n), x, y);
  }

  /** After the first n runs: gOut holds their writes and gIn has their n luma cells set to 0. */
  ghost predicate LaunchedUpTo(gIn: array<byte>, gOut: array<byte>, p: Params, s: seq<byte>, d: seq<byte>, n: nat)
    reads gIn, gOut
  {
    WellFormed(p) && FrameSize(p) <= |s| == gIn.Length && FrameSize(p) <= |d| == gOut.Length &&
    n <= p.width * p.height &&
    gOut[..] == Apply(d, LaunchWrites(p, s, n)) && gIn[..] == Zeroed(s, n)
  }

  /**
   * The run for pixel n, which is (x, y) = (n % width, n / width), and the
   * store of its result into the input allocation's element (x, y), the
   * luma byte at offset n: one more run's writes in gOut, one more zero in gIn.
   */
  method RunPixel(gIn: array<byte>, gOut: array<byte>, p: Params, ghost s: seq<byte>, ghost d: seq<byte>, n: nat)
    requires gIn != gOut && n < p.width * p.height && LaunchedUpTo(gIn, gOut, p, s, d, n)
    modifies gIn, gOut
    ensures LaunchedUpTo(gIn, gOut, p, s, d, n + 1)
  {
    LumaInFrame(p);
    PixelOf(p, n);
    var x, y := n % p.width, n / p.width;
    RunSeesInput(p, s, n, x, y);
    var r := Kernel(gIn, gOut, p, x, y);
    ApplyConcat(d, LaunchWrites(p, s, n), Writes(p, s, x, y));
    gIn[n] := r;
    assert gIn[..] == Zeroed(s, n + 1);
  }

  /**
   * The launch over the whole frame, one run per pixel in row-major order:
   * gOut gets every run's writes in that order, and every luma cell of gIn
   * gets its run's result, 0.
   */
  method Launch(gIn: array<byte>, gOut: array<byte>, p: Params)
    requires gIn != gOut && WellFormed(p) && FrameSize(p) <= gIn.Length && FrameSize(p) <= gOut.Length
    modifies gIn, gOut
    ensures gOut[..] == Apply(old(gOut[..]), LaunchWrites(p, old(gIn[..]), p.width * p.height))
    ensures gIn[..] == Zeroed(old(gIn[..]), p.width * p.height)
  {
    ghost var s, d := gIn[..], gOut[..];
    assert Zeroed(s, 0) == s;
    for n := 0 to p.width * p.height
      invariant LaunchedUpTo(gIn, gOut, p, s, d, n)
    {
      RunPixel(gIn, gOut, p, s, d, n);
    }
  }

  // ---- the launch rotates the frame ----

  /** Every run of pixel n < N shows up among the first N runs' writes. */
  lemma {:induction false} LaunchHas(p: Params, s: seq<byte>, x: nat, y: nat, i: nat, N: nat)
    requires WellFormed(p) && |s| >= FrameSize(p) && x < p.width && y < p.height
    requires y * p.width + x < N <= p.width * p.height && i < |Writes(p, s, x, y)|
    ensures Targets(LaunchWrites(p, s, N), Writes(p, s, x, y)[i].at)
  {
    var n := y * p.width + x;
    PixelNumber(p, x, y);
    var prev := LaunchWrites(p, s, N - 1);
    DivBelow(N - 1, p.height, p.width);
    var last := Writes(p, s, (N - 1) % p.width, (N - 1) / p.width);
    assert LaunchWrites(p, s, N) == prev + last;
    if N - 1 == n {
      assert LaunchWrites(p, s, N)[|prev| + i] == Writes(p, s, x, y)[i];
    } else {
      LaunchHas(p, s, x, y, i, N - 1);
      var j :| 0 <= j < |prev| && prev[j].at == Writes(p, s, x, y)[i].at;
      assert LaunchWrites(p, s, N)[j] == prev[j];
    }
  }

  /** The degrees whose launch rotates the frame: 90, and 270 on a frame without padding. */
  predicate Rotates(p: Params) { p.degree == 90 || (p.degree == 270 && p.pad == 0) }

  /** Degree 90: luma cell (x, y) goes to row x, column height-1-y of the height-wide output. */
  lemma Targets90(p: Params, x: nat, y: nat)
    requires WellFormed(p) && x < p.width && y < p.height && p.degree == 90
    ensures LumaTarget(p, x, y) == x * p.height + (p.height - 1 - y)
  {
  }

  /** Degree 270 without padding: luma cell (x, y) goes to row width-1-x, column y. */
  lemma Targets270(p: Params, x: nat, y: nat)
    requires WellFormed(p) && x < p.width && y < p.height && p.degree == 270 && p.pad == 0
    ensures LumaTarget(p, x, y) == (p.width - 1 - x) * p.height + y
  {
  }

  /** Degree 90 stores the V byte of input pair (cx, cy) at output pair cx*(height/2) + r, r = height/2-1-cy. */
  lemma Pair90(p: Params, cx: nat, cy: nat, r: nat)
    requires WellFormed(p) && p.degree == 90 && cx < p.width / 2 && cy < p.height / 2 && r == p.height / 2 - 1 - cy
    ensures 2 * cx < p.width && 2 * cy < p.height
    ensures VTarget(p, 2 * cx, 2 * cy) == p.width * p.height + 2 * (cx * (p.height / 2) + r)
  {
    assert (2 * cx) / 2 == cx;
    ChromaSlot(cx, p.height - 2 - 2 * cy, p.width, p.height);
  }

  /** Degree 270 without padding stores the V byte of input pair (cx, cy) at output pair c*(height/2) + cy, c = width/2-1-cx. */
  lemma Pair270(p: Params, cx: nat, cy: nat, c: nat)
    requires WellFormed(p) && p.degree == 270 && p.pad == 0 && cx < p.width / 2 && cy < p.height / 2 && c == p.width / 2 - 1 - cx
    ensures 2 * cx < p.width && 2 * cy < p.height
    ensures VTarget(p, 2 * cx, 2 * cy) == p.width * p.height + 2 * (c * (p.height / 2) + cy)
  {
    assert (p.width - 1 - 2 * cx) / 2 == c;
    ChromaSlot(c, 2 * cy, p.width, p.height);
  }

  /** The luma write of a run stores the byte the rotated frame holds there. */
  lemma LumaAgrees(p: Params, s: seq<byte>, x: nat, y: nat, R: seq<byte>)
    requires WellFormed(p) && |s| >= FrameSize(p) && x < p.width && y < p.height && Rotates(p)
    requires |R| >= FrameSize(p) && R[..FrameSize(p)] == RotatedNV21(s, p.width, p.height, p.width / 2, p.height / 2, p.degree)
    ensures x + y * p.width < |s|
    ensures LumaTarget(p, x, y) < |R| && R[LumaTarget(p, x, y)] == s[x + y * p.width]
  {
    LumaInFrame(p);
    GridIndex(x, y, p.width, p.height);
    var g := s[..p.width * p.height];
    assert g[y * p.width + x] == s[x + y * p.width];
    var k := LumaTarget(p, x, y);
    if p.degree == 90 {
      Targets90(p, x, y);
      Rotate90At(g, p.width, p.height, x, y, p.height - 1 - y);
      RotatedLumaByte(s, p.width, p.height, p.width / 2, p.height / 2, 90, k);
    } else {
      Targets270(p, x, y);
      Rotate270At(g, p.width, p.height, x, y, p.width - 1 - x);
      RotatedLumaByte(s, p.width, p.height, p.width / 2, p.height / 2, 270, k);
    }
    PrefixPair(R, FrameSize(p), k);
  }

  /** The chroma writes of an even run store the bytes the rotated frame holds there. */
  lemma ChromaAgrees(p: Params, s: seq<byte>, x: nat, y: nat, R: seq<byte>)
    requires WellFormed(p) && |s| >= FrameSize(p) && x < p.width && y < p.height && Rotates(p)
    requires x % 2 == 0 && y % 2 == 0
    requires |R| >= FrameSize(p) && R[..FrameSize(p)] == RotatedNV21(s, p.width, p.height, p.width / 2, p.height / 2, p.degree)
    ensures VTarget(p, x, y) + 1 < |R|
    ensures R[VTarget(p, x, y)] == s[ChromaSource(p, x, y)] && R[VTarget(p, x, y) + 1] == s[ChromaSource(p, x, y) + 1]
  {
    var cx, cy: nat := x / 2, y / 2;
    assert x == 2 * cx && y == 2 * cy;
    if p.degree == 90 {
      Chroma90Agrees(p, s, cx, cy, R);
    } else {
      Chroma270Agrees(p, s, cx, cy, R);
    }
  }

  /** ChromaAgrees at degree 90, for input pair (cx, cy). */
  lemma Chroma90Agrees(p: Params, s: seq<byte>, cx: nat, cy: nat, R: seq<byte>)
    requires WellFormed(p) && |s| >= FrameSize(p) && p.degree == 90 && cx < p.width / 2 && cy < p.height / 2
    requires |R| >= FrameSize(p) && R[..FrameSize(p)] == RotatedNV21(s, p.width, p.height, p.width / 2, p.height / 2, 90)
    ensures 2 * cx < p.width && 2 * cy < p.height && VTarget(p, 2 * cx, 2 * cy) + 1 < |R|
    ensures R[VTarget(p, 2 * cx, 2 * cy)] == s[ChromaSource(p, 2 * cx, 2 * cy)]
    ensures R[VTarget(p, 2 * cx, 2 * cy) + 1] == s[ChromaSource(p, 2 * cx, 2 * cy) + 1]
  {
    var r: nat := p.height / 2 - 1 - cy;
    Pair90(p, cx, cy, r);
    MulNonneg(cy, p.width / 2);
    MulNonneg(cx, p.height / 2);
    var q: nat := cy * (p.width / 2) + cx;
    var pp: nat := cx * (p.height / 2) + r;
    assert (2 * cx) / 2 == cx && (2 * cy) / 2 == cy;
    assert ChromaSource(p, 2 * cx, 2 * cy) == p.width * p.height + 2 * q;
    Rotate90Chroma(s, p.width, p.height, p.width / 2, p.height / 2, cx, cy, r, pp, q);
    PrefixPair(R, FrameSize(p), p.width * p.height + 2 * pp);
  }

  /** ChromaAgrees at degree 270 without padding, for input pair (cx, cy). */
  lemma Chroma270Agrees(p: Params, s: seq<byte>, cx: nat, cy: nat, R: seq<byte>)
    requires WellFormed(p) && |s| >= FrameSize(p) && p.degree == 270 && p.pad == 0 && cx < p.width / 2 && cy < p.height / 2
    requires |R| >= FrameSize(p) && R[..FrameSize(p)] == RotatedNV21(s, p.width, p.height, p.width / 2, p.height / 2, 270)
    ensures 2 * cx < p.width && 2 * cy < p.height && VTarget(p, 2 * cx, 2 * cy) + 1 < |R|
    ensures R[VTarget(p, 2 * cx, 2 * cy)] == s[ChromaSource(p, 2 * cx, 2 * cy)]
    ensures R[VTarget(p, 2 * cx, 2 * cy) + 1] == s[ChromaSource(p, 2 * cx, 2 * cy) + 1]
  {
    var c: nat := p.width / 2 - 1 - cx;
    Pair270(p, cx, cy, c);
    MulNonneg(cy, p.width / 2);
    MulNonneg(c, p.height / 2);
    var q: nat := cy * (p.width / 2) + cx;
    var pp: nat := c * (p.height / 2) + cy;
    assert (2 * cx) / 2 == cx && (2 * cy) / 2 == cy;
    assert ChromaSource(p, 2 * cx, 2 * cy) == p.width * p.height + 2 * q;
    Rotate270Chroma(s, p.width, p.height, p.width / 2, p.height / 2, cx, cy, c, pp, q);
    PrefixPair(R, FrameSize(p), p.width * p.height + 2 * pp);
  }

  /** A pair of bytes inside a prefix of R is the same pair in R. */
  lemma PrefixPair(R: seq<byte>, F: nat, v: nat)
    requires v + 1 < F <= |R|
    ensures R[..F][v] == R[v] && R[..F][v + 1] == R[v + 1]
  {
  }

  /** Each write of a run stores the byte the rotated frame holds there. */
  lemma RunAgrees(p: Params, s: seq<byte>, x: nat, y: nat, R: seq<byte>)
    requires WellFormed(p) && |s| >= FrameSize(p) && x < p.width && y < p.height && Rotates(p)
    requires |R| >= FrameSize(p) && R[..FrameSize(p)] == RotatedNV21(s, p.width, p.height, p.width / 2, p.height / 2, p.degree)
    ensures Agrees(Writes(p, s, x, y), R)
  {
    var ws := Writes(p, s, x, y);
    if Stored(p, x, y) {
      RunShape(p, s, x, y);
      LumaAgrees(p, s, x, y, R);
      var even := x % 2 == 0 && y % 2 == 0;
      if even {
        ChromaAgrees(p, s, x, y, R);
      }
      forall i | 0 <= i < |ws| ensures ws[i].at < |R| && ws[i].value == R[ws[i].at] {
        if i > 0 {
          assert even;
        }
      }
    }
  }

  lemma {:induction false} LaunchAgrees(p: Params, s: seq<byte>, n: nat, R: seq<byte>)
    requires WellFormed(p) && |s| >= FrameSize(p) && n <= p.width * p.height && Rotates(p)
    requires |R| >= FrameSize(p) && R[..FrameSize(p)] == RotatedNV21(s, p.width, p.height, p.width / 2, p.height / 2, p.degree)
    ensures Agrees(LaunchWrites(p, s, n), R)
  {
    if n > 0 {
      DivBelow(n - 1, p.height, p.width);
      var x, y := (n - 1) % p.width, (n - 1) / p.width;
      LaunchAgrees(p, s, n - 1, R);
      RunAgrees(p, s, x, y, R);
      var a, b := LaunchWrites(p, s, n - 1), Writes(p, s, x, y);
      var ab: seq<Write> := LaunchWrites(p, s, n);
      assert ab == a + b;
      forall i | 0 <= i < |ab| ensures ab[i].at < |R| && ab[i].value == R[ab[i].at] {
        if i >= |a| {
          assert ab[i] == b[i - |a|];
        } else {
          assert ab[i] == a[i];
        }
      }
    }
  }

  /** Every luma offset is stored by some run. */
  lemma LumaCovered(p: Params, s: seq<byte>, k: nat)
    requires WellFormed(p) && |s| >= FrameSize(p) && Rotates(p) && k < p.width * p.height
    ensures Targets(LaunchWrites(p, s, p.width * p.height), k)
  {
    var w, h := p.width, p.height;
    DivBelow(k, w, h);
    DivMod(k, h);
    var c, r := k / h, k % h;
    var x, y := if p.degree == 90 then c else w - 1 - c, if p.degree == 90 then h - 1 - r else r;
    assert k == c * h + r;
    if p.degree == 90 {
      Targets90(p, x, y);
      assert LumaTarget(p, x, y) == k;
    } else {
      Targets270(p, x, y);
      assert w - 1 - x == c;
      assert LumaTarget(p, x, y) == k;
    }
    RunShape(p, s, x, y);
    assert Writes(p, s, x, y)[0].at == k;
    PixelNumber(p, x, y);
    LaunchHas(p, s, x, y, 0, w * h);
  }

  /** Both chroma bytes an even run stores appear among the launch's writes. */
  lemma ChromaRunCovers(p: Params, s: seq<byte>, x: nat, y: nat, k: nat)
    requires WellFormed(p) && |s| >= FrameSize(p) && x < p.width && y < p.height && Stored(p, x, y)
    requires x % 2 == 0 && y % 2 == 0 && (k == VTarget(p, x, y) || k == VTarget(p, x, y) + 1)
    ensures Targets(LaunchWrites(p, s, p.width * p.height), k)
  {
    RunShape(p, s, x, y);
    PixelNumber(p, x, y);
    if k == VTarget(p, x, y) {
      LaunchHas(p, s, x, y, 2, p.width * p.height);
    } else {
      LaunchHas(p, s, x, y, 1, p.width * p.height);
    }
  }

  /** Every chroma offset is stored by some run. */
  lemma ChromaCovered(p: Params, s: seq<byte>, k: nat)
    requires WellFormed(p) && |s| >= FrameSize(p) && Rotates(p)
    requires p.width * p.height <= k < FrameSize(p)
    ensures Targets(LaunchWrites(p, s, p.width * p.height), k)
  {
    var cw, ch := p.width / 2, p.height / 2;
    var pi := (k - p.width * p.height) / 2;
    DivBelow(pi, cw, ch);
    DivMod(pi, ch);
    var c, r := pi / ch, pi % ch;
    if p.degree == 90 {
      Pair90(p, c, ch - 1 - r, r);
      ChromaRunCovers(p, s, 2 * c, 2 * (ch - 1 - r), k);
    } else {
      Pair270(p, cw - 1 - c, r, c);
      ChromaRunCovers(p, s, 2 * (cw - 1 - c), 2 * r, k);
    }
  }

  /**
   * The launch at degree 90, or at degree 270 on a frame without padding,
   * leaves gOut holding exactly the NV21 frame rotated by that degree (the
   * rotation nativeRotateNV21 computes), with anything after the frame
   * unchanged.
   */
  lemma LaunchRotates(p: Params, s: seq<byte>, d: seq<byte>)
    requires WellFormed(p) && |s| >= FrameSize(p) && |d| >= FrameSize(p) && Rotates(p)
    ensures InBounds(LaunchWrites(p, s, p.width * p.height), |d|)
    ensures Apply(d, LaunchWrites(p, s, p.width * p.height)) ==
      RotatedNV21(s, p.width, p.height, p.width / 2, p.height / 2, p.degree) + d[FrameSize(p)..]
  {
    var N := p.width * p.height;
    var R := RotatedNV21(s, p.width, p.height, p.width / 2, p.height / 2, p.degree) + d[FrameSize(p)..];
    var ws := LaunchWrites(p, s, N);
    assert R[..FrameSize(p)] == RotatedNV21(s, p.width, p.height, p.width / 2, p.height / 2, p.degree);
    LaunchAgrees(p, s, N, R);
    forall k | 0 <= k < |d| ensures Apply(d, ws)[k] == R[k] {
      ApplyAgrees(d, ws, R, k);
      if k < N {
        LumaCovered(p, s, k);
      } else if k < FrameSize(p) {
        ChromaCovered(p, s, k);
      }
    }
  }
}
