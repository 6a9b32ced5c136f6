// rotateBufAndMerge of jni/image_util_jni.cpp: copies an NV21 frame into a
// second buffer rotated by 90, 180 or 270 degrees, the luma plane pixel by
// pixel and the chroma plane as whole (V, U) pairs. Each inner loop of the
// source is one method below, writing one contiguous run of the output.
module Nv21Rotate {
  import opened Bytes
  import opened Arith
  import opened Grid
  import opened Nv21

  predicate IsRightAngle(degree: int) { degree == 90 || degree == 180 || degree == 270 }

  /** Everything outside out[lo..hi) is as it was. */
  twostate predicate KeptOutside(a: array<byte>, lo: int, hi: int)
    reads a
  {
    forall k :: 0 <= k < a.Length && (k < lo || hi <= k) ==> a[k] == old(a[k])
  }

  // ---- luma: one column or row of the output per call ----

  /** Inner loop for degree 90: column x of the input, bottom to top. */
  method LumaColumn90(inBuf: array<byte>, w: nat, h: nat, x: nat, outBuf: array<byte>, start: nat)
    requires inBuf != outBuf && inBuf.Length >= w * h && x < w && start + h <= outBuf.Length
    modifies outBuf
    ensures outBuf[start..start + h] == Col90(inBuf[..w * h], w, h, x)
    ensures KeptOutside(outBuf, start, start + h)
  {
    ghost var col := Col90(inBuf[..w * h], w, h, x);
    var i := start;
    for y := h downto 0
      invariant i == start + (h - y)
      invariant outBuf[start..i] == col[..h - y]
      invariant KeptOutside(outBuf, start, i)
    {
      GridIndex(x, y, w, h);
      var offset := y * w + x;
      outBuf[i] := inBuf[offset];
      i := i + 1;
      assert outBuf[start..i] == outBuf[start..i - 1] + [outBuf[i - 1]];
    }
  }

  /** Inner loop for degree 270: column x of the input, top to bottom. */
  method LumaColumn270(inBuf: array<byte>, w: nat, h: nat, x: nat, outBuf: array<byte>, start: nat)
    requires inBuf != outBuf && inBuf.Length >= w * h && x < w && start + h <= outBuf.Length
    modifies outBuf
    ensures outBuf[start..start + h] == Col270(inBuf[..w * h], w, h, x)
    ensures KeptOutside(outBuf, start, start + h)
  {
    ghost var col := Col270(inBuf[..w * h], w, h, x);
    var i := start;
    for y := 0 to h
      invariant i == start + y
      invariant outBuf[start..i] == col[..y]
      invariant KeptOutside(outBuf, start, i)
    {
      GridIndex(x, y, w, h);
      var offset := y * w + x;
      outBuf[i] := inBuf[offset];
      i := i + 1;
      assert outBuf[start..i] == outBuf[start..i - 1] + [outBuf[i - 1]];
    }
  }

  /** Inner loop for degree 180: row y of the input, right to left. */
  method LumaRow180(inBuf: array<byte>, w: nat, h: nat, y: nat, outBuf: array<byte>, start: nat)
    requires inBuf != outBuf && inBuf.Length >= w * h && y < h && start + w <= outBuf.Length
    modifies outBuf
    ensures outBuf[start..start + w] == RevRow(inBuf[..w * h], w, h, y)
    ensures KeptOutside(outBuf, start, start + w)
  {
    ghost var row := RevRow(inBuf[..w * h], w, h, y);
    var i := start;
    for x := w downto 0
      invariant i == start + (w - x)
      invariant outBuf[start..i] == row[..w - x]
      invariant KeptOutside(outBuf, start, i)
    {
      GridIndex(x, y, w, h);
      var offset := y * w + x;
      outBuf[i] := inBuf[offset];
      i := i + 1;
      assert outBuf[start..i] == outBuf[start..i - 1] + [outBuf[i - 1]];
    }
  }

  /** Luma for degree 90: columns left to right. */
  method Luma90(inBuf: array<byte>, w: nat, h: nat, outBuf: array<byte>)
    requires inBuf != outBuf && inBuf.Length >= w * h && outBuf.Length >= w * h
    modifies outBuf
    ensures outBuf[..w * h] == Rotated(inBuf[..w * h], w, h, 90)
    ensures KeptOutside(outBuf, 0, w * h)
  {
    ghost var src := inBuf[..w * h];
    var i := 0;
    for x := 0 to w
      invariant i == x * h && i <= w * h
      invariant outBuf[..i] == Rot90Cols(src, w, h, x)
      invariant KeptOutside(outBuf, 0, i)
    {
      MulLe(x + 1, w, h);
      assert (x + 1) * h == x * h + h;
      LumaColumn90(inBuf, w, h, x, outBuf, i);
      assert outBuf[..i + h] == outBuf[..i] + outBuf[i..i + h];
      i := i + h;
    }
  }

  /** Luma for degree 270: columns right to left. */
  method Luma270(inBuf: array<byte>, w: nat, h: nat, outBuf: array<byte>)
    requires inBuf != outBuf && inBuf.Length >= w * h && outBuf.Length >= w * h
    modifies outBuf
    ensures outBuf[..w * h] == Rotated(inBuf[..w * h], w, h, 270)
    ensures KeptOutside(outBuf, 0, w * h)
  {
    ghost var src := inBuf[..w * h];
    var i := 0;
    ghost var n := 0;
    for x := w downto 0
      invariant n == w - x && i == n * h && i <= w * h
      invariant outBuf[..i] == Rot270Cols(src, w, h, n)
      invariant KeptOutside(outBuf, 0, i)
    {
      MulLe(n + 1, w, h);
      assert (n + 1) * h == n * h + h;
      LumaColumn270(inBuf, w, h, x, outBuf, i);
      assert outBuf[..i + h] == outBuf[..i] + outBuf[i..i + h];
      i := i + h;
      n := n + 1;
    }
  }

  /** Luma for degree 180: rows bottom to top. */
  method Luma180(inBuf: array<byte>, w: nat, h: nat, outBuf: array<byte>)
    requires inBuf != outBuf && inBuf.Length >= w * h && outBuf.Length >= w * h
    modifies outBuf
    ensures outBuf[..w * h] == Rotated(inBuf[..w * h], w, h, 180)
    ensures KeptOutside(outBuf, 0, w * h)
  {
    ghost var src := inBuf[..w * h];
    var i := 0;
    ghost var n := 0;
    for y := h downto 0
      invariant n == h - y && i == n * w && i <= w * h
      invariant outBuf[..i] == Rot180Rows(src, w, h, n)
      invariant KeptOutside(outBuf, 0, i)
    {
      MulLe(n + 1, h, w);
      assert (n + 1) * w == n * w + w && h * w == w * h;
      LumaRow180(inBuf, w, h, y, outBuf, i);
      assert outBuf[..i + w] == outBuf[..i] + outBuf[i..i + w];
      i := i + w;
      n := n + 1;
    }
  }

  // ---- chroma: one pair column or pair row of the output per call ----
  // The chroma methods see the input pairs as a ghost grid P, stored from
  // byte base onward, and write pair q of the rotated grid at out[base + 2q].

  /** The pairs of P are stored at a[base..], V before U. */
  ghost predicate PairsIn(a: array<byte>, base: nat, P: seq<Chroma>)
    reads a
  {
    base + 2 * |P| <= a.Length &&
    forall q :: 0 <= q < |P| ==> a[base + 2 * q] == P[q].v && a[base + 2 * q + 1] == P[q].u
  }

  /** Pairs lo..hi-1 of R are stored at a[base + 2lo..base + 2hi). */
  ghost predicate PairsWritten(a: array<byte>, base: nat, R: seq<Chroma>, lo: nat, hi: nat)
    reads a
    requires lo <= hi <= |R| && base + 2 * hi <= a.Length
  {
    forall q :: lo <= q < hi ==> a[base + 2 * q] == R[q].v && a[base + 2 * q + 1] == R[q].u
  }

  /** The chroma plane of a frame is stored right after its luma plane. */
  lemma ChromaPlaneIn(a: array<byte>, w: nat, h: nat, cw: nat, ch: nat)
    requires a.Length >= NV21Size(w, h, cw, ch)
    ensures PairsIn(a, w * h, ChromaPlane(a[..], w, h, cw, ch))
  {
  }

  /** A fully written pair grid reads back as that grid unpaired. */
  lemma AllPairsWritten(a: array<byte>, base: nat, R: seq<Chroma>)
    requires base + 2 * |R| <= a.Length && PairsWritten(a, base, R, 0, |R|)
    ensures a[base..base + 2 * |R|] == Unpair(R)
  {
    var s := a[base..base + 2 * |R|];
    forall t | 0 <= t < |R| ensures s[2 * t] == R[t].v && s[2 * t + 1] == R[t].u {
    }
    UnpairFrom(s, R);
  }

  /** Inner loop for degree 90: pair column cx (bytes x = 2cx, x + 1), bottom to top. */
  method ChromaColumn90(inBuf: array<byte>, w: nat, h: nat, base: nat, ghost cw: nat, ghost ch: nat,
                        ghost P: seq<Chroma>, x: nat, ghost cx: nat, outBuf: array<byte>, start: nat, ghost d: nat)
    requires inBuf != outBuf && w == 2 * cw && h / 2 == ch && |P| == cw * ch && PairsIn(inBuf, base, P)
    requires x == 2 * cx && cx < cw && d == cx * ch && d + ch <= cw * ch
    requires start == base + 2 * d && base + 2 * (cw * ch) <= outBuf.Length
    modifies outBuf
    ensures PairsWritten(outBuf, base, Rotated(P, cw, ch, 90), d, d + ch)
    ensures KeptOutside(outBuf, start, start + 2 * ch)
  {
    ghost var R := Rotated(P, cw, ch, 90);
    var i := start;
    for y := h / 2 downto 0
      invariant i == base + 2 * (d + (ch - y))
      invariant PairsWritten(outBuf, base, R, d, d + (ch - y))
      invariant KeptOutside(outBuf, start, i)
    {
      Rotate90At(P, cw, ch, cx, y, ch - 1 - y);
      RowOfPairs(y, w, cw);
      var offset := base + y * w + x;
      outBuf[i] := inBuf[offset];
      i := i + 1;
      outBuf[i] := inBuf[offset + 1];
      i := i + 1;
    }
  }

  /** Inner loop for degree 270: pair column cx (bytes x = 2cx, x + 1), top to bottom. */
  method ChromaColumn270(inBuf: array<byte>, w: nat, h: nat, base: nat, ghost cw: nat, ghost ch: nat,
                         ghost P: seq<Chroma>, x: nat, ghost cx: nat, outBuf: array<byte>, start: nat,
                         ghost n: nat, ghost d: nat)
    requires inBuf != outBuf && w == 2 * cw && h / 2 == ch && |P| == cw * ch && PairsIn(inBuf, base, P)
    requires x == 2 * cx && cx < cw && n == cw - 1 - cx && d == n * ch && d + ch <= cw * ch
    requires start == base + 2 * d && base + 2 * (cw * ch) <= outBuf.Length
    modifies outBuf
    ensures PairsWritten(outBuf, base, Rotated(P, cw, ch, 270), d, d + ch)
    ensures KeptOutside(outBuf, start, start + 2 * ch)
  {
    ghost var R := Rotated(P, cw, ch, 270);
    var i := start;
    for y := 0 to h / 2
      invariant i == base + 2 * (d + y)
      invariant PairsWritten(outBuf, base, R, d, d + y)
      invariant KeptOutside(outBuf, start, i)
    {
      Rotate270At(P, cw, ch, cx, y, n);
      RowOfPairs(y, w, cw);
      var offset := base + y * w + x;
      outBuf[i] := inBuf[offset];
      i := i + 1;
      outBuf[i] := inBuf[offset + 1];
      i := i + 1;
    }
  }

  /** Inner loop for degree 180: pair row y, right to left (x = w-2, w-4, ..., 0). */
  method ChromaRow180(inBuf: array<byte>, w: nat, h: nat, base: nat, ghost cw: nat, ghost ch: nat,
                      ghost P: seq<Chroma>, y: nat, outBuf: array<byte>, start: nat,
                      ghost n: nat, ghost d: nat)
    requires inBuf != outBuf && w == 2 * cw && |P| == cw * ch && PairsIn(inBuf, base, P)
    requires y < ch && n == ch - 1 - y && d == n * cw && d + cw <= cw * ch
    requires start == base + 2 * d && base + 2 * (cw * ch) <= outBuf.Length
    modifies outBuf
    ensures PairsWritten(outBuf, base, Rotated(P, cw, ch, 180), d, d + cw)
    ensures KeptOutside(outBuf, start, start + 2 * cw)
  {
    ghost var R := Rotated(P, cw, ch, 180);
    var i := start;
    var x := w - 2;
    ghost var m := 0;
    while x >= 0
      invariant x == w - 2 - 2 * m && m <= cw
      invariant i == base + 2 * (d + m)
      invariant PairsWritten(outBuf, base, R, d, d + m)
      invariant KeptOutside(outBuf, start, i)
    {
      Rotate180At(P, cw, ch, cw - 1 - m, y, n, m);
      RowOfPairs(y, w, cw);
      var offset := base + y * w + x;
      outBuf[i] := inBuf[offset];
      i := i + 1;
      outBuf[i] := inBuf[offset + 1];
      i := i + 1;
      x := x - 2;
      m := m + 1;
    }
  }

  /** Chroma for degree 90: pair columns left to right. */
  method Chroma90(inBuf: array<byte>, w: nat, h: nat, base: nat, ghost cw: nat, ghost ch: nat,
                  ghost P: seq<Chroma>, outBuf: array<byte>)
    requires inBuf != outBuf && w == 2 * cw && h == 2 * ch && |P| == cw * ch && PairsIn(inBuf, base, P)
    requires base + 2 * (cw * ch) <= outBuf.Length
    modifies outBuf
    ensures outBuf[base..base + 2 * (cw * ch)] == Unpair(Rotated(P, cw, ch, 90))
    ensures KeptOutside(outBuf, base, base + 2 * (cw * ch))
  {
    ghost var R := Rotated(P, cw, ch, 90);
    var i := base;
    var x := 0;
    ghost var cx, d: nat := 0, 0;
    while x < w
      invariant x == 2 * cx && cx <= cw
      invariant d == cx * ch && d <= cw * ch && i == base + 2 * d
      invariant PairsWritten(outBuf, base, R, 0, d)
      invariant KeptOutside(outBuf, base, i)
    {
      MulLe(cx + 1, cw, ch);
      assert (cx + 1) * ch == d + ch;
      ChromaColumn90(inBuf, w, h, base, cw, ch, P, x, cx, outBuf, i, d);
      i := i + h;
      x := x + 2;
      cx, d := cx + 1, d + ch;
    }
    AllPairsWritten(outBuf, base, R);
  }

  /** Chroma for degree 270: pair columns right to left (x = w-2, w-4, ..., 0). */
  method Chroma270(inBuf: array<byte>, w: nat, h: nat, base: nat, ghost cw: nat, ghost ch: nat,
                   ghost P: seq<Chroma>, outBuf: array<byte>)
    requires inBuf != outBuf && w == 2 * cw && h == 2 * ch && |P| == cw * ch && PairsIn(inBuf, base, P)
    requires base + 2 * (cw * ch) <= outBuf.Length
    modifies outBuf
    ensures outBuf[base..base + 2 * (cw * ch)] == Unpair(Rotated(P, cw, ch, 270))
    ensures KeptOutside(outBuf, base, base + 2 * (cw * ch))
  {
    ghost var R := Rotated(P, cw, ch, 270);
    var i := base;
    var x := w - 2;
    ghost var n, d: nat := 0, 0;
    while x >= 0
      invariant x == w - 2 - 2 * n && n <= cw
      invariant d == n * ch && d <= cw * ch && i == base + 2 * d
      invariant PairsWritten(outBuf, base, R, 0, d)
      invariant KeptOutside(outBuf, base, i)
    {
      MulLe(n + 1, cw, ch);
      assert (n + 1) * ch == d + ch;
      ChromaColumn270(inBuf, w, h, base, cw, ch, P, x, cw - 1 - n, outBuf, i, n, d);
      i := i + h;
      x := x - 2;
      n, d := n + 1, d + ch;
    }
    AllPairsWritten(outBuf, base, R);
  }

  /** Chroma for degree 180: pair rows bottom to top. */
  method Chroma180(inBuf: array<byte>, w: nat, h: nat, base: nat, ghost cw: nat, ghost ch: nat,
                   ghost P: seq<Chroma>, outBuf: array<byte>)
    requires inBuf != outBuf && w == 2 * cw && h == 2 * ch && |P| == cw * ch && PairsIn(inBuf, base, P)
    requires base + 2 * (cw * ch) <= outBuf.Length
    modifies outBuf
    ensures outBuf[base..base + 2 * (cw * ch)] == Unpair(Rotated(P, cw, ch, 180))
    ensures KeptOutside(outBuf, base, base + 2 * (cw * ch))
  {
    ghost var R := Rotated(P, cw, ch, 180);
    var i := base;
    ghost var n, d: nat := 0, 0;
    for y := h / 2 downto 0
      invariant n == ch - y && d == n * cw && d <= cw * ch && i == base + 2 * d
      invariant PairsWritten(outBuf, base, R, 0, d)
      invariant KeptOutside(outBuf, base, i)
    {
      MulLe(n + 1, ch, cw);
      assert (n + 1) * cw == d + cw && ch * cw == cw * ch;
      ChromaRow180(inBuf, w, h, base, cw, ch, P, y, outBuf, i, n, d);
      i := i + w;
      n, d := n + 1, d + cw;
    }
    AllPairsWritten(outBuf, base, R);
  }

  // ---- the whole frame ----

  lemma SplitPrefix(a: seq<byte>, i: nat, j: nat)
    requires i <= j <= |a|
    ensures a[..j] == a[..i] + a[i..j]
  {
  }

  /** The right-angle branches of rotateBufAndMerge, on the frame's half dimensions. */
  method RotateFrame(inBuf: array<byte>, w: nat, h: nat, cw: nat, ch: nat, degree: int, outBuf: array<byte>)
    requires inBuf != outBuf && Halves(w, h, cw, ch) && IsRightAngle(degree)
    requires inBuf.Length >= NV21Size(w, h, cw, ch) && outBuf.Length >= NV21Size(w, h, cw, ch)
    modifies outBuf
    ensures outBuf[..NV21Size(w, h, cw, ch)] == RotatedNV21(inBuf[..], w, h, cw, ch, degree)
    ensures KeptOutside(outBuf, 0, NV21Size(w, h, cw, ch))
  {
    MulNonneg(w, h);
    MulNonneg(cw, ch);
    ghost var N: nat := NV21Size(w, h, cw, ch);
    ghost var s := inBuf[..];
    ChromaPlaneIn(inBuf, w, h, cw, ch);
    ghost var P := ChromaPlane(s, w, h, cw, ch);
    assert inBuf[..w * h] == s[..w * h];
    if degree == 90 {
      Luma90(inBuf, w, h, outBuf);
    } else if degree == 270 {
      Luma270(inBuf, w, h, outBuf);
    } else {
      Luma180(inBuf, w, h, outBuf);
    }
    ghost var luma := outBuf[..w * h];
    ghost var mid := outBuf[..];
    if degree == 90 {
      Chroma90(inBuf, w, h, w * h, cw, ch, P, outBuf);
    } else if degree == 270 {
      Chroma270(inBuf, w, h, w * h, cw, ch, P, outBuf);
    } else {
      Chroma180(inBuf, w, h, w * h, cw, ch, P, outBuf);
    }
    assert outBuf[..w * h] == luma;
    SplitPrefix(outBuf[..], w * h, N);
    forall k | N <= k < outBuf.Length ensures outBuf[k] == old(outBuf[k]) {
      assert outBuf[k] == mid[k];
    }
  }

  /**
   * rotateBufAndMerge: for degree 90, 180 or 270 the first w*h*3/2 bytes of
   * the output become the rotated frame and nothing after them changes; any
   * other degree leaves the output as it was.
   */
  method RotateBufAndMerge(inBuf: array<byte>, w: nat, h: nat, degree: int, outBuf: array<byte>)
    requires inBuf != outBuf && w % 2 == 0 && h % 2 == 0
    requires inBuf.Length >= NV21Size(w, h, w / 2, h / 2) && outBuf.Length >= NV21Size(w, h, w / 2, h / 2)
    modifies outBuf
    ensures IsRightAngle(degree) ==>
      outBuf[..NV21Size(w, h, w / 2, h / 2)] == RotatedNV21(inBuf[..], w, h, w / 2, h / 2, degree)
    ensures KeptOutside(outBuf, 0, if IsRightAngle(degree) then NV21Size(w, h, w / 2, h / 2) else 0)
  {
    if IsRightAngle(degree) {
      RotateFrame(inBuf, w, h, w / 2, h / 2, degree, outBuf);
    }
  }
}
