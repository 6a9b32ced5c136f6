// NV21 buffer engine of the camera's native image library (jni/image_util_jni.cpp).
// An NV21 frame of w x h pixels (w and h even) is a luma plane of w*h bytes,
// row-major, followed by a chroma plane of (w/2) x (h/2) pairs, each pair stored
// as two bytes: V first, then U.
module Nv21 {
  import opened Bytes
  import opened Arith
  import opened Grid

  /** One interleaved chroma sample pair. */
  datatype Chroma = Chroma(v: byte, u: byte)

  /**
   * Bytes of a w x h NV21 frame whose chroma grid is cw x ch pairs
   * (cw = w/2 and ch = h/2; the half dimensions are passed explicitly).
   */
  function NV21Size(w: nat, h: nat, cw: nat, ch: nat): nat { w * h + 2 * (cw * ch) }

  /** Half dimensions of a frame with even width and height. */
  predicate Halves(w: nat, h: nat, cw: nat, ch: nat) { w == 2 * cw && h == 2 * ch }

  /** For even dimensions the frame has w*h*3/2 bytes, the size the camera allocates. */
  lemma NV21SizeEven(w: nat, h: nat)
    requires w % 2 == 0 && h % 2 == 0
    ensures Halves(w, h, w / 2, h / 2)
    ensures NV21Size(w, h, w / 2, h / 2) == w * h * 3 / 2
  {
    var cw, ch := w / 2, h / 2;
    assert w * h == 4 * (cw * ch) by { assert w == 2 * cw && h == 2 * ch; }
  }

  /** n chroma pairs read from base onward. */
  function Pairs(s: seq<byte>, base: nat, n: nat): (ps: seq<Chroma>)
    requires base + 2 * n <= |s|
    ensures |ps| == n
  {
    seq(n, p requires 0 <= p < n => Chroma(s[base + 2 * p], s[base + 2 * p + 1]))
  }

  /** Pairs written back as bytes, V before U. */
  function Unpair(ps: seq<Chroma>): (s: seq<byte>)
    ensures |s| == 2 * |ps|
  {
    if ps == [] then [] else Unpair(ps[..|ps| - 1]) + [ps[|ps| - 1].v, ps[|ps| - 1].u]
  }

  /** Pair p of a sequence lands at bytes 2p (V) and 2p + 1 (U). */
  lemma {:induction false} UnpairAt(ps: seq<Chroma>, p: nat)
    requires p < |ps|
    ensures Unpair(ps)[2 * p] == ps[p].v && Unpair(ps)[2 * p + 1] == ps[p].u
  {
    if p < |ps| - 1 {
      UnpairAt(ps[..|ps| - 1], p);
    }
  }

  /** Unpair distributes over concatenation. */
  lemma {:induction false} UnpairConcat(a: seq<Chroma>, b: seq<Chroma>)
    ensures Unpair(a + b) == Unpair(a) + Unpair(b)
  {
    if b != [] {
      var c := b[|b| - 1];
      var b' := b[..|b| - 1];
      assert a + b == (a + b') + [c];
      assert b == b' + [c];
      UnpairConcat(a, b');
    } else {
      assert a + b == a;
    }
  }

  /** Bytes that hold the pairs of a line, V before U, are that line unpaired. */
  lemma UnpairFrom(a: seq<byte>, line: seq<Chroma>)
    requires |a| == 2 * |line|
    requires forall t :: 0 <= t < |line| ==> a[2 * t] == line[t].v && a[2 * t + 1] == line[t].u
    ensures a == Unpair(line)
  {
    forall k | 0 <= k < |a| ensures a[k] == Unpair(line)[k] {
      var t := k / 2;
      UnpairAt(line, t);
      if k % 2 == 0 {
        assert k == 2 * t;
      } else {
        assert k == 2 * t + 1;
      }
    }
  }

  /** Reading pairs back from bytes written by Unpair gives the same pairs. */
  lemma PairsOfUnpair(ps: seq<Chroma>)
    ensures Pairs(Unpair(ps), 0, |ps|) == ps
  {
    var s := Unpair(ps);
    forall t | 0 <= t < |ps| ensures s[2 * t] == ps[t].v && s[2 * t + 1] == ps[t].u {
      UnpairAt(ps, t);
    }
    PairsOfBytes(s, ps);
  }

  /** Bytes holding the pairs, V before U, read back as those pairs. */
  lemma PairsOfBytes(s: seq<byte>, ps: seq<Chroma>)
    requires |s| == 2 * |ps|
    requires forall t :: 0 <= t < |ps| ==> s[2 * t] == ps[t].v && s[2 * t + 1] == ps[t].u
    ensures Pairs(s, 0, |ps|) == ps
  {
    var P := Pairs(s, 0, |ps|);
    forall p | 0 <= p < |ps| ensures P[p] == ps[p] {
      assert P[p] == Chroma(s[2 * p], s[2 * p + 1]);
    }
  }

  /** The chroma plane of a frame: its cw x ch grid of pairs after the luma plane. */
  function ChromaPlane(s: seq<byte>, w: nat, h: nat, cw: nat, ch: nat): (ps: seq<Chroma>)
    requires |s| >= NV21Size(w, h, cw, ch)
    ensures |ps| == cw * ch
  {
    Pairs(s, w * h, cw * ch)
  }

  /** A frame's bytes are its luma plane followed by its chroma pairs, V before U. */
  lemma PlaneBytes(s: seq<byte>, w: nat, h: nat, cw: nat, ch: nat)
    requires |s| >= NV21Size(w, h, cw, ch)
    ensures s[..NV21Size(w, h, cw, ch)] == s[..w * h] + Unpair(ChromaPlane(s, w, h, cw, ch))
  {
    var P := ChromaPlane(s, w, h, cw, ch);
    var N := NV21Size(w, h, cw, ch);
    var t := s[..w * h] + Unpair(P);
    forall k | 0 <= k < N ensures s[k] == t[k] {
      if k >= w * h {
        var j := k - w * h;
        var p := j / 2;
        UnpairAt(P, p);
        if j % 2 == 0 {
          assert j == 2 * p;
        } else {
          assert j == 2 * p + 1;
        }
      }
    }
  }

  /**
   * The frame that rotateBufAndMerge writes for degree 90, 180 or 270: the
   * luma grid rotated cell by cell, then the chroma grid rotated pair by pair.
   */
  function RotatedNV21(s: seq<byte>, w: nat, h: nat, cw: nat, ch: nat, deg: int): (r: seq<byte>)
    requires |s| >= NV21Size(w, h, cw, ch)
    ensures |r| == NV21Size(w, h, cw, ch)
  {
    Rotated(s[..w * h], w, h, deg) + Unpair(Rotated(ChromaPlane(s, w, h, cw, ch), cw, ch, deg))
  }

  /** The two planes of a rotated frame. */
  lemma RotatedPlanes(s: seq<byte>, w: nat, h: nat, cw: nat, ch: nat, deg: int)
    requires |s| >= NV21Size(w, h, cw, ch)
    ensures RotatedNV21(s, w, h, cw, ch, deg)[..w * h] == Rotated(s[..w * h], w, h, deg)
    ensures ChromaPlane(RotatedNV21(s, w, h, cw, ch, deg), w, h, cw, ch) == Rotated(ChromaPlane(s, w, h, cw, ch), cw, ch, deg)
  {
    var r := RotatedNV21(s, w, h, cw, ch, deg);
    var RP := Rotated(ChromaPlane(s, w, h, cw, ch), cw, ch, deg);
    assert r[w * h..] == Unpair(RP);
    forall p | 0 <= p < cw * ch ensures ChromaPlane(r, w, h, cw, ch)[p] == RP[p] {
      UnpairAt(RP, p);
      assert r[w * h + 2 * p] == Unpair(RP)[2 * p];
      assert r[w * h + 2 * p + 1] == Unpair(RP)[2 * p + 1];
    }
  }

  /** A byte of the rotated luma plane, read from the rotated frame. */
  lemma RotatedLumaByte(s: seq<byte>, w: nat, h: nat, cw: nat, ch: nat, deg: int, k: nat)
    requires |s| >= NV21Size(w, h, cw, ch) && k < w * h
    ensures RotatedNV21(s, w, h, cw, ch, deg)[k] == Rotated(s[..w * h], w, h, deg)[k]
  {
  }

  /**
   * Where a chroma pair lands: if pair q of the input chroma grid moves to pair
   * p of the rotated grid, the bytes in[w*h + 2q] (V) and in[w*h + 2q + 1] (U)
   * move together to out[w*h + 2p] and out[w*h + 2p + 1].
   */
  lemma RotatedChromaBytes(s: seq<byte>, w: nat, h: nat, cw: nat, ch: nat, deg: int, p: nat, q: nat)
    requires |s| >= NV21Size(w, h, cw, ch) && p < cw * ch && q < cw * ch
    requires Rotated(ChromaPlane(s, w, h, cw, ch), cw, ch, deg)[p] == ChromaPlane(s, w, h, cw, ch)[q]
    ensures w * h + 2 * p + 1 < NV21Size(w, h, cw, ch) && w * h + 2 * q + 1 < NV21Size(w, h, cw, ch)
    ensures RotatedNV21(s, w, h, cw, ch, deg)[w * h + 2 * p] == s[w * h + 2 * q]
    ensures RotatedNV21(s, w, h, cw, ch, deg)[w * h + 2 * p + 1] == s[w * h + 2 * q + 1]
  {
    var rs := RotatedNV21(s, w, h, cw, ch, deg);
    RotatedPlanes(s, w, h, cw, ch, deg);
    assert ChromaPlane(rs, w, h, cw, ch)[p] == ChromaPlane(s, w, h, cw, ch)[q];
  }

  /**
   * Chroma: rotation by 90 moves pair q = cy*cw + cx (pair column cx of pair
   * row cy) to pair p = cx*ch + r (r = ch-1-cy), both of its bytes together.
   */
  lemma Rotate90Chroma(s: seq<byte>, w: nat, h: nat, cw: nat, ch: nat, cx: nat, cy: nat, r: nat, p: nat, q: nat)
    requires |s| >= NV21Size(w, h, cw, ch)
    requires cx < cw && cy < ch && r == ch - 1 - cy
    requires p == cx * ch + r && q == cy * cw + cx
    ensures p < cw * ch && q < cw * ch
    ensures w * h + 2 * p + 1 < NV21Size(w, h, cw, ch) && w * h + 2 * q + 1 < NV21Size(w, h, cw, ch)
    ensures RotatedNV21(s, w, h, cw, ch, 90)[w * h + 2 * p] == s[w * h + 2 * q]
    ensures RotatedNV21(s, w, h, cw, ch, 90)[w * h + 2 * p + 1] == s[w * h + 2 * q + 1]
  {
    var P := ChromaPlane(s, w, h, cw, ch);
    Rotate90At(P, cw, ch, cx, cy, r);
    RotatedChromaBytes(s, w, h, cw, ch, 90, p, q);
  }

  /** Chroma: rotation by 270 moves pair cy*cw + cx to pair c*ch + cy (c = cw-1-cx). */
  lemma Rotate270Chroma(s: seq<byte>, w: nat, h: nat, cw: nat, ch: nat, cx: nat, cy: nat, c: nat, p: nat, q: nat)
    requires |s| >= NV21Size(w, h, cw, ch)
    requires cx < cw && cy < ch && c == cw - 1 - cx
    requires p == c * ch + cy && q == cy * cw + cx
    ensures p < cw * ch && q < cw * ch
    ensures w * h + 2 * p + 1 < NV21Size(w, h, cw, ch) && w * h + 2 * q + 1 < NV21Size(w, h, cw, ch)
    ensures RotatedNV21(s, w, h, cw, ch, 270)[w * h + 2 * p] == s[w * h + 2 * q]
    ensures RotatedNV21(s, w, h, cw, ch, 270)[w * h + 2 * p + 1] == s[w * h + 2 * q + 1]
  {
    var P := ChromaPlane(s, w, h, cw, ch);
    Rotate270At(P, cw, ch, cx, cy, c);
    RotatedChromaBytes(s, w, h, cw, ch, 270, p, q);
  }

  /** Chroma: rotation by 180 moves pair cy*cw + cx to pair r*cw + c (r = ch-1-cy, c = cw-1-cx). */
  lemma Rotate180Chroma(s: seq<byte>, w: nat, h: nat, cw: nat, ch: nat, cx: nat, cy: nat, r: nat, c: nat, p: nat, q: nat)
    requires |s| >= NV21Size(w, h, cw, ch)
    requires cx < cw && cy < ch && r == ch - 1 - cy && c == cw - 1 - cx
    requires p == r * cw + c && q == cy * cw + cx
    ensures p < cw * ch && q < cw * ch
    ensures w * h + 2 * p + 1 < NV21Size(w, h, cw, ch) && w * h + 2 * q + 1 < NV21Size(w, h, cw, ch)
    ensures RotatedNV21(s, w, h, cw, ch, 180)[w * h + 2 * p] == s[w * h + 2 * q]
    ensures RotatedNV21(s, w, h, cw, ch, 180)[w * h + 2 * p + 1] == s[w * h + 2 * q + 1]
  {
    var P := ChromaPlane(s, w, h, cw, ch);
    Rotate180At(P, cw, ch, cx, cy, r, c);
    RotatedChromaBytes(s, w, h, cw, ch, 180, p, q);
  }

  /** A frame assembled from a luma grid and a chroma pair grid, in NV21 layout. */
  lemma AssembledPlanes(s: seq<byte>, w: nat, h: nat, cw: nat, ch: nat, L: seq<byte>, C: seq<Chroma>)
    requires |s| >= NV21Size(w, h, cw, ch)
    requires s[..w * h] == L && ChromaPlane(s, w, h, cw, ch) == C
    ensures s[..NV21Size(w, h, cw, ch)] == L + Unpair(C)
  {
    PlaneBytes(s, w, h, cw, ch);
  }

  /** Rotating a frame by 180 twice restores all of its bytes. */
  lemma Rotate180TwiceNV21(s: seq<byte>, w: nat, h: nat, cw: nat, ch: nat)
    requires |s| >= NV21Size(w, h, cw, ch)
    ensures RotatedNV21(RotatedNV21(s, w, h, cw, ch, 180), w, h, cw, ch, 180) == s[..NV21Size(w, h, cw, ch)]
  {
    var N := NV21Size(w, h, cw, ch);
    var r := RotatedNV21(s, w, h, cw, ch, 180);
    var rr := RotatedNV21(r, w, h, cw, ch, 180);
    var P := ChromaPlane(s, w, h, cw, ch);
    RotatedPlanes(s, w, h, cw, ch, 180);
    RotatedPlanes(r, w, h, cw, ch, 180);
    Rotate180Twice(s[..w * h], w, h);
    Rotate180Twice(P, cw, ch);
    assert rr[..w * h] == s[..w * h][..w * h];
    AssembledPlanes(rr, w, h, cw, ch, s[..w * h], P);
    PlaneBytes(s, w, h, cw, ch);
    assert rr == rr[..N];
  }

  /** Rotating by 90 and then rotating the h x w result by 270 restores the frame. */
  lemma Rotate90Then270NV21(s: seq<byte>, w: nat, h: nat, cw: nat, ch: nat)
    requires |s| >= NV21Size(w, h, cw, ch)
    ensures NV21Size(h, w, ch, cw) == NV21Size(w, h, cw, ch)
    ensures RotatedNV21(RotatedNV21(s, w, h, cw, ch, 90), h, w, ch, cw, 270) == s[..NV21Size(w, h, cw, ch)]
  {
    var N := NV21Size(w, h, cw, ch);
    assert h * w == w * h && ch * cw == cw * ch;
    var r := RotatedNV21(s, w, h, cw, ch, 90);
    var rr := RotatedNV21(r, h, w, ch, cw, 270);
    var P := ChromaPlane(s, w, h, cw, ch);
    RotatedPlanes(s, w, h, cw, ch, 90);
    RotatedPlanes(r, h, w, ch, cw, 270);
    assert ChromaPlane(r, h, w, ch, cw) == ChromaPlane(r, w, h, cw, ch);
    Rotate90Then270(s[..w * h], w, h);
    Rotate90Then270(P, cw, ch);
    assert r[..h * w] == r[..w * h];
    assert rr[..w * h] == s[..w * h][..w * h];
    AssembledPlanes(rr, w, h, cw, ch, s[..w * h], P);
    PlaneBytes(s, w, h, cw, ch);
    assert rr == rr[..N];
  }

  /** Two quarter turns of a frame make its half turn. */
  lemma Rotate90TwiceNV21(s: seq<byte>, w: nat, h: nat, cw: nat, ch: nat)
    requires |s| >= NV21Size(w, h, cw, ch)
    ensures NV21Size(h, w, ch, cw) == NV21Size(w, h, cw, ch)
    ensures RotatedNV21(RotatedNV21(s, w, h, cw, ch, 90), h, w, ch, cw, 90)
            == RotatedNV21(s, w, h, cw, ch, 180)
  {
    var N := NV21Size(w, h, cw, ch);
    assert h * w == w * h && ch * cw == cw * ch;
    var r := RotatedNV21(s, w, h, cw, ch, 90);
    var rr := RotatedNV21(r, h, w, ch, cw, 90);
    var half := RotatedNV21(s, w, h, cw, ch, 180);
    var P := ChromaPlane(s, w, h, cw, ch);
    RotatedPlanes(s, w, h, cw, ch, 90);
    RotatedPlanes(r, h, w, ch, cw, 90);
    RotatedPlanes(s, w, h, cw, ch, 180);
    assert ChromaPlane(r, h, w, ch, cw) == ChromaPlane(r, w, h, cw, ch);
    Rotate90Twice(s[..w * h], w, h);
    Rotate90Twice(P, cw, ch);
    assert r[..h * w] == r[..w * h];
    AssembledPlanes(rr, w, h, cw, ch, half[..w * h], ChromaPlane(half, w, h, cw, ch));
    PlaneBytes(half, w, h, cw, ch);
    assert rr == rr[..N] && half == half[..N];
  }

  /** Four quarter turns of a frame restore all of its bytes. */
  lemma FourQuarterTurnsNV21(s: seq<byte>, w: nat, h: nat, cw: nat, ch: nat)
    requires |s| >= NV21Size(w, h, cw, ch)
    ensures NV21Size(h, w, ch, cw) == NV21Size(w, h, cw, ch)
    ensures RotatedNV21(RotatedNV21(RotatedNV21(RotatedNV21(s, w, h, cw, ch, 90),
              h, w, ch, cw, 90), w, h, cw, ch, 90), h, w, ch, cw, 90)
            == s[..NV21Size(w, h, cw, ch)]
  {
    Rotate90TwiceNV21(s, w, h, cw, ch);
    var half := RotatedNV21(s, w, h, cw, ch, 180);
    Rotate90TwiceNV21(half, w, h, cw, ch);
    Rotate180TwiceNV21(s, w, h, cw, ch);
  }
}
