// The best-picture chooser (src/com/android/camera/BestpictureActivity.java):
// the selection over the ten burst images, which never becomes empty, and
// the sample size the loader decodes each image with.
module Bestpicture {
  import opened Bytes
  import opened Arith
  import opened CameraUtil

  const NUM_IMAGES: int := 10

  predicate AnyChosen(c: seq<bool>) {
    exists i :: 0 <= i < |c| && c[i]
  }

  /** The selection a new `ImageItems` starts with: image 0 only. */
  function InitialSelection(): (c: seq<bool>)
    ensures |c| == NUM_IMAGES
  {
    seq(NUM_IMAGES, i => i == 0)
  }

  /** The selection after toggling image num: flipped, but the last chosen image cannot be unchosen. */
  function Toggled(c: seq<bool>, num: nat): (r: seq<bool>)
    requires num < |c|
    ensures |r| == |c| && AnyChosen(r)
    ensures forall i :: 0 <= i < |c| && i != num ==> r[i] == c[i]
    ensures r[num] <==> !c[num] || forall j :: 0 <= j < |c| && j != num ==> !c[j]
  {
    var f := c[num := !c[num]];
    if AnyChosen(f) then f
    else
      assert forall j :: 0 <= j < |c| && j != num ==> !c[j] by {
        forall j | 0 <= j < |c| && j != num ensures !c[j] { assert f[j] == c[j]; }
      }
      var r := c[num := true];
      assert r[num];
      r
  }

  /** Exactly image 0 is chosen at the start, and it is the one image toggling cannot unchoose. */
  lemma InitialSelectionChosen()
    ensures forall i :: 0 <= i < NUM_IMAGES ==> (InitialSelection()[i] <==> i == 0)
    ensures Toggled(InitialSelection(), 0) == InitialSelection()
  {
  }

  /** While some other image stays chosen, toggling an image twice restores the selection. */
  lemma ToggleTwice(c: seq<bool>, num: nat, other: nat)
    requires num < |c| && other < |c| && other != num && c[other]
    ensures Toggled(Toggled(c, num), num) == c
  {
    var once := Toggled(c, num);
    assert once[other];
  }

  /** `ImageItems`: the chosen flag of each image. */
  class ImageItems {
    const chosen: array<bool>

    predicate Valid()
      reads this
    {
      chosen.Length == NUM_IMAGES
    }

    constructor ()
      ensures Valid() && fresh(chosen)
      ensures chosen[..] == InitialSelection()
    {
      var c := new bool[NUM_IMAGES];
      for i := 0 to c.Length
        invariant c[..i] == InitialSelection()[..i]
      {
        if i == 0 {
          c[i] := true;
        } else {
          c[i] := false;
        }
      }
      chosen := c;
    }

    /** `getTotalItemNums`. */
    function TotalItemNums(): (n: int)
      ensures n == NUM_IMAGES
    {
      NUM_IMAGES
    }

    /** `isChosen`. */
    function IsChosen(index: int): bool
      reads this, chosen
      requires 0 <= index < chosen.Length
    {
      chosen[index]
    }

    /**
     * `toggleImageSelection`: flips the flag, ORs all flags together, and
     * sets the flag again when none is left.
     */
    method ToggleImageSelection(num: int)
      requires Valid() && 0 <= num < NUM_IMAGES
      modifies chosen
      ensures chosen[..] == Toggled(old(chosen[..]), num)
      ensures AnyChosen(chosen[..])
    {
      ghost var c := chosen[..];
      chosen[num] := !chosen[num];
      var isChosen := false;
      for i := 0 to chosen.Length
        invariant isChosen <==> AnyChosen(chosen[..i])
        invariant chosen[..] == c[num := !c[num]]
      {
        assert chosen[..i + 1] == chosen[..i] + [chosen[i]];
        isChosen := isChosen || chosen[i];
      }
      assert chosen[..chosen.Length] == chosen[..];
      if !isChosen {
        chosen[num] := true;
      }
      assert chosen[..] == Toggled(c, num);
    }
  }

  /** Whether one more halving of the decode still leaves the image larger than the target in both directions. */
  predicate Shrinkable(h: int, w: int, sample: int, maxH: int, maxW: int)
    requires sample > 0
  {
    JavaDiv(JavaDiv(h, sample), 2) > maxH && JavaDiv(JavaDiv(w, sample), 2) > maxW
  }

  /** Two powers of two within a factor of two of each other: the smaller one is at most the other. */
  lemma {:induction false} PowBelowDouble(p: int, s: int)
    requires IsPow2(p) && IsPow2(s) && p < 2 * s
    ensures p <= s
    decreases s
  {
    if s > 1 && p > 1 {
      PowBelowDouble(p / 2, s / 2);
    }
  }

  /** A decode that halves to above a non-negative target is at least twice the sample size. */
  lemma HalvesTwice(h: int, s: int, maxH: int)
    requires s >= 1 && maxH >= 0 && JavaDiv(JavaDiv(h, s), 2) > maxH
    ensures h >= 2 * s
  {
    var q := h / s;
    assert JavaDiv(h, s) == q && q / 2 > maxH;
    assert h == q * s + h % s;
    MulLe(2, q, s);
  }

  /**
   * The loader's sample size: 1 when the image already fits, otherwise the
   * first power of two after which the image no longer halves to above the
   * target in both directions.
   */
  method LoaderSampleSize(h: int, w: int, maxH: int, maxW: int) returns (sample: int)
    requires maxH >= 0 && maxW >= 0
    ensures sample >= 1 && IsPow2(sample)
    ensures !(h > maxH || w > maxW) ==> sample == 1
    ensures (h > maxH || w > maxW) ==> !Shrinkable(h, w, sample, maxH, maxW)
    ensures forall p :: 1 <= p < sample && IsPow2(p) ==> Shrinkable(h, w, p, maxH, maxW)
  {
    sample := 1;
    if h > maxH || w > maxW {
      while Shrinkable(h, w, sample, maxH, maxW)
        invariant sample >= 1 && IsPow2(sample)
        invariant forall p :: 1 <= p < sample && IsPow2(p) ==> Shrinkable(h, w, p, maxH, maxW)
        decreases h - sample
      {
        HalvesTwice(h, sample, maxH);
        forall p | 1 <= p < 2 * sample && IsPow2(p)
          ensures Shrinkable(h, w, p, maxH, maxW)
        {
          PowBelowDouble(p, sample);
        }
        sample := sample * 2;
      }
    }
  }
}
