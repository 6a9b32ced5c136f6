// The images of an MPO file (src/com/android/camera/mpo/MpoData.java): a
// primary image and a list of auxiliary images, each with its own IFD
// objects, and the operations that fill in their MP tags.
module MpoData {
  import opened Bytes
  import opened MpoTag
  import opened MpoIfd
  import opened MpoImage
  import opened MpoEntries
  import opened MpoEntryFacts

  /** No two images share an IFD object. */
  ghost predicate SeparateIfds(imgs: seq<ImageData>) {
    forall i, j :: 0 <= i < |imgs| && 0 <= j < |imgs| && i != j ==>
      imgs[i] != imgs[j] && imgs[i].index != imgs[j].index && imgs[i].index != imgs[j].attrib
      && imgs[i].attrib != imgs[j].index && imgs[i].attrib != imgs[j].attrib
  }

  /** Dropping an image keeps the others separate. */
  lemma SeparateDrop(imgs: seq<ImageData>, k: nat)
    requires k < |imgs| && SeparateIfds(imgs)
    ensures SeparateIfds(imgs[..k] + imgs[k + 1..])
  {
    var r := imgs[..k] + imgs[k + 1..];
    forall i | 0 <= i < |r| ensures r[i] == imgs[if i < k then i else i + 1] {
    }
  }

  /** An image kept separate from a list owns neither of its IFDs in the list. */
  lemma OutsideIfds(imgs: seq<ImageData>, image: ImageData)
    requires SeparateIfds(imgs + [image])
    ensures image.index !in IfdsOf(imgs) && image.attrib !in IfdsOf(imgs)
  {
    var all := imgs + [image];
    assert all[|imgs|] == image;
    forall i | 0 <= i < |imgs|
      ensures imgs[i].index != image.index && imgs[i].attrib != image.index
      ensures imgs[i].index != image.attrib && imgs[i].attrib != image.attrib
    {
      assert all[i] == imgs[i];
    }
  }

  /** A well-formed image appended to well-formed ones. */
  lemma AllValidAppend(imgs: seq<ImageData>, image: ImageData)
    requires AllValid(imgs) && image.Valid()
    ensures AllValid(imgs + [image])
  {
    var all := imgs + [image];
    forall i | 0 <= i < |all| ensures all[i].Valid() {
      if i < |imgs| {
        assert all[i] == imgs[i];
      }
    }
  }

  /** Dropping an image keeps the others well formed. */
  lemma AllValidDrop(imgs: seq<ImageData>, k: nat)
    requires k < |imgs| && AllValid(imgs)
    ensures AllValid(imgs[..k] + imgs[k + 1..])
  {
    var r := imgs[..k] + imgs[k + 1..];
    forall i | 0 <= i < |r| ensures r[i].Valid() {
      assert r[i] == imgs[if i < k then i else i + 1];
    }
  }

  /** The contents and links of an image's two IFDs at one moment. */
  datatype Shot = Shot(index: seq<Tag>, attrib: seq<Tag>, next: int, attribNext: int)

  /** The current contents and links of img's IFDs. */
  function ShotOf(img: ImageData): Shot
    reads img.index, img.attrib
  {
    Shot(img.index.tags, img.attrib.tags, img.index.next, img.attrib.next)
  }

  /** Snapshot s with the default attribute tags of image number n added. */
  function WithAttribDefaults(s: Shot, n: int): Shot {
    s.(attrib := AttribDefaults(s.attrib, n))
  }

  /**
   * Image img as `calculateImageSize` leaves it when its IFDs were as in s:
   * both IFDs laid out, the index IFD linked to the attribute IFD.
   */
  ghost predicate LaidOut(img: ImageData, s: Shot)
    reads img.index, img.attrib
  {
    img.index.tags == Laid(s.index, MP_HEADER_SIZE)
    && img.attrib.tags == Laid(s.attrib, AttribStart(s.index))
    && img.index.next == NextAfterLayout(s.index, s.attrib, s.next)
    && img.attrib.next == s.attribNext
  }

  /** Every image of a list is laid out from its snapshot in before. */
  ghost predicate AllLaidOut(imgs: seq<ImageData>, before: seq<Shot>)
    reads IfdsOf(imgs)
  {
    |before| == |imgs| && forall j :: 0 <= j < |imgs| ==> LaidOut(imgs[j], before[j])
  }

  /** Every image of a list is well formed. */
  ghost predicate AllValid(imgs: seq<ImageData>)
    reads imgs, IfdsOf(imgs)
  {
    forall j :: 0 <= j < |imgs| ==> imgs[j].Valid()
  }

  /** Every IFD of a list of images. */
  function IfdsOf(imgs: seq<ImageData>): (s: set<IfdData>)
    ensures forall i :: 0 <= i < |imgs| ==> imgs[i].index in s && imgs[i].attrib in s
  {
    (set i | 0 <= i < |imgs| :: imgs[i].index) + (set i | 0 <= i < |imgs| :: imgs[i].attrib)
  }

  /** The loop of `addDefaultIndexIfdTags` that lists n all-zero MP entries. */
  method PlaceholderEntries(n: nat) returns (entries: seq<MpEntry>)
    ensures |entries| == n && forall i :: 0 <= i < n ==> entries[i] == MpEntry(0, 0, 0, 0, 0)
  {
    entries := [];
    for i := 0 to n
      invariant |entries| == i && forall j :: 0 <= j < i ==> entries[j] == MpEntry(0, 0, 0, 0, 0)
    {
      entries := entries + [MpEntry(0, 0, 0, 0, 0)];
    }
  }

  /** What `calculateImageSize` gives for each image of a list, in the current state. */
  ghost function SizesOf(imgs: seq<ImageData>): (r: seq<int>)
    reads IfdsOf(imgs)
    ensures |r| == |imgs| && forall j :: 0 <= j < |imgs| ==> r[j] == ImageSize(imgs[j].index.tags, imgs[j].attrib.tags, |imgs[j].jpeg|)
  {
    seq(|imgs|, j requires 0 <= j < |imgs| reads IfdsOf(imgs) =>
      ImageSize(imgs[j].index.tags, imgs[j].attrib.tags, |imgs[j].jpeg|))
  }

  /** The current contents and links of every image's IFDs. */
  ghost function ShotsOf(imgs: seq<ImageData>): (r: seq<Shot>)
    reads IfdsOf(imgs)
    ensures |r| == |imgs| && forall j :: 0 <= j < |imgs| ==> r[j] == ShotOf(imgs[j])
  {
    seq(|imgs|, j requires 0 <= j < |imgs| reads IfdsOf(imgs) => ShotOf(imgs[j]))
  }

  /**
   * The tag additions of `addDefaultIndexIfdTags` on the primary image p
   * with `auxCount` auxiliary images: the format version when missing, the
   * number of images, and `auxCount + 1` zero MP entries.
   */
  method AddIndexDefaults(p: ImageData, auxCount: nat)
    requires p.Valid()
    modifies p.index, p.attrib
    ensures p.Valid() && p.index.next == old(p.index.next) && p.attrib.next == old(p.attrib.next)
    ensures p.attrib.tags == old(p.attrib.tags) && p.index.tags == IndexDefaults(old(p.index.tags), auxCount)
  {
    ghost var i0 := p.index.tags;
    var f := p.GetTag(TAG_MP_FORMAT_VERSION, TYPE_MP_INDEX_IFD);
    if f.None? {
      var _ := p.AddTag(FormatVersionTag(TYPE_MP_INDEX_IFD));
    }
    assert p.index.tags == WithFormatVersion(i0);
    var base := p.GetTag(TAG_NUM_IMAGES, TYPE_MP_INDEX_IFD);
    var numTag := match base
      case Some(u) => u
      case None => NewTag(TAG_NUM_IMAGES, TYPE_UNSIGNED_LONG, TYPE_MP_INDEX_IFD);
    numTag := WithLong(numTag, auxCount + 1);
    assert numTag == NumImagesTag(WithFormatVersion(i0), auxCount + 1);
    var _ := p.AddTag(numTag);
    var entries := PlaceholderEntries(auxCount + 1);
    assert entries == ZeroEntries(auxCount + 1);
    var entryTag := SetEntries(NewTag(TAG_MP_ENTRY, TYPE_UNDEFINED, TYPE_MP_INDEX_IFD), entries);
    assert entryTag == Some(EntryTag(entries));
    var _ := p.AddTag(entryTag.value);
  }

  /** MpoData. */
  class MpoData {
    var primary: ImageData?
    var aux: seq<ImageData>

    /** The primary image, if set, then the auxiliary images. */
    function Images(): (imgs: seq<ImageData>)
      reads this
      ensures |imgs| == |aux| + (if primary == null then 0 else 1)
    {
      (if primary == null then [] else [primary]) + aux
    }

    /** Every object the images' state lives in. */
    function Ifds(): set<object>
      reads this
    {
      IfdsOf(Images())
    }

    ghost predicate Valid()
      reads this, Images(), Ifds()
    {
      SeparateIfds(Images()) && AllValid(Images())
    }

    constructor ()
      ensures Valid() && primary == null && aux == []
    {
      primary := null;
      aux := [];
    }

    /** `getAuxiliaryImageCount`. */
    function AuxiliaryImageCount(): (n: nat)
      reads this
      ensures n == |aux|
    {
      |aux|
    }

    /** `addDefaultAttribIfdTags`: the format version and image number n in the image's attribute IFD. */
    static method AddDefaultAttribIfdTags(image: ImageData, n: int)
      requires image.Valid()
      modifies image.index, image.attrib
      ensures image.Valid() && ShotOf(image) == WithAttribDefaults(old(ShotOf(image)), n)
    {
      var _ := image.AddTag(FormatVersionTag(TYPE_MP_ATTRIB_IFD));
      var _ := image.AddTag(ImageNumberTag(n));
    }

    /**
     * `addDefaultIndexIfdTags`: false (the IllegalArgumentException) with no
     * change when there is no primary image or no auxiliary image; otherwise
     * the default index tags go into the primary image's index IFD.
     */
    method AddDefaultIndexIfdTags() returns (ok: bool)
      requires Valid()
      modifies if primary == null then {} else {primary.index, primary.attrib}
      ensures primary == old(primary) && aux == old(aux) && Valid()
      ensures ok <==> primary != null && |aux| > 0
      ensures primary != null ==> primary.attrib.tags == old(primary.attrib.tags) && primary.attrib.next == old(primary.attrib.next)
      ensures primary != null ==> primary.index.next == old(primary.index.next)
      ensures primary != null ==> primary.index.tags == if ok then IndexDefaults(old(primary.index.tags), |aux|) else old(primary.index.tags)
    {
      if primary == null || |aux| == 0 {
        return false;
      }
      var p := primary;
      assert Images()[0] == p;
      AddIndexDefaults(p, |aux|);
      forall i | 0 < i < |Images()|
        ensures Images()[i].Valid()
      {
        assert Images()[i].index != p.index && Images()[i].attrib != p.index;
        assert Images()[i].index != p.attrib && Images()[i].attrib != p.attrib;
      }
      ok := true;
    }

    /**
     * `setPrimaryMpoImage`: the image becomes the primary one and gets the
     * default attribute tags with image number 1, then the default index
     * tags; false (the IllegalArgumentException of `addDefaultIndexIfdTags`)
     * when there is no auxiliary image yet, after the first two steps.
     */
    method SetPrimaryMpoImage(image: ImageData) returns (ok: bool)
      requires Valid() && image.Valid() && SeparateIfds([image] + aux)
      modifies this, image.index, image.attrib
      ensures Valid() && primary == image && aux == old(aux)
      ensures ok <==> |aux| > 0
      ensures image.attrib.tags == AttribDefaults(old(image.attrib.tags), 1)
      ensures image.index.tags == if ok then IndexDefaults(old(image.index.tags), |aux|) else old(image.index.tags)
      ensures image.index.next == old(image.index.next) && image.attrib.next == old(image.attrib.next)
    {
      assert forall j :: 0 <= j < |aux| ==> (aux[j].Valid() && aux[j].index != image.index && aux[j].index != image.attrib
        && aux[j].attrib != image.index && aux[j].attrib != image.attrib) by {
        ghost var before := Images();
        forall j | 0 <= j < |aux|
          ensures aux[j].Valid()
        {
          assert aux[j] == before[|before| - |aux| + j];
        }
        forall j | 0 <= j < |aux|
          ensures aux[j].index != image.index && aux[j].index != image.attrib
          ensures aux[j].attrib != image.index && aux[j].attrib != image.attrib
        {
          var imgs := [image] + aux;
          assert imgs[0] == image && imgs[j + 1] == aux[j];
          assert imgs[0].index != imgs[j + 1].index;
        }
      }
      primary := image;
      AddDefaultAttribIfdTags(image, 1);
      assert Images() == [image] + aux && Valid() by {
        assert Images() == [image] + aux;
        forall i | 0 <= i < |Images()|
          ensures Images()[i].Valid()
        {
          if i > 0 {
            assert Images()[i] == aux[i - 1];
          }
        }
      }
      ok := AddDefaultIndexIfdTags();
    }

    /**
     * `addAuxiliaryMpoImage`: the image goes to the end of the auxiliary
     * list and gets the default attribute tags, numbered by its position
     * among all the images (the primary one counting when set).
     */
    method AddAuxiliaryMpoImage(image: ImageData)
      requires Valid() && image.Valid() && SeparateIfds(Images() + [image])
      modifies this, image.index, image.attrib
      ensures Valid() && primary == old(primary) && aux == old(aux) + [image]
      ensures ShotOf(image) == WithAttribDefaults(old(ShotOf(image)), |aux| + (if primary == null then 0 else 1))
    {
      ghost var before := Images();
      OutsideIfds(before, image);
      aux := aux + [image];
      assert Images() == before + [image];
      var imageNum := AuxiliaryImageCount() + (if primary == null then 0 else 1);
      AddDefaultAttribIfdTags(image, imageNum);
      AllValidAppend(before, image);
    }

    /**
     * `removeAuxiliaryMpoImage` (`ArrayList.remove`): the first auxiliary
     * image the given one `equals` is taken out of the list; false when
     * there is none.
     */
    method RemoveAuxiliaryMpoImage(image: ImageData) returns (ret: bool)
      requires Valid() && image.Valid()
      modifies this
      ensures Valid() && primary == old(primary)
      ensures !ret ==> aux == old(aux) && forall i :: 0 <= i < |aux| ==> !ImageEquals(image, aux[i])
      ensures ret ==> exists k :: (0 <= k < |old(aux)| && ImageEquals(image, old(aux)[k])
        && (forall i :: 0 <= i < k ==> !ImageEquals(image, old(aux)[i]))
        && aux == old(aux)[..k] + old(aux)[k + 1..])
    {
      var i := 0;
      while i < |aux|
        invariant aux == old(aux) && primary == old(primary)
        invariant 0 <= i <= |aux|
        invariant forall j :: 0 <= j < i ==> !ImageEquals(image, aux[j])
      {
        assert aux[i] == Images()[|Images()| - |aux| + i];
        var e := image.Equals(aux[i]);
        if e {
          DropAux(i);
          return true;
        }
        i := i + 1;
      }
      return false;
    }

    /** The list removal itself: auxiliary image i leaves the list. */
    method DropAux(i: nat)
      requires Valid() && i < |aux|
      modifies this
      ensures Valid() && primary == old(primary) && aux == old(aux)[..i] + old(aux)[i + 1..]
    {
      ghost var imgs := Images();
      ghost var k := |imgs| - |aux| + i;
      aux := aux[..i] + aux[i + 1..];
      SeparateDrop(imgs, k);
      AllValidDrop(imgs, k);
      assert Images() == imgs[..k] + imgs[k + 1..];
    }

    /**
     * `updateAttribIfdTags`: false (the IllegalArgumentException) with no
     * change when there is no primary image or no auxiliary image;
     * otherwise every image's attribute IFD gets a fresh Image Number tag,
     * 0xFFFFFFFF for the primary image and 1, 2, ... for the auxiliary ones.
     */
    method UpdateAttribIfdTags() returns (ok: bool)
      requires Valid()
      modifies Ifds()
      ensures primary == old(primary) && aux == old(aux) && Valid()
      ensures ok <==> primary != null && |aux| > 0
      ensures forall i :: 0 <= i < |Images()| ==> (Images()[i].index.tags == old(Images()[i].index.tags)
        && Images()[i].index.next == old(Images()[i].index.next) && Images()[i].attrib.next == old(Images()[i].attrib.next))
      ensures forall i :: 0 <= i < |Images()| ==>
        (Images()[i].attrib.tags == if ok then PutTag(old(Images()[i].attrib.tags), ImageNumberTag(ImageNumberOf(i))) else old(Images()[i].attrib.tags))
    {
      if primary == null || |aux| == 0 {
        return false;
      }
      var imgs := Images();
      assert imgs[0] == primary;
      NumberImageAt(imgs, 0, PRIMARY_IMAGE_NUMBER);
      NumberAuxImages(imgs);
      ok := true;
    }

    /**
     * `updateAttribIfdTags` as `updateAllTags` uses it: the same change,
     * stated image by image for the primary image and the auxiliary ones.
     */
    method NumberImages() returns (ok: bool)
      requires Valid()
      modifies Ifds()
      ensures primary == old(primary) && aux == old(aux) && Valid()
      ensures ok <==> primary != null && |aux| > 0
      ensures !ok ==> forall j :: 0 <= j < |Images()| ==> ShotOf(Images()[j]) == old(ShotOf(Images()[j]))
      ensures ok ==> ShotOf(primary) == old(ShotOf(primary)).(attrib := PutTag(old(primary.attrib.tags), ImageNumberTag(PRIMARY_IMAGE_NUMBER)))
      ensures ok ==> forall j :: 0 <= j < |aux| ==>
        ShotOf(aux[j]) == old(ShotOf(aux[j])).(attrib := PutTag(old(aux[j].attrib.tags), ImageNumberTag(j + 1)))
    {
      ok := UpdateAttribIfdTags();
      if ok {
        ghost var p := primary;
        assert Images() == [p] + aux && Images()[0] == p;
        forall j | 0 <= j < |aux|
          ensures ShotOf(aux[j]) == old(ShotOf(aux[j])).(attrib := PutTag(old(aux[j].attrib.tags), ImageNumberTag(j + 1)))
        {
          assert Images()[j + 1] == aux[j] && ImageNumberOf(j + 1) == j + 1;
        }
      }
    }

    /**
     * `updateAllTags`: the image numbers first, then the index IFD, so that
     * the sizes in the MP entries count the Image Number tags. False (the
     * IllegalArgumentException of either step) with no change when there is
     * no primary image or no auxiliary image.
     */
    method UpdateAllTags() returns (ok: bool, ghost sizes: seq<int>)
      requires Valid()
      modifies Ifds()
      ensures primary == old(primary) && aux == old(aux) && Valid()
      ensures ok <==> primary != null && |aux| > 0
      ensures !ok ==> forall j :: 0 <= j < |Images()| ==> (Images()[j].index.tags == old(Images()[j].index.tags)
        && Images()[j].attrib.tags == old(Images()[j].attrib.tags)
        && Images()[j].index.next == old(Images()[j].index.next) && Images()[j].attrib.next == old(Images()[j].attrib.next))
      ensures ok ==> |sizes| == |aux| && forall j :: 0 <= j < |aux| ==>
        sizes[j] == ImageSize(old(aux[j].index.tags), PutTag(old(aux[j].attrib.tags), ImageNumberTag(j + 1)), |aux[j].jpeg|)
      ensures ok ==> forall j :: 0 <= j < |aux| ==>
        LaidOut(aux[j], old(ShotOf(aux[j])).(attrib := PutTag(old(aux[j].attrib.tags), ImageNumberTag(j + 1))))
      ensures ok ==> var i1 := IndexWithCount(old(primary.index.tags), |aux|);
        var a1 := PutTag(old(primary.attrib.tags), ImageNumberTag(PRIMARY_IMAGE_NUMBER));
        primary.index.tags == FinalIndex(i1, a1, |primary.jpeg|, sizes)
        && primary.attrib.tags == Laid(a1, AttribStart(i1))
        && primary.index.next == NextAfterLayout(i1, a1, old(primary.index.next))
        && primary.attrib.next == old(primary.attrib.next)
    {
      ok := NumberImages();
      if !ok {
        return false, [];
      }
      ghost var p := primary;
      assert Images() == [p] + aux && Images()[0] == p;
      ok, sizes := UpdateIndexIfdTags();
    }

    /**
     * `updateIndexIfdTags`: false (the IllegalArgumentException) with no
     * change when there is no primary image or no auxiliary image.
     * Otherwise the primary image's Number of Images tag is set to the image
     * count; the primary image is sized twice (the second pass changes
     * nothing) and every auxiliary image once, each laid out on the way;
     * and the MP Entry tag with every image's size and offset goes into the
     * primary image's index IFD.
     */
    method UpdateIndexIfdTags() returns (ok: bool, ghost sizes: seq<int>)
      requires Valid()
      modifies Ifds()
      ensures primary == old(primary) && aux == old(aux) && Valid()
      ensures ok <==> primary != null && |aux| > 0
      ensures !ok ==> forall j :: 0 <= j < |Images()| ==> unchanged(Images()[j].index, Images()[j].attrib)
      ensures ok ==> sizes == old(SizesOf(aux))
      ensures ok ==> forall j :: 0 <= j < |aux| ==> LaidOut(aux[j], old(ShotOf(aux[j])))
      ensures ok ==> var i1 := IndexWithCount(old(primary.index.tags), |aux|);
        primary.index.tags == FinalIndex(i1, old(primary.attrib.tags), |primary.jpeg|, sizes)
        && primary.attrib.tags == Laid(old(primary.attrib.tags), AttribStart(i1))
        && primary.index.next == NextAfterLayout(i1, old(primary.attrib.tags), old(primary.index.next))
        && primary.attrib.next == old(primary.attrib.next)
    {
      if primary == null || |aux| == 0 {
        return false, [];
      }
      var p := primary;
      assert Images() == [p] + aux && ([p] + aux)[1..] == aux;
      SplitFirst([p] + aux);
      ghost var shots := ShotsOf(aux);
      sizes := UpdateIndex(p, aux);
      SplitFirst([p] + aux);
      forall j | 0 <= j < |aux| ensures LaidOut(aux[j], old(ShotOf(aux[j]))) {
        assert shots[j] == old(ShotOf(aux[j]));
      }
      ok := true;
    }
  }

  /**
   * `updateIndexIfdTags` once its checks have passed, on primary image p
   * and the auxiliary images, which share no IFD with p.
   */
  method UpdateIndex(p: ImageData, aux: seq<ImageData>) returns (ghost sizes: seq<int>)
    requires p.Valid() && SeparateIfds(aux) && AllValid(aux)
    requires p.index !in IfdsOf(aux) && p.attrib !in IfdsOf(aux)
    modifies p.index, p.attrib, IfdsOf(aux)
    ensures p.Valid() && AllValid(aux)
    ensures sizes == old(SizesOf(aux))
    ensures AllLaidOut(aux, old(ShotsOf(aux)))
    ensures var i1 := IndexWithCount(old(p.index.tags), |aux|);
      p.index.tags == FinalIndex(i1, old(p.attrib.tags), |p.jpeg|, sizes)
      && p.attrib.tags == Laid(old(p.attrib.tags), AttribStart(i1))
      && p.index.next == NextAfterLayout(i1, old(p.attrib.tags), old(p.index.next))
      && p.attrib.next == old(p.attrib.next)
  {
    ghost var shots, sizes0 := ShotsOf(aux), SizesOf(aux);
    var primarySize := IndexPrimary(p, |aux|);
    assert ShotsOf(aux) == shots && SizesOf(aux) == sizes0 && AllValid(aux);
    ghost var primaryShot := ShotOf(p);
    var entries;
    entries, sizes := AuxEntriesLoop(aux, primarySize);
    assert ShotOf(p) == primaryShot && p.Valid();
    var entryTag := SetEntries(NewTag(TAG_MP_ENTRY, TYPE_UNDEFINED, TYPE_MP_INDEX_IFD), entries);
    assert entryTag == Some(EntryTag(entries));
    assert AllLaidOut(aux, shots);
    label laidOut:
    AddPrimaryTag(p, aux, entryTag.value);
    assert AllLaidOut(aux, shots) by {
      forall j | 0 <= j < |aux| ensures LaidOut(aux[j], shots[j]) {
        assert ShotOf(aux[j]) == old@laidOut(ShotOf(aux[j]));
      }
    }
  }

  /**
   * `addTag` on the primary image p, which shares no IFD with the
   * auxiliary images; those do not change.
   */
  method AddPrimaryTag(p: ImageData, aux: seq<ImageData>, t: Tag)
    requires p.Valid() && AllValid(aux) && t.ifd == TYPE_MP_INDEX_IFD
    requires p.index !in IfdsOf(aux) && p.attrib !in IfdsOf(aux)
    modifies p.index, p.attrib
    ensures p.Valid() && AllValid(aux)
    ensures forall j :: 0 <= j < |aux| ==> unchanged(aux[j].index, aux[j].attrib)
    ensures p.index.tags == PutTag(old(p.index.tags), t) && p.attrib.tags == old(p.attrib.tags)
    ensures p.index.next == old(p.index.next) && p.attrib.next == old(p.attrib.next)
  {
    var _ := p.AddTag(t);
    forall j | 0 <= j < |aux|
      ensures aux[j].Valid() && unchanged(aux[j].index, aux[j].attrib)
    {
      assert aux[j].index != p.index && aux[j].index != p.attrib;
      assert aux[j].attrib != p.index && aux[j].attrib != p.attrib;
    }
  }

  /**
   * The first image of a separate, well-formed list shares no IFD with the
   * rest, and the rest is separate and well formed.
   */
  lemma SplitFirst(imgs: seq<ImageData>)
    requires |imgs| > 0 && SeparateIfds(imgs)
    ensures SeparateIfds(imgs[1..])
    ensures imgs[0].index !in IfdsOf(imgs[1..]) && imgs[0].attrib !in IfdsOf(imgs[1..])
    ensures AllValid(imgs) <==> imgs[0].Valid() && AllValid(imgs[1..])
  {
    var rest := imgs[1..];
    forall j | 0 <= j < |rest| ensures rest[j] == imgs[j + 1] {
    }
  }

  /**
   * The primary image's part of `updateIndexIfdTags`: its Number of Images
   * tag is set to `auxCount + 1` (a new tag when it has none), then it is
   * sized twice; the second pass finds the layout the first left and gives
   * the same size.
   */
  method IndexPrimary(p: ImageData, auxCount: nat) returns (size: int)
    requires p.Valid()
    modifies p.index, p.attrib
    ensures p.Valid()
    ensures var i1 := IndexWithCount(old(p.index.tags), auxCount);
      size == ImageSize(i1, old(p.attrib.tags), |p.jpeg|)
      && LaidOut(p, Shot(i1, old(p.attrib.tags), old(p.index.next), old(p.attrib.next)))
  {
    ghost var i0, a0 := p.index.tags, p.attrib.tags;
    var base := p.GetTag(TAG_NUM_IMAGES, TYPE_MP_INDEX_IFD);
    var numTag := match base
      case Some(u) => u
      case None => NewTag(TAG_NUM_IMAGES, TYPE_UNSIGNED_LONG, TYPE_MP_INDEX_IFD);
    numTag := WithLong(numTag, auxCount + 1);
    assert numTag == NumImagesTag(i0, auxCount + 1);
    var _ := p.AddTag(numTag);
    ghost var i1, n1 := p.index.tags, p.index.next;
    assert i1 == IndexWithCount(i0, auxCount);
    size := p.CalculateImageSize();
    var again := p.CalculateImageSize();
    OffsetsStable(i1, a0);
    assert again == size;
  }

  /**
   * `calculateImageSize` on image k of a list: that image's IFDs are laid
   * out and its size returned; the other images do not change.
   */
  method SizeImageAt(imgs: seq<ImageData>, k: nat) returns (size: int)
    requires k < |imgs| && SeparateIfds(imgs) && AllValid(imgs)
    modifies imgs[k].index, imgs[k].attrib
    ensures AllValid(imgs)
    ensures size == ImageSize(old(imgs[k].index.tags), old(imgs[k].attrib.tags), |imgs[k].jpeg|)
    ensures LaidOut(imgs[k], old(ShotOf(imgs[k])))
    ensures forall j :: 0 <= j < |imgs| && j != k ==> unchanged(imgs[j].index, imgs[j].attrib)
  {
    var image := imgs[k];
    assert AllValid(imgs) ==> image.Valid();
    size := image.CalculateImageSize();
    forall j | 0 <= j < |imgs| && j != k
      ensures imgs[j].Valid() && unchanged(imgs[j].index, imgs[j].attrib)
    {
      assert imgs[j].index != image.index && imgs[j].index != image.attrib;
      assert imgs[j].attrib != image.index && imgs[j].attrib != image.attrib;
    }
  }

  /** `addTag` on the index IFD of image k of a list; the other images do not change. */
  method AddIndexTagAt(imgs: seq<ImageData>, k: nat, t: Tag)
    requires k < |imgs| && SeparateIfds(imgs) && AllValid(imgs) && t.ifd == TYPE_MP_INDEX_IFD
    modifies imgs[k].index, imgs[k].attrib
    ensures AllValid(imgs)
    ensures imgs[k].index.tags == PutTag(old(imgs[k].index.tags), t)
    ensures imgs[k].attrib.tags == old(imgs[k].attrib.tags)
    ensures imgs[k].index.next == old(imgs[k].index.next) && imgs[k].attrib.next == old(imgs[k].attrib.next)
    ensures forall j :: 0 <= j < |imgs| && j != k ==> unchanged(imgs[j].index, imgs[j].attrib)
  {
    var image := imgs[k];
    assert AllValid(imgs) ==> image.Valid();
    var _ := image.AddTag(t);
    forall j | 0 <= j < |imgs| && j != k
      ensures imgs[j].Valid() && unchanged(imgs[j].index, imgs[j].attrib)
    {
      assert imgs[j].index != image.index && imgs[j].index != image.attrib;
      assert imgs[j].attrib != image.index && imgs[j].attrib != image.attrib;
    }
  }

  /**
   * The body of that loop once the image is sized: its entry is appended and
   * the offset moves on by its size.
   */
  method AppendAuxEntry(primarySize: int, ghost sizes: seq<int>, i: nat, entries: seq<MpEntry>, imgOffset: int, imageSize: int)
    returns (entries': seq<MpEntry>, imgOffset': int)
    requires i < |sizes| && entries == MpEntries(primarySize, sizes)[..i + 1] && imageSize == sizes[i]
    requires imgOffset == RunningOffset(primarySize, sizes, i)
    ensures entries' == MpEntries(primarySize, sizes)[..i + 2]
    ensures imgOffset' == RunningOffset(primarySize, sizes, i + 1)
  {
    RunningOffsetSum(primarySize, sizes, i);
    EntryStep(primarySize, sizes, i, entries, imgOffset);
    RunningOffsetSum(primarySize, sizes, i + 1);
    entries' := entries + [MpEntry(AUX_ATTRIB, Int32(imageSize), imgOffset, 0, 0)];
    imgOffset' := Int32(imgOffset + Int32(imageSize));
  }

  /**
   * Images i onwards still hold their snapshots from before, and every image
   * before i is laid out from its snapshot.
   */
  ghost predicate LaidOutBelow(imgs: seq<ImageData>, before: seq<Shot>, i: nat)
    reads IfdsOf(imgs)
  {
    |before| == |imgs| && i <= |imgs|
    && (forall j :: i <= j < |imgs| ==> ShotOf(imgs[j]) == before[j])
    && (forall j :: 0 <= j < i ==> LaidOut(imgs[j], before[j]))
  }

  /** The sizes `calculateImageSize` gives for images whose IFDs are as in the snapshots. */
  ghost predicate SizesOfShots(imgs: seq<ImageData>, before: seq<Shot>, sizes: seq<int>) {
    |sizes| == |imgs| == |before|
    && forall j :: 0 <= j < |imgs| ==> sizes[j] == ImageSize(before[j].index, before[j].attrib, |imgs[j].jpeg|)
  }

  /**
   * One turn of the loop of `updateIndexIfdTags`: auxiliary image i is
   * sized (and so laid out), its entry appended, the offset moved on.
   */
  method AuxEntryStep(auxImgs: seq<ImageData>, ghost before: seq<Shot>, ghost sizes: seq<int>, primarySize: int,
                      i: nat, entries: seq<MpEntry>, imgOffset: int)
    returns (entries': seq<MpEntry>, imgOffset': int)
    requires i < |auxImgs| && SeparateIfds(auxImgs) && AllValid(auxImgs)
    requires LaidOutBelow(auxImgs, before, i) && SizesOfShots(auxImgs, before, sizes)
    requires entries == MpEntries(primarySize, sizes)[..i + 1] && imgOffset == RunningOffset(primarySize, sizes, i)
    modifies auxImgs[i].index, auxImgs[i].attrib
    ensures AllValid(auxImgs) && LaidOutBelow(auxImgs, before, i + 1)
    ensures entries' == MpEntries(primarySize, sizes)[..i + 2] && imgOffset' == RunningOffset(primarySize, sizes, i + 1)
  {
    assert ShotOf(auxImgs[i]) == before[i];
    var imageSize := SizeImageAt(auxImgs, i);
    entries', imgOffset' := AppendAuxEntry(primarySize, sizes, i, entries, imgOffset, imageSize);
  }

  /**
   * The loop of `updateIndexIfdTags` over the auxiliary images: each is
   * sized (and so laid out), and its entry, with the offset running on from
   * the primary image's size, appended to the primary image's entry.
   */
  method AuxEntriesLoop(auxImgs: seq<ImageData>, primarySize: int) returns (entries: seq<MpEntry>, ghost sizes: seq<int>)
    requires SeparateIfds(auxImgs) && AllValid(auxImgs)
    modifies IfdsOf(auxImgs)
    ensures AllValid(auxImgs)
    ensures sizes == old(SizesOf(auxImgs)) && entries == MpEntries(primarySize, sizes)
    ensures AllLaidOut(auxImgs, old(ShotsOf(auxImgs)))
  {
    sizes := SizesOf(auxImgs);
    ghost var before := ShotsOf(auxImgs);
    assert SizesOfShots(auxImgs, before, sizes) && LaidOutBelow(auxImgs, before, 0);
    ghost var full := MpEntries(primarySize, sizes);
    entries := [MpEntry(Int32(PRIMARY_ATTRIB), Int32(primarySize), 0, 0, 0)];
    assert entries == full[..1];
    var imgOffset := Int32(primarySize);
    for i := 0 to |auxImgs|
      invariant AllValid(auxImgs) && LaidOutBelow(auxImgs, before, i)
      invariant entries == full[..i + 1] && imgOffset == RunningOffset(primarySize, sizes, i)
    {
      entries, imgOffset := AuxEntryStep(auxImgs, before, sizes, primarySize, i, entries, imgOffset);
    }
    assert full[..|auxImgs| + 1] == full;
    assert AllLaidOut(auxImgs, before) by {
      assert LaidOutBelow(auxImgs, before, |auxImgs|);
    }
  }

  /**
   * The loop of `updateAttribIfdTags` over the auxiliary images, which
   * follow the primary image in the list: image j gets image number j.
   */
  method NumberAuxImages(imgs: seq<ImageData>)
    requires |imgs| > 0 && SeparateIfds(imgs) && AllValid(imgs)
    modifies IfdsOf(imgs)
    ensures AllValid(imgs)
    ensures forall j :: 0 <= j < |imgs| ==> (imgs[j].index.tags == old(imgs[j].index.tags)
      && imgs[j].index.next == old(imgs[j].index.next) && imgs[j].attrib.next == old(imgs[j].attrib.next))
    ensures imgs[0].attrib.tags == old(imgs[0].attrib.tags)
    ensures forall j :: 0 < j < |imgs| ==> imgs[j].attrib.tags == PutTag(old(imgs[j].attrib.tags), ImageNumberTag(j))
  {
    for i := 1 to |imgs|
      invariant AllValid(imgs)
      invariant forall j :: 0 <= j < |imgs| ==> (imgs[j].index.tags == old(imgs[j].index.tags)
        && imgs[j].index.next == old(imgs[j].index.next) && imgs[j].attrib.next == old(imgs[j].attrib.next))
      invariant forall j :: 0 <= j < |imgs| ==>
        (imgs[j].attrib.tags == if 0 < j < i then PutTag(old(imgs[j].attrib.tags), ImageNumberTag(j)) else old(imgs[j].attrib.tags))
    {
      NumberImageAt(imgs, i, i);
    }
  }

  /**
   * The loop body of `updateAttribIfdTags` on image k of a list: an Image
   * Number tag of value n goes into its attribute IFD; the other images do
   * not change.
   */
  method NumberImageAt(imgs: seq<ImageData>, k: nat, n: int)
    requires k < |imgs| && SeparateIfds(imgs) && AllValid(imgs)
    modifies imgs[k].index, imgs[k].attrib
    ensures AllValid(imgs)
    ensures imgs[k].attrib.tags == PutTag(old(imgs[k].attrib.tags), ImageNumberTag(n))
    ensures imgs[k].index.tags == old(imgs[k].index.tags)
    ensures imgs[k].index.next == old(imgs[k].index.next) && imgs[k].attrib.next == old(imgs[k].attrib.next)
    ensures forall j :: 0 <= j < |imgs| && j != k ==> unchanged(imgs[j].index, imgs[j].attrib)
  {
    var image := imgs[k];
    var _ := image.AddTag(ImageNumberTag(n));
    forall j | 0 <= j < |imgs| && j != k
      ensures imgs[j].Valid() && unchanged(imgs[j].index, imgs[j].attrib)
    {
      assert imgs[j].index != image.index && imgs[j].index != image.attrib;
      assert imgs[j].attrib != image.index && imgs[j].attrib != image.attrib;
    }
  }
}
