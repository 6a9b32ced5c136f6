// The post-processor's bookkeeping (src/com/android/camera/imageprocessor/PostProcessor.java):
// the list of zero-shutter-lag items that fell off the queue, the choice of
// filter and when enough images have arrived for it, and the scaling of the
// region of interest after a software resize.
module PostProcessor {
  import opened Bytes
  import ZslQueue

  const FILTER_NONE: int := 0
  const FILTER_MAX: int := 8
  /** BestPicture needs 10 images, the most of any filter; one more is kept. */
  const MAX_REQUIRED_IMAGE_NUM: int := 11
  /** The fall-off list never holds more than this many items. */
  const MAX_FALL_OFF: int := MAX_REQUIRED_IMAGE_NUM - 2

  type Image = ZslQueue.Image

  /** An item of the fall-off list: its image and, for RAW capture, its raw image. */
  datatype FallOffItem = FallOffItem(image: Image, raw: Option<Image>)

  /** A chosen filter: its index and `getNumRequiredImage`. */
  datatype Filter = Filter(index: int, numRequired: int)

  datatype Status = Deinit | Init | Busy

  /** The images closed when an item is dropped: its image, then its raw image if any. */
  function ItemImages(item: FallOffItem): (r: seq<Image>)
    ensures |r| >= 1 && r[0] == item.image
  {
    [item.image] + ZslQueue.Closing(item.raw)
  }

  /** The images of every item, in list order. */
  function AllImages(items: seq<FallOffItem>): (r: seq<Image>)
    ensures |r| >= |items|
  {
    if items == [] then [] else AllImages(items[..|items| - 1]) + ItemImages(items[|items| - 1])
  }

  lemma AllImagesStep(items: seq<FallOffItem>, i: int)
    requires 0 <= i < |items|
    ensures AllImages(items[..i + 1]) == AllImages(items[..i]) + ItemImages(items[i])
  {
    assert items[..i + 1][..i] == items[..i];
  }

  /**
   * The images `addFallOffImage` closes on eviction, as written: the evicted
   * (first) item's image, but the raw image of the item just added.
   */
  function SourceEvictionCloses(items: seq<FallOffItem>, added: FallOffItem): seq<Image>
    requires items != []
  {
    [items[0].image] + ZslQueue.Closing(added.raw)
  }

  /** The evident intent: both images of the evicted item. */
  function EvictionCloses(items: seq<FallOffItem>): (r: seq<Image>)
    requires items != []
    ensures r == ItemImages(items[0])
  {
    [items[0].image] + ZslQueue.Closing(items[0].raw)
  }

  /**
   * As written, the item just added, which stays in the list, has its raw
   * image closed, while the evicted item's raw image is never closed.
   */
  lemma SourceClosesKeptRaw(a: Image, b: Image, ra: Image, rb: Image)
    requires ra != rb && ra != a
    ensures var first, added := FallOffItem(a, Some(ra)), FallOffItem(b, Some(rb));
      var items := [first] + seq(9, _ => added);
      && rb in SourceEvictionCloses(items, added) && added in items[1..]
      && ra !in SourceEvictionCloses(items, added)
  {
    var first, added := FallOffItem(a, Some(ra)), FallOffItem(b, Some(rb));
    var items := [first] + seq(9, _ => added);
    assert items[1] == added;
    assert SourceEvictionCloses(items, added) == [a, rb];
  }

  /** Every image the corrected eviction closes belongs to the evicted item, and none to an item that stays. */
  lemma EvictionClosesEvicted(items: seq<FallOffItem>)
    requires items != []
    ensures forall im :: im in EvictionCloses(items) ==> im == items[0].image || items[0].raw == Some(im)
  {
  }

  /** The state of a `PostProcessor` that the modelled operations read and write. */
  class Processor {
    var fallOff: seq<FallOffItem>
    /** The images `close()` was called on, in order. */
    var closed: seq<Image>
    var filter: Option<Filter>
    var filterIndex: int
    var status: Status
    var currentNumImage: int
    /** The length of `mImages`. */
    var imagesLength: int

    predicate Valid()
      reads this
    {
      |fallOff| <= MAX_FALL_OFF
    }

    constructor ()
      ensures Valid() && fallOff == [] && closed == [] && filter == None && filterIndex == FILTER_NONE
      ensures status == Deinit && currentNumImage == 0 && imagesLength == 0
    {
      fallOff, closed, filter, filterIndex := [], [], None, FILTER_NONE;
      status, currentNumImage, imagesLength := Deinit, 0, 0;
    }

    /** `clearFallOffImage`: every item's image and raw image is closed, in list order, and the list is emptied. */
    method ClearFallOffImage()
      modifies this
      ensures Valid() && fallOff == [] && closed == old(closed) + AllImages(old(fallOff))
      ensures filter == old(filter) && filterIndex == old(filterIndex) && status == old(status)
      ensures currentNumImage == old(currentNumImage) && imagesLength == old(imagesLength)
    {
      var c := closed;
      var items := fallOff;
      for i := 0 to |items|
        modifies {}
        invariant c == old(closed) + AllImages(items[..i])
      {
        AllImagesStep(items, i);
        c := c + ItemImages(items[i]);
      }
      assert items[..|items|] == items;
      closed := c;
      fallOff := [];
    }

    /** `findFallOffImage`: the first item whose image has the timestamp, taken out of the list, or None with the list unchanged. */
    method FindFallOffImage(timestamp: int) returns (r: Option<FallOffItem>)
      requires Valid()
      modifies this
      ensures Valid() && closed == old(closed) && filter == old(filter) && filterIndex == old(filterIndex)
      ensures status == old(status) && currentNumImage == old(currentNumImage) && imagesLength == old(imagesLength)
      ensures r.None? ==>
        (fallOff == old(fallOff) && forall k :: 0 <= k < |fallOff| ==> fallOff[k].image.timestamp != timestamp)
      ensures r.Some? ==> exists i :: 0 <= i < |old(fallOff)| && FirstWithTimestamp(old(fallOff), timestamp, i) && Removed(old(fallOff), i, r.value, fallOff)
    {
      var i := 0;
      while i < |fallOff|
        invariant 0 <= i <= |fallOff|
        invariant forall k :: 0 <= k < i ==> fallOff[k].image.timestamp != timestamp
      {
        if fallOff[i].image.timestamp == timestamp {
          r := Some(fallOff[i]);
          assert FirstWithTimestamp(fallOff, timestamp, i);
          fallOff := fallOff[..i] + fallOff[i + 1..];
          return;
        }
        i := i + 1;
      }
      r := None;
    }

    /**
     * `addFallOffImage`: the item goes to the end; when that makes ten, the
     * first item is closed and removed (closing its own raw image, as
     * intended, rather than the added item's).
     */
    method AddFallOffImage(item: FallOffItem)
      requires Valid()
      modifies this
      ensures Valid() && filter == old(filter) && filterIndex == old(filterIndex) && status == old(status)
      ensures currentNumImage == old(currentNumImage) && imagesLength == old(imagesLength)
      ensures |old(fallOff)| + 1 < MAX_REQUIRED_IMAGE_NUM - 1 ==>
        fallOff == old(fallOff) + [item] && closed == old(closed)
      ensures |old(fallOff)| + 1 >= MAX_REQUIRED_IMAGE_NUM - 1 ==>
        fallOff == (old(fallOff) + [item])[1..] && closed == old(closed) + EvictionCloses(old(fallOff) + [item])
      ensures fallOff[|fallOff| - 1] == item
    {
      fallOff := fallOff + [item];
      if |fallOff| >= MAX_REQUIRED_IMAGE_NUM - 1 {
        closed := closed + EvictionCloses(fallOff);
        fallOff := fallOff[1..];
      }
    }

    /**
     * `setFilter`: an index outside [0, FILTER_MAX) is refused with nothing
     * changed. Otherwise the status returns to DEINIT and the filter is
     * replaced (none for FILTER_NONE or an unsupported filter, and then the
     * call returns false); a chosen filter sizes the image array.
     */
    method SetFilter(index: int, supported: bool, numRequired: int) returns (ok: bool)
      modifies this
      ensures fallOff == old(fallOff) && closed == old(closed) && currentNumImage == old(currentNumImage)
      ensures !(0 <= index < FILTER_MAX) ==>
        !ok && filter == old(filter) && filterIndex == old(filterIndex) && status == old(status)
        && imagesLength == old(imagesLength)
      ensures 0 <= index < FILTER_MAX ==> status == Deinit
      ensures 0 <= index < FILTER_MAX && (index == FILTER_NONE || !supported) ==>
        !ok && filter == None && filterIndex == FILTER_NONE && imagesLength == old(imagesLength)
      ensures 0 <= index < FILTER_MAX && index != FILTER_NONE && supported ==>
        ok && filter == Some(Filter(index, numRequired)) && filterIndex == index && imagesLength == numRequired
      ensures ok <==> filter.Some? && 0 <= index < FILTER_MAX
    {
      if index < 0 || index >= FILTER_MAX {
        return false;
      }
      status := Deinit;
      if index == FILTER_NONE {
        filter := None;
      } else {
        filter := Some(Filter(index, numRequired));
      }
      if filter.Some? && !supported {
        filter := None;
      }
      if filter.None? {
        filterIndex := FILTER_NONE;
        return false;
      }
      filterIndex := index;
      imagesLength := filter.value.numRequired;
      return true;
    }

    /** `isReadyToProcess`: no filter, or at least as many images as the filter needs. */
    method IsReadyToProcess() returns (ready: bool)
      ensures ready <==> filter.None? || currentNumImage >= filter.value.numRequired
    {
      if filter.None? {
        return true;
      }
      if currentNumImage >= filter.value.numRequired {
        return true;
      }
      return false;
    }
  }

  /** Item i is the first whose image has the timestamp. */
  predicate FirstWithTimestamp(items: seq<FallOffItem>, timestamp: int, i: int)
    requires 0 <= i < |items|
  {
    items[i].image.timestamp == timestamp && forall k :: 0 <= k < i ==> items[k].image.timestamp != timestamp
  }

  /** after is before with item i, which is item, taken out. */
  predicate Removed(before: seq<FallOffItem>, i: int, item: FallOffItem, after: seq<FallOffItem>)
    requires 0 <= i < |before|
  {
    before[i] == item && after == before[..i] + before[i + 1..]
  }

  datatype Rect = Rect(left: int, top: int, right: int, bottom: int) {
    function Width(): int { right - left }
    function Height(): int { bottom - top }
  }

  /**
   * The region of interest after `resizeImage`, as written: each edge divided
   * by the ratio (Java division), then the right edge set to the new width
   * when the region is wider than the image, and the bottom likewise. A ratio
   * of 0 is the ArithmeticException (None).
   */
  function SourceResizeRoi(roi: Rect, ratio: int, newWidth: int, newHeight: int): (r: Option<Rect>)
    ensures r.None? <==> ratio == 0
    ensures r.Some? ==> r.value.left == JavaDiv(roi.left, ratio) && r.value.top == JavaDiv(roi.top, ratio)
  {
    if ratio == 0 then None
    else
      var q := Rect(JavaDiv(roi.left, ratio), JavaDiv(roi.top, ratio),
                    JavaDiv(roi.right, ratio), JavaDiv(roi.bottom, ratio));
      var q1 := if newWidth < q.Width() then q.(right := newWidth) else q;
      Some(if newHeight < q1.Height() then q1.(bottom := newHeight) else q1)
  }

  /** A region that starts inside the image can still end past it, since only the region's width is compared. */
  lemma SourceRoiPastEdge()
    ensures SourceResizeRoi(Rect(100, 0, 300, 100), 2, 120, 100) == Some(Rect(50, 0, 150, 50))
  {
  }

  /** The evident intent: the scaled region's right and bottom edges are clamped to the new image. */
  function ResizeRoi(roi: Rect, ratio: int, newWidth: int, newHeight: int): (r: Option<Rect>)
    ensures r.None? <==> ratio == 0
    ensures r.Some? ==> r.value.left == JavaDiv(roi.left, ratio) && r.value.top == JavaDiv(roi.top, ratio)
    ensures r.Some? ==> r.value.right <= newWidth && r.value.bottom <= newHeight
    ensures r.Some? && JavaDiv(roi.right, ratio) <= newWidth ==> r.value.right == JavaDiv(roi.right, ratio)
    ensures r.Some? && JavaDiv(roi.bottom, ratio) <= newHeight ==> r.value.bottom == JavaDiv(roi.bottom, ratio)
  {
    if ratio == 0 then None
    else
      var q := Rect(JavaDiv(roi.left, ratio), JavaDiv(roi.top, ratio),
                    JavaDiv(roi.right, ratio), JavaDiv(roi.bottom, ratio));
      var q1 := if newWidth < q.right then q.(right := newWidth) else q;
      Some(if newHeight < q1.bottom then q1.(bottom := newHeight) else q1)
  }

  /** For a region anchored at the origin the two versions agree. */
  lemma ResizeRoiAgreesAtOrigin(roi: Rect, ratio: int, newWidth: int, newHeight: int)
    requires roi.left == 0 && roi.top == 0
    ensures SourceResizeRoi(roi, ratio, newWidth, newHeight) == ResizeRoi(roi, ratio, newWidth, newHeight)
  {
    if ratio != 0 {
      assert JavaDiv(0, ratio) == 0;
    }
  }
}
