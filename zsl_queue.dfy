// The zero-shutter-lag queue (src/com/android/camera/imageprocessor/ZSLQueue.java):
// a circular buffer of slots, each holding an image and the capture metadata
// with the same sensor timestamp, filled from two heads that advance
// independently, and the list of picture requests waiting for a matching item.
module ZslQueue {
  import opened Bytes

  /** The capture-result constants `checkImageRequirement` tests. */
  const LENS_STATE_MOVING: int := 1
  const CONTROL_AE_STATE_SEARCHING: int := 1
  const CONTROL_AE_STATE_FLASH_REQUIRED: int := 4
  const CONTROL_AE_STATE_PRECAPTURE: int := 5
  const CONTROL_AF_STATE_PASSIVE_SCAN: int := 1
  const CONTROL_AF_STATE_ACTIVE_SCAN: int := 3
  const FLASH_MODE_OFF: int := 0
  const CONTROL_AWB_STATE_SEARCHING: int := 1

  /** A pending request is dropped once it has lived this many frames. */
  const REQUEST_LIFESPAN: nat := 5

  /** A camera image: an identity (to tell which one is closed) and its timestamp. */
  datatype Image = Image(id: int, timestamp: int)

  /** The parts of a `TotalCaptureResult` the queue reads; an absent key is None. */
  datatype Metadata = Metadata(timestamp: int, lensState: Option<int>, aeState: Option<int>,
                               afState: Option<int>, awbState: Option<int>)

  /** `ImageItem`: an image and its metadata, either possibly missing. */
  datatype ImageItem = ImageItem(image: Option<Image>, metadata: Option<Metadata>) {
    /** `isValid`: both parts are present. */
    predicate IsValid() {
      image.Some? && metadata.Some?
    }
  }

  /** A buffer slot; None is a null entry. */
  type Slot = Option<ImageItem>

  function ImageOf(s: Slot): Option<Image> {
    if s.Some? then s.value.image else None
  }

  function MetaOf(s: Slot): Option<Metadata> {
    if s.Some? then s.value.metadata else None
  }

  /** The images `close()` is called on when an optional image is replaced. */
  function Closing(o: Option<Image>): seq<Image> {
    if o.Some? then [o.value] else []
  }

  predicate MetaAt(s: Slot, timestamp: int) {
    MetaOf(s).Some? && MetaOf(s).value.timestamp == timestamp
  }

  predicate ImageAt(s: Slot, timestamp: int) {
    ImageOf(s).Some? && ImageOf(s).value.timestamp == timestamp
  }

  /** The lens is moving, or auto-exposure or auto-focus is still scanning. */
  predicate Unsettled(m: Metadata) {
    || m.lensState == Some(LENS_STATE_MOVING)
    || m.aeState == Some(CONTROL_AE_STATE_SEARCHING)
    || m.aeState == Some(CONTROL_AE_STATE_PRECAPTURE)
    || m.afState == Some(CONTROL_AF_STATE_ACTIVE_SCAN)
    || m.afState == Some(CONTROL_AF_STATE_PASSIVE_SCAN)
  }

  /**
   * `checkImageRequirement`: an unsettled frame is refused; a frame waiting
   * for flash with any auto-focus state but 0 is taken; otherwise a frame is
   * taken unless auto-white-balance is searching.
   */
  function CheckImageRequirement(m: Metadata): (ok: bool)
    ensures Unsettled(m) ==> !ok
    ensures !Unsettled(m) && m.awbState != Some(CONTROL_AWB_STATE_SEARCHING) ==> ok
    ensures m.awbState == Some(CONTROL_AWB_STATE_SEARCHING) && m.aeState != Some(CONTROL_AE_STATE_FLASH_REQUIRED) ==> !ok
  {
    if (m.lensState.Some? && m.lensState.value == LENS_STATE_MOVING)
       || (m.aeState.Some? && (m.aeState.value == CONTROL_AE_STATE_SEARCHING
                               || m.aeState.value == CONTROL_AE_STATE_PRECAPTURE))
       || (m.afState.Some? && (m.afState.value == CONTROL_AF_STATE_ACTIVE_SCAN
                               || m.afState.value == CONTROL_AF_STATE_PASSIVE_SCAN))
    then false
    else if m.aeState.Some? && m.afState.Some?
            && m.aeState.value == CONTROL_AE_STATE_FLASH_REQUIRED && m.afState.value != FLASH_MODE_OFF
    then true
    else if m.awbState.Some? && m.awbState.value == CONTROL_AWB_STATE_SEARCHING then false
    else true
  }

  /** A slot a picture request can take: a valid item whose metadata meets the requirement. */
  predicate Eligible(s: Slot) {
    s.Some? && s.value.IsValid() && CheckImageRequirement(s.value.metadata.value)
  }

  /** `Next(h, n)`: the next slot, wrapping to 0. */
  function Next(h: int, n: int): (r: int)
    requires 0 <= h < n
    ensures r == if h + 1 == n then 0 else h + 1
  {
    (h + 1) % n
  }

  /** The slot e steps forward from start, for e in [0, n]. */
  function Fwd(start: int, e: int, n: int): (r: int)
    ensures 0 <= start < n && 0 <= e <= n ==> 0 <= r < n
  {
    if start + e < n then start + e else start + e - n
  }

  /** How many steps forward from start reach slot i. */
  function FwdDist(start: int, i: int, n: int): (d: int)
    ensures 0 <= start < n && 0 <= i < n ==> 0 <= d < n
  {
    if i >= start then i - start else i - start + n
  }

  /** The slot e steps back from start, for e in [0, n]. */
  function Bwd(start: int, e: int, n: int): (r: int)
    ensures 0 <= start < n && 0 <= e <= n ==> 0 <= r < n
  {
    if start - e >= 0 then start - e else start - e + n
  }

  /** How many steps back from start reach slot i. */
  function BwdDist(start: int, i: int, n: int): (d: int)
    ensures 0 <= start < n && 0 <= i < n ==> 0 <= d < n
  {
    if i <= start then start - i else start - i + n
  }

  /**
   * The `for`-each over the pending requests after the first one is served,
   * as written: it removes the first expired request from the list it is
   * iterating. Unless that request is one of the last two, the iterator's
   * next step throws ConcurrentModificationException (None); otherwise the
   * loop ends there, and later expired requests stay.
   */
  function SourcePrune(lifetimes: seq<nat>): (r: Option<seq<nat>>)
    ensures r.Some? ==> |r.value| >= |lifetimes| - 1
  {
    if forall j :: 0 <= j < |lifetimes| ==> lifetimes[j] < REQUEST_LIFESPAN then Some(lifetimes)
    else
      var j := FirstExpired(lifetimes);
      if j < |lifetimes| - 2 then None else Some(lifetimes[..j] + lifetimes[j + 1..])
  }

  /** The index of the first expired request. */
  function FirstExpired(lifetimes: seq<nat>): (j: nat)
    requires exists j :: 0 <= j < |lifetimes| && lifetimes[j] >= REQUEST_LIFESPAN
    ensures j < |lifetimes| && lifetimes[j] >= REQUEST_LIFESPAN
    ensures forall k :: 0 <= k < j ==> lifetimes[k] < REQUEST_LIFESPAN
  {
    if lifetimes[0] >= REQUEST_LIFESPAN then 0 else 1 + FirstExpired(lifetimes[1..])
  }

  /** Three requests left, the oldest expired: the source's loop throws. */
  lemma SourcePruneThrows()
    ensures SourcePrune([6, 0, 0]) == None
  {
    assert [6, 0, 0][0] >= REQUEST_LIFESPAN;
    assert FirstExpired([6, 0, 0]) == 0;
  }

  /** Two expired requests left: the source's loop removes only the first. */
  lemma SourcePruneKeepsExpired()
    ensures SourcePrune([6, 6]) == Some([6])
  {
    var p: seq<nat> := [6, 6];
    assert p[0] >= REQUEST_LIFESPAN;
    assert FirstExpired(p) == 0;
    assert p[..0] + p[1..] == [6];
  }

  /** The evident intent of that loop: drop every expired request and keep the others in order. */
  function Prune(lifetimes: seq<nat>): (r: seq<nat>)
    ensures forall k :: 0 <= k < |r| ==> r[k] < REQUEST_LIFESPAN
    ensures multiset(r) <= multiset(lifetimes)
    ensures forall l :: l < REQUEST_LIFESPAN ==> multiset(r)[l] == multiset(lifetimes)[l]
  {
    if lifetimes == [] then []
    else
      assert lifetimes == [lifetimes[0]] + lifetimes[1..];
      if lifetimes[0] < REQUEST_LIFESPAN then [lifetimes[0]] + Prune(lifetimes[1..])
      else Prune(lifetimes[1..])
  }

  /** Where nothing has expired, both versions keep every request. */
  lemma {:induction false} PruneAgrees(lifetimes: seq<nat>)
    requires forall j :: 0 <= j < |lifetimes| ==> lifetimes[j] < REQUEST_LIFESPAN
    ensures SourcePrune(lifetimes) == Some(Prune(lifetimes))
  {
    if lifetimes != [] {
      PruneAgrees(lifetimes[1..]);
      assert lifetimes == [lifetimes[0]] + lifetimes[1..];
    }
  }

  /** The queue: the slots (None once closed), the two heads, the pending requests' lifetimes, and what it passed on. */
  class Queue {
    var buffer: array?<Slot>
    var imageHead: int
    var metaHead: int
    var pending: seq<nat>
    /** The images `close()` was called on, in order. */
    var closed: seq<Image>
    /** The items handed to `onMatchingZSLPictureAvailable`, in order. */
    var delivered: seq<ImageItem>

    /** Both heads index the buffer; a closed queue has both at 0. */
    predicate Valid()
      reads this
    {
      && (buffer != null ==> 0 < buffer.Length && 0 <= imageHead < buffer.Length && 0 <= metaHead < buffer.Length)
      && (buffer == null ==> imageHead == 0 && metaHead == 0)
    }

    /** The constructor with the buffer-size property's value. */
    constructor (size: int)
      requires size > 0
      ensures Valid() && buffer != null && fresh(buffer) && buffer.Length == size
      ensures forall k :: 0 <= k < size ==> buffer[k] == None
      ensures imageHead == 0 && metaHead == 0 && pending == [] && closed == [] && delivered == []
    {
      buffer := new Slot[size](_ => None);
      imageHead, metaHead := 0, 0;
      pending, closed, delivered := [], [], [];
    }

    /** `findMeta`: the first slot, going forward from index, whose metadata has the timestamp, or -1. */
    method FindMeta(timestamp: int, index: int) returns (i: int)
      requires buffer != null && 0 <= index < buffer.Length
      ensures i == -1 ==> forall k :: 0 <= k < buffer.Length ==> !MetaAt(buffer[k], timestamp)
      ensures i != -1 ==> 0 <= i < buffer.Length && MetaAt(buffer[i], timestamp)
      ensures i != -1 ==> forall e :: 0 <= e < FwdDist(index, i, buffer.Length) ==> !MetaAt(buffer[Fwd(index, e, buffer.Length)], timestamp)
    {
      var n := buffer.Length;
      var j := index;
      var d := 0;
      while d < n
        invariant 0 <= d <= n && j == Fwd(index, d, n)
        invariant forall e :: 0 <= e < d ==> !MetaAt(buffer[Fwd(index, e, n)], timestamp)
      {
        if MetaAt(buffer[j], timestamp) {
          return j;
        }
        j := Next(j, n);
        d := d + 1;
      }
      forall k | 0 <= k < n
        ensures !MetaAt(buffer[k], timestamp)
      {
        assert Fwd(index, FwdDist(index, k, n), n) == k;
      }
      return -1;
    }

    /** `findImage`: the first slot, going forward from index, whose image has the timestamp, or -1. */
    method FindImage(timestamp: int, index: int) returns (i: int)
      requires buffer != null && 0 <= index < buffer.Length
      ensures i == -1 ==> forall k :: 0 <= k < buffer.Length ==> !ImageAt(buffer[k], timestamp)
      ensures i != -1 ==> 0 <= i < buffer.Length && ImageAt(buffer[i], timestamp)
      ensures i != -1 ==> forall e :: 0 <= e < FwdDist(index, i, buffer.Length) ==> !ImageAt(buffer[Fwd(index, e, buffer.Length)], timestamp)
    {
      var n := buffer.Length;
      var j := index;
      var d := 0;
      while d < n
        invariant 0 <= d <= n && j == Fwd(index, d, n)
        invariant forall e :: 0 <= e < d ==> !ImageAt(buffer[Fwd(index, e, n)], timestamp)
      {
        if ImageAt(buffer[j], timestamp) {
          return j;
        }
        j := Next(j, n);
        d := d + 1;
      }
      forall k | 0 <= k < n
        ensures !ImageAt(buffer[k], timestamp)
      {
        assert Fwd(index, FwdDist(index, k, n), n) == k;
      }
      return -1;
    }

    /**
     * The locked part of `add(Image)`. The head slot's old image is closed
     * first; then the image is stored at the head when the slot has no
     * metadata or metadata with the same timestamp; it is closed and dropped
     * when the head's metadata is newer; otherwise it goes to the first slot
     * whose metadata matches, or, when none does, to the head with the head's
     * metadata discarded. The head moves one past the slot written.
     */
    method StoreImage(img: Image) returns (lastIndex: int)
      requires Valid() && buffer != null
      modifies this, buffer
      ensures Valid() && buffer == old(buffer)
      ensures metaHead == old(metaHead) && pending == old(pending) && delivered == old(delivered)
      ensures var n, h, s := buffer.Length, old(imageHead), old(buffer[..]);
        var m := MetaOf(s[h]);
        var s1 := s[h := Some(ImageItem(None, m))];
        var dropped := Closing(ImageOf(s[h]));
        && (m.None? || m.value.timestamp == img.timestamp ==>
              buffer[..] == s[h := Some(ImageItem(Some(img), m))] && lastIndex == h
              && imageHead == Next(h, n) && closed == old(closed) + dropped)
        && (m.Some? && m.value.timestamp > img.timestamp ==>
              buffer[..] == s1 && lastIndex == -1 && imageHead == h
              && closed == old(closed) + dropped + [img])
        && (m.Some? && m.value.timestamp < img.timestamp && lastIndex == -1 ==>
              (forall k :: 0 <= k < n ==> !MetaAt(s1[k], img.timestamp))
              && buffer[..] == s[h := Some(ImageItem(Some(img), None))]
              && imageHead == Next(h, n) && closed == old(closed) + dropped)
        && (m.Some? && m.value.timestamp < img.timestamp && lastIndex != -1 ==>
              0 <= lastIndex < n && lastIndex != h && MetaAt(s1[lastIndex], img.timestamp)
              && (forall e :: 0 <= e < FwdDist(h, lastIndex, n) ==> !MetaAt(s1[Fwd(h, e, n)], img.timestamp))
              && buffer[..] == s1[lastIndex := Some(ImageItem(Some(img), MetaOf(s1[lastIndex])))]
              && imageHead == Next(lastIndex, n)
              && closed == old(closed) + dropped + Closing(ImageOf(s1[lastIndex])))
    {
      var n := buffer.Length;
      var h := imageHead;
      var m := MetaOf(buffer[h]);
      closed := closed + Closing(ImageOf(buffer[h]));
      buffer[h] := Some(ImageItem(None, m));
      lastIndex := -1;
      if m.Some? {
        if m.value.timestamp == img.timestamp {
          buffer[h] := Some(ImageItem(Some(img), m));
          lastIndex := h;
          imageHead := Next(h, n);
        } else if m.value.timestamp > img.timestamp {
          closed := closed + [img];
        } else {
          var i := FindMeta(img.timestamp, h);
          if i == -1 {
            buffer[h] := Some(ImageItem(Some(img), None));
            imageHead := Next(h, n);
          } else {
            closed := closed + Closing(ImageOf(buffer[i]));
            buffer[i] := Some(ImageItem(Some(img), MetaOf(buffer[i])));
            lastIndex := i;
            imageHead := Next(i, n);
          }
        }
      } else {
        buffer[h] := Some(ImageItem(Some(img), None));
        lastIndex := h;
        imageHead := Next(h, n);
      }
    }

    /**
     * The locked part of `add(TotalCaptureResult)`: a timestamp of -1 is
     * ignored. The head slot's old metadata is dropped first; then the
     * metadata is stored at the head when the slot has no image or an image
     * with the same timestamp; it is dropped when the head's image is newer;
     * otherwise it goes to the first slot whose image matches, or, when none
     * does, to the head with the head's image closed. In the no-image case
     * the index reported is the image head, as in the source.
     */
    method StoreMeta(md: Metadata) returns (lastIndex: int)
      requires Valid() && buffer != null
      modifies this, buffer
      ensures Valid() && buffer == old(buffer)
      ensures imageHead == old(imageHead) && pending == old(pending) && delivered == old(delivered)
      ensures md.timestamp == -1 ==>
        (buffer[..] == old(buffer[..]) && lastIndex == -1 && metaHead == old(metaHead) && closed == old(closed))
      ensures md.timestamp != -1 ==>
        var n, h, s := buffer.Length, old(metaHead), old(buffer[..]);
        var im := ImageOf(s[h]);
        var s1 := s[h := Some(ImageItem(im, None))];
        && (im.None? ==>
              buffer[..] == s[h := Some(ImageItem(None, Some(md)))] && lastIndex == old(imageHead)
              && metaHead == Next(h, n) && closed == old(closed))
        && (im.Some? && im.value.timestamp == md.timestamp ==>
              buffer[..] == s[h := Some(ImageItem(im, Some(md)))] && lastIndex == h
              && metaHead == Next(h, n) && closed == old(closed))
        && (im.Some? && im.value.timestamp > md.timestamp ==>
              buffer[..] == s1 && lastIndex == -1 && metaHead == h && closed == old(closed))
        && (im.Some? && im.value.timestamp < md.timestamp && lastIndex == -1 ==>
              (forall k :: 0 <= k < n ==> !ImageAt(s1[k], md.timestamp))
              && buffer[..] == s[h := Some(ImageItem(None, Some(md)))]
              && metaHead == Next(h, n) && closed == old(closed) + [im.value])
        && (im.Some? && im.value.timestamp < md.timestamp && lastIndex != -1 ==>
              0 <= lastIndex < n && lastIndex != h && ImageAt(s1[lastIndex], md.timestamp)
              && (forall e :: 0 <= e < FwdDist(h, lastIndex, n) ==> !ImageAt(s1[Fwd(h, e, n)], md.timestamp))
              && buffer[..] == s1[lastIndex := Some(ImageItem(ImageOf(s1[lastIndex]), Some(md)))]
              && metaHead == Next(lastIndex, n) && closed == old(closed))
    {
      lastIndex := -1;
      if md.timestamp == -1 {
        return;
      }
      var n := buffer.Length;
      var h := metaHead;
      var im := ImageOf(buffer[h]);
      buffer[h] := Some(ImageItem(im, None));
      if im.Some? {
        if im.value.timestamp == md.timestamp {
          buffer[h] := Some(ImageItem(im, Some(md)));
          lastIndex := h;
          metaHead := Next(h, n);
        } else if im.value.timestamp > md.timestamp {
        } else {
          var i := FindImage(md.timestamp, h);
          if i == -1 {
            closed := closed + [im.value];
            buffer[h] := Some(ImageItem(None, Some(md)));
            metaHead := Next(h, n);
          } else {
            buffer[i] := Some(ImageItem(ImageOf(buffer[i]), Some(md)));
            lastIndex := i;
            metaHead := Next(i, n);
          }
        }
      } else {
        buffer[h] := Some(ImageItem(None, Some(md)));
        lastIndex := imageHead;
        metaHead := Next(h, n);
      }
    }

    /**
     * `processPendingRequest`: an eligible item at index is taken out of the
     * buffer and passed on, the oldest request is served, and the expired
     * requests are dropped; otherwise nothing changes.
     */
    method ProcessPendingRequest(index: int)
      requires Valid() && buffer != null && 0 <= index < buffer.Length && pending != []
      modifies this, buffer
      ensures Valid() && buffer == old(buffer)
      ensures imageHead == old(imageHead) && metaHead == old(metaHead) && closed == old(closed)
      ensures Eligible(old(buffer[index])) ==>
        buffer[..] == old(buffer[..])[index := None] && delivered == old(delivered) + [old(buffer[index]).value]
        && pending == Prune(old(pending)[1..])
      ensures !Eligible(old(buffer[index])) ==>
        buffer[..] == old(buffer[..]) && delivered == old(delivered) && pending == old(pending)
    {
      var item := buffer[index];
      if item.Some? && item.value.IsValid() && CheckImageRequirement(item.value.metadata.value) {
        buffer[index] := None;
        pending := Prune(pending[1..]);
        delivered := delivered + [item.value];
      }
    }

    /** `incLifeTime` on every pending request. */
    method AgePending()
      modifies this
      ensures pending == seq(|old(pending)|, k requires 0 <= k < |old(pending)| => old(pending)[k] + 1)
      ensures buffer == old(buffer) && imageHead == old(imageHead) && metaHead == old(metaHead)
      ensures closed == old(closed) && delivered == old(delivered)
    {
      var p := pending;
      for i := 0 to |p|
        invariant |p| == |pending|
        invariant forall k :: 0 <= k < i ==> p[k] == pending[k] + 1
        invariant forall k :: i <= k < |p| ==> p[k] == pending[k]
      {
        p := p[i := p[i] + 1];
      }
      pending := p;
    }

    /** What both `add` methods do after storing: with requests pending, try the slot written, then age the requests. */
    method ServePending(lastIndex: int)
      requires Valid() && buffer != null && -1 <= lastIndex < buffer.Length
      modifies this, buffer
      ensures Valid() && buffer == old(buffer)
      ensures imageHead == old(imageHead) && metaHead == old(metaHead) && closed == old(closed)
      ensures old(pending) == [] ==> pending == [] && buffer[..] == old(buffer[..]) && delivered == old(delivered)
      ensures old(pending) != [] && lastIndex == -1 ==>
        (buffer[..] == old(buffer[..]) && delivered == old(delivered) && |pending| == |old(pending)|)
      ensures old(pending) != [] && lastIndex != -1 && Eligible(old(buffer[lastIndex])) ==>
        (buffer[..] == old(buffer[..])[lastIndex := None] && delivered == old(delivered) + [old(buffer[lastIndex]).value]
         && |pending| == |Prune(old(pending)[1..])|)
      ensures forall k :: 0 <= k < |pending| ==> pending[k] >= 1 || old(pending) == []
    {
      if pending != [] {
        if lastIndex != -1 {
          ProcessPendingRequest(lastIndex);
        }
        AgePending();
      }
    }

    /** `add(Image)`: nothing on a closed queue; otherwise store, then serve the pending requests. */
    method AddImage(img: Image)
      requires Valid()
      modifies this, buffer
      ensures Valid() && buffer == old(buffer) && metaHead == old(metaHead)
      ensures old(buffer) == null ==>
        (imageHead == old(imageHead) && pending == old(pending) && closed == old(closed) && delivered == old(delivered))
      ensures old(pending) == [] ==> pending == [] && delivered == old(delivered)
      ensures old(buffer) != null && old(pending) != [] ==> forall k :: 0 <= k < |pending| ==> pending[k] >= 1
    {
      if buffer == null {
        return;
      }
      var last := StoreImage(img);
      ServePending(last);
    }

    /**
     * `add(TotalCaptureResult)`: nothing on a closed queue or for a timestamp
     * of -1, which returns before the pending requests are touched; otherwise
     * store, then serve the pending requests.
     */
    method AddMetadata(md: Metadata)
      requires Valid()
      modifies this, buffer
      ensures Valid() && buffer == old(buffer) && imageHead == old(imageHead)
      ensures old(buffer) == null ==>
        (metaHead == old(metaHead) && pending == old(pending) && closed == old(closed) && delivered == old(delivered))
      ensures old(buffer) != null && md.timestamp == -1 ==>
        (buffer[..] == old(buffer[..]) && metaHead == old(metaHead) && pending == old(pending)
         && closed == old(closed) && delivered == old(delivered))
      ensures old(pending) == [] ==> pending == [] && delivered == old(delivered)
      ensures old(buffer) != null && md.timestamp != -1 && old(pending) != [] ==>
        forall k :: 0 <= k < |pending| ==> pending[k] >= 1
    {
      if buffer == null || md.timestamp == -1 {
        return;
      }
      var last := StoreMeta(md);
      ServePending(last);
    }

    /**
     * `tryToGetMatchingItem`: the first eligible slot going back from the
     * image head, taken out of the buffer, or None with the buffer unchanged.
     */
    method TryToGetMatchingItem() returns (r: Option<ImageItem>)
      requires Valid() && buffer != null
      modifies buffer
      ensures r.None? ==> buffer[..] == old(buffer[..]) && forall k :: 0 <= k < buffer.Length ==> !Eligible(old(buffer[k]))
      ensures r.Some? ==> exists i :: 0 <= i < buffer.Length && Taken(old(buffer[..]), imageHead, i, r.value) && buffer[..] == old(buffer[..])[i := None]
    {
      var n := buffer.Length;
      ghost var s := buffer[..];
      var index := imageHead;
      var d := 0;
      while d < n
        invariant 0 <= d <= n && index == Bwd(imageHead, d, n)
        invariant forall e :: 0 <= e < d ==> !Eligible(buffer[Bwd(imageHead, e, n)])
      {
        var item := buffer[index];
        if item.Some? && item.value.IsValid() && CheckImageRequirement(item.value.metadata.value) {
          assert BwdDist(imageHead, index, n) == d;
          assert Taken(s, imageHead, index, item.value);
          buffer[index] := None;
          return Some(item.value);
        }
        index := index - 1;
        if index < 0 {
          index := n - 1;
        }
        d := d + 1;
      }
      forall k | 0 <= k < n
        ensures !Eligible(buffer[k])
      {
        assert Bwd(imageHead, BwdDist(imageHead, k, n), n) == k;
      }
      return None;
    }

    /** `addPictureRequest`: a new request with lifetime 0 at the end. */
    method AddPictureRequest()
      modifies this
      ensures pending == old(pending) + [0]
      ensures buffer == old(buffer) && imageHead == old(imageHead) && metaHead == old(metaHead)
      ensures closed == old(closed) && delivered == old(delivered)
    {
      pending := pending + [0];
    }

    /**
     * `onClose`: every slot's image is closed in slot order, the buffer is
     * dropped, both heads return to 0 and the pending requests are cleared.
     */
    method OnClose()
      requires Valid() && buffer != null
      modifies this, buffer
      ensures Valid() && buffer == null && imageHead == 0 && metaHead == 0 && pending == []
      ensures closed == old(closed) + ClosedImages(old(buffer[..])) && delivered == old(delivered)
      ensures forall k :: 0 <= k < old(buffer).Length ==> old(buffer)[k] == None
    {
      var c := CloseSlots(buffer, closed);
      closed := c;
      buffer := null;
      imageHead, metaHead := 0, 0;
      pending := [];
    }
  }

  /** The loop of `onClose`: every slot's image is closed in slot order and the slot emptied. */
  method CloseSlots(b: array<Slot>, before: seq<Image>) returns (c: seq<Image>)
    modifies b
    ensures c == before + ClosedImages(old(b[..]))
    ensures forall k :: 0 <= k < b.Length ==> b[k] == None
  {
    ghost var s := b[..];
    c := before;
    for i := 0 to b.Length
      invariant c == before + ClosedImages(s[..i])
      invariant forall k :: 0 <= k < i ==> b[k] == None
      invariant forall k :: i <= k < b.Length ==> b[k] == s[k]
    {
      ClosedImagesStep(s, i);
      var slot := b[i];
      if slot != None {
        c := c + Closing(ImageOf(slot));
        b[i] := None;
      }
    }
    assert s[..b.Length] == s;
  }

  /** Slot i holds item, it is eligible, and no slot before it going back from head is. */
  predicate Taken(s: seq<Slot>, head: int, i: int, item: ImageItem)
    requires 0 <= head < |s| && 0 <= i < |s|
  {
    && s[i] == Some(item) && Eligible(s[i])
    && forall e :: 0 <= e < BwdDist(head, i, |s|) ==> !Eligible(s[Bwd(head, e, |s|)])
  }

  /** The images of the slots, in slot order. */
  function ClosedImages(s: seq<Slot>): (r: seq<Image>)
    ensures |r| <= |s|
  {
    if s == [] then [] else ClosedImages(s[..|s| - 1]) + Closing(ImageOf(s[|s| - 1]))
  }

  lemma ClosedImagesStep(s: seq<Slot>, i: int)
    requires 0 <= i < |s|
    ensures ClosedImages(s[..i + 1]) == ClosedImages(s[..i]) + Closing(ImageOf(s[i]))
  {
    assert s[..i + 1][..i] == s[..i];
  }
}
