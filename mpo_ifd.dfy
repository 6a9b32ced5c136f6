// One MPO IFD: its tags by tag id and its offset to the next IFD
// (src/com/android/camera/mpo/MpoIfdData.java).
//
// The source keeps the tags in a `HashMap<Short, MpoTag>`, and `getAllTags`
// returns them in the map's iteration order: bucket by bucket, and within a
// bucket in the order the keys were first put. The map is modelled as a
// sequence of tags with distinct ids in that order, for the 16 buckets a new
// HashMap has: a new id goes after the tags of its bucket and of the buckets
// before it, and a replaced tag keeps its place.
module MpoIfd {
  import opened Bytes
  import opened MpoTag

  const TYPE_MP_INDEX_IFD: int := 1
  const TYPE_MP_ATTRIB_IFD: int := 2

  /** No two tags share an id. */
  ghost predicate UniqueIds(tags: seq<Tag>) {
    forall i, j :: 0 <= i < j < |tags| ==> tags[i].id != tags[j].id
  }

  /** The ids present. */
  function Ids(tags: seq<Tag>): (s: set<int>)
    ensures forall id :: id in s <==> exists i :: 0 <= i < |tags| && tags[i].id == id
  {
    if tags == [] then {} else Ids(tags[..|tags| - 1]) + {tags[|tags| - 1].id}
  }

  /** Where the tag with this id sits, if there is one. */
  function IndexOf(tags: seq<Tag>, id: int): (r: Option<nat>)
    ensures r.Some? ==> r.value < |tags| && tags[r.value].id == id
    ensures r.Some? ==> forall j :: 0 <= j < r.value ==> tags[j].id != id
    ensures r.None? <==> id !in Ids(tags)
  {
    if tags == [] then None
    else if tags[0].id == id then Some(0)
    else match IndexOf(tags[1..], id)
      case None => assert tags == [tags[0]] + tags[1..]; None
      case Some(i) => Some(i + 1)
  }

  /** `mTags.get(id)`. */
  function Find(tags: seq<Tag>, id: int): (r: Option<Tag>)
    ensures r.Some? <==> id in Ids(tags)
    ensures r.Some? ==> r.value.id == id && r.value in tags
  {
    match IndexOf(tags, id)
    case None => None
    case Some(i) => Some(tags[i])
  }

  /** The number of buckets of a HashMap that has not grown. */
  const BUCKETS: int := 16

  /**
   * The bucket of a tag id: the Short key's hash is the sign-extended
   * 16-bit value h, HashMap spreads it to `h ^ (h >>> 16)` and keeps the
   * low four bits. For a negative short the spread flips the low 16 bits.
   */
  function Bucket(id: int): (b: nat)
    ensures b < BUCKETS
  {
    var u := id % 0x1_0000;
    (if u < 0x8000 then u else 0xFFFF - u) % BUCKETS
  }

  /** The tags are in iteration order: their buckets never go down. */
  predicate BucketOrdered(tags: seq<Tag>) {
    forall i, j :: 0 <= i < j < |tags| ==> Bucket(tags[i].id) <= Bucket(tags[j].id)
  }

  /** Where a new key of bucket b goes: after every tag of bucket b or a lower one (the head of the sequence up to there). */
  function Slot(tags: seq<Tag>, b: nat): (k: nat)
    ensures k <= |tags|
  {
    if tags == [] || Bucket(tags[0].id) > b then 0 else 1 + Slot(tags[1..], b)
  }

  /** The slot of bucket b follows every tag of bucket b or lower and stops at the first higher one. */
  lemma {:induction false} SlotBounds(tags: seq<Tag>, b: nat)
    ensures var k := Slot(tags, b);
      (forall i :: 0 <= i < k ==> Bucket(tags[i].id) <= b) && (k < |tags| ==> Bucket(tags[k].id) > b)
  {
    if tags != [] && Bucket(tags[0].id) <= b {
      SlotBounds(tags[1..], b);
      var k := Slot(tags, b);
      forall i | 0 < i < k ensures Bucket(tags[i].id) <= b {
        assert tags[i] == tags[1..][i - 1];
      }
    }
  }

  /** `mTags.put(t.id, t)`: replace the tag with that id in place, or add it at the end of its bucket. */
  function PutTag(tags: seq<Tag>, t: Tag): (r: seq<Tag>)
    ensures |r| == |tags| + (if t.id in Ids(tags) then 0 else 1)
  {
    match IndexOf(tags, t.id)
    case None => Insert(tags, Slot(tags, Bucket(t.id)), t)
    case Some(i) => tags[i := t]
  }

  /** x put at position k, the elements from k on moving up by one. */
  function Insert<T>(s: seq<T>, k: nat, x: T): (r: seq<T>)
    requires k <= |s|
    ensures |r| == |s| + 1
  {
    s[..k] + [x] + s[k..]
  }

  /** Where the elements of an insertion are. */
  lemma InsertAt<T>(s: seq<T>, k: nat, x: T)
    requires k <= |s|
    ensures var r := Insert(s, k, x);
      r[k] == x && (forall i :: 0 <= i < k ==> r[i] == s[i]) && (forall i :: k < i < |r| ==> r[i] == s[i - 1])
  {
  }

  /** What an insertion holds: the element put and the old ones. */
  lemma InsertIn<T>(s: seq<T>, k: nat, x: T)
    requires k <= |s|
    ensures forall u :: u in Insert(s, k, x) <==> u == x || u in s
  {
    InsertAt(s, k, x);
    var r := Insert(s, k, x);
    forall u | u in s ensures u in r {
      var i :| 0 <= i < |s| && s[i] == u;
      assert r[if i < k then i else i + 1] == u;
    }
    forall u | u in r ensures u == x || u in s {
      var i :| 0 <= i < |r| && r[i] == u;
      if i < k { assert s[i] == u; } else if i > k { assert s[i - 1] == u; }
    }
  }

  /** In iteration order, the tags after the slot of bucket b are all of higher buckets. */
  lemma SlotSplits(tags: seq<Tag>, b: nat)
    requires BucketOrdered(tags)
    ensures var k := Slot(tags, b); forall i :: k <= i < |tags| ==> Bucket(tags[i].id) > b
  {
    var k := Slot(tags, b);
    SlotBounds(tags, b);
    forall i | k <= i < |tags| ensures Bucket(tags[i].id) > b {
      assert Bucket(tags[k].id) <= Bucket(tags[i].id);
    }
  }

  /** A new key put at the end of its bucket keeps the iteration order. */
  lemma InsertOrdered(tags: seq<Tag>, t: Tag)
    requires BucketOrdered(tags)
    ensures BucketOrdered(Insert(tags, Slot(tags, Bucket(t.id)), t))
  {
    var b := Bucket(t.id);
    var k := Slot(tags, b);
    SlotSplits(tags, b);
    SlotBounds(tags, b);
    InsertAt(tags, k, t);
    var r := Insert(tags, k, t);
    forall i, j | 0 <= i < j < |r| ensures Bucket(r[i].id) <= Bucket(r[j].id) {
      var i' := if i <= k then i else i - 1;
      var j' := if j < k then j else j - 1;
      if i != k && j != k {
        assert r[i] == tags[i'] && r[j] == tags[j'];
      } else if i == k {
        assert r[j] == tags[j'];
      } else {
        assert r[i] == tags[i];
      }
    }
  }

  /** A put keeps the iteration order. */
  lemma PutOrdered(tags: seq<Tag>, t: Tag)
    requires BucketOrdered(tags)
    ensures BucketOrdered(PutTag(tags, t))
  {
    match IndexOf(tags, t.id)
    case None => InsertOrdered(tags, t);
    case Some(k) =>
      var r := tags[k := t];
      assert forall i :: 0 <= i < |r| ==> Bucket(r[i].id) == Bucket(tags[i].id);
  }

  /** `mTags.remove(id)`. */
  function Remove(tags: seq<Tag>, id: int): (r: seq<Tag>)
    ensures |r| <= |tags|
  {
    if tags == [] then []
    else if tags[0].id == id then Remove(tags[1..], id)
    else [tags[0]] + Remove(tags[1..], id)
  }

  // ---- properties of the tag map ----

  /** With distinct ids, a tag of the list is what its id finds. */
  lemma FindMember(tags: seq<Tag>, u: Tag)
    requires UniqueIds(tags) && u in tags
    ensures Find(tags, u.id) == Some(u)
  {
    UniqueSameId(tags, Find(tags, u.id).value, u);
  }

  /** The tags after a put: the new one and those of the other ids. */
  lemma PutMembers(tags: seq<Tag>, t: Tag)
    requires UniqueIds(tags)
    ensures forall u :: u in PutTag(tags, t) <==> u == t || (u in tags && u.id != t.id)
  {
    match IndexOf(tags, t.id)
    case None => InsertMembers(tags, Slot(tags, Bucket(t.id)), t);
    case Some(k) => ReplaceMembers(tags, k, t);
  }

  lemma ReplaceMembers(tags: seq<Tag>, k: nat, t: Tag)
    requires UniqueIds(tags) && k < |tags| && tags[k].id == t.id
    ensures forall u :: u in tags[k := t] <==> u == t || (u in tags && u.id != t.id)
  {
    var r := tags[k := t];
    assert r[k] == t;
    forall u | u in r ensures u == t || (u in tags && u.id != t.id) {
      var i :| 0 <= i < |r| && r[i] == u;
      if i != k {
        assert tags[i] == u;
        if i < k { assert tags[i].id != tags[k].id; } else { assert tags[k].id != tags[i].id; }
      }
    }
    forall u | u in tags && u.id != t.id ensures u in r {
      var i :| 0 <= i < |tags| && tags[i] == u;
      assert r[i] == u;
    }
  }

  /** A put keeps ids distinct and adds its id. */
  lemma PutUnique(tags: seq<Tag>, t: Tag)
    requires UniqueIds(tags)
    ensures UniqueIds(PutTag(tags, t)) && Ids(PutTag(tags, t)) == Ids(tags) + {t.id}
  {
    match IndexOf(tags, t.id)
    case None =>
      InsertUnique(tags, Slot(tags, Bucket(t.id)), t);
    case Some(k) =>
      ReplaceUnique(tags, k, t);
  }

  lemma InsertMembers(tags: seq<Tag>, k: nat, t: Tag)
    requires UniqueIds(tags) && k <= |tags| && t.id !in Ids(tags)
    ensures forall u :: u in Insert(tags, k, t) <==> u == t || (u in tags && u.id != t.id)
  {
    InsertIn(tags, k, t);
  }

  lemma InsertUnique(tags: seq<Tag>, k: nat, t: Tag)
    requires UniqueIds(tags) && k <= |tags| && t.id !in Ids(tags)
    ensures UniqueIds(Insert(tags, k, t)) && Ids(Insert(tags, k, t)) == Ids(tags) + {t.id}
  {
    InsertDistinct(tags, k, t);
    InsertIds(tags, k, t);
  }

  lemma InsertDistinct(tags: seq<Tag>, k: nat, t: Tag)
    requires UniqueIds(tags) && k <= |tags| && t.id !in Ids(tags)
    ensures UniqueIds(Insert(tags, k, t))
  {
    InsertAt(tags, k, t);
    var r := Insert(tags, k, t);
    forall i, j | 0 <= i < j < |r| ensures r[i].id != r[j].id {
      var i' := if i < k then i else i - 1;
      var j' := if j < k then j else j - 1;
      if i != k && j != k {
        assert r[i] == tags[i'] && r[j] == tags[j'] && i' < j';
      } else if i == k {
        assert r[j] == tags[j'];
      } else {
        assert r[i] == tags[i];
      }
    }
  }

  lemma InsertIds(tags: seq<Tag>, k: nat, t: Tag)
    requires k <= |tags|
    ensures Ids(Insert(tags, k, t)) == Ids(tags) + {t.id}
  {
    InsertKeepsIds(tags, k, t);
    InsertAddsNoIds(tags, k, t);
  }

  lemma InsertKeepsIds(tags: seq<Tag>, k: nat, t: Tag)
    requires k <= |tags|
    ensures Ids(tags) + {t.id} <= Ids(Insert(tags, k, t))
  {
    InsertAt(tags, k, t);
    var r := Insert(tags, k, t);
    forall id | id in Ids(tags) ensures id in Ids(r) {
      var i :| 0 <= i < |tags| && tags[i].id == id;
      var j := if i < k then i else i + 1;
      assert r[j] == tags[i] && 0 <= j < |r|;
      assert r[j].id == id;
    }
    assert r[k].id == t.id;
  }

  lemma InsertAddsNoIds(tags: seq<Tag>, k: nat, t: Tag)
    requires k <= |tags|
    ensures Ids(Insert(tags, k, t)) <= Ids(tags) + {t.id}
  {
    InsertAt(tags, k, t);
    var r := Insert(tags, k, t);
    forall id | id in Ids(r) ensures id in Ids(tags) + {t.id} {
      var i :| 0 <= i < |r| && r[i].id == id;
      if i < k { assert tags[i] == r[i]; } else if i > k { assert tags[i - 1] == r[i]; }
    }
  }

  lemma ReplaceUnique(tags: seq<Tag>, k: nat, t: Tag)
    requires UniqueIds(tags) && k < |tags| && tags[k].id == t.id
    ensures UniqueIds(tags[k := t]) && Ids(tags[k := t]) == Ids(tags)
  {
    var r := tags[k := t];
    assert forall i :: 0 <= i < |r| ==> r[i].id == tags[i].id;
  }

  /** After a put, the id finds the new tag and every other id finds what it found before. */
  lemma PutFind(tags: seq<Tag>, t: Tag, id: int)
    requires UniqueIds(tags)
    ensures Find(PutTag(tags, t), id) == if id == t.id then Some(t) else Find(tags, id)
  {
    var r := PutTag(tags, t);
    PutUnique(tags, t);
    PutMembers(tags, t);
    if id == t.id {
      FindMember(r, t);
    } else if Find(tags, id).Some? {
      var u := Find(tags, id).value;
      FindMember(r, u);
    }
  }

  /** `getTagCount`: with distinct ids the number of tags is the number of ids. */
  lemma {:induction false} UniqueCount(tags: seq<Tag>)
    requires UniqueIds(tags)
    ensures |Ids(tags)| == |tags|
  {
    if tags != [] {
      var pre := tags[..|tags| - 1];
      assert UniqueIds(pre);
      UniqueCount(pre);
      assert tags[|tags| - 1].id !in Ids(pre);
    }
  }

  /** Which tags survive a remove: the ones with another id, in their order. */
  lemma {:induction false} RemoveKeeps(tags: seq<Tag>, id: int)
    ensures forall t :: t in Remove(tags, id) <==> t in tags && t.id != id
  {
    if tags != [] {
      RemoveKeeps(tags[1..], id);
      assert tags == [tags[0]] + tags[1..];
    }
  }

  /** After a remove the id finds nothing and every other id finds what it found before. */
  lemma RemoveFind(tags: seq<Tag>, id: int, other: int)
    requires UniqueIds(tags)
    ensures UniqueIds(Remove(tags, id))
    ensures Find(Remove(tags, id), id) == None
    ensures other != id ==> Find(Remove(tags, id), other) == Find(tags, other)
  {
    RemoveKeeps(tags, id);
    RemoveUnique(tags, id);
    var r := Remove(tags, id);
    if other != id && Find(tags, other).Some? {
      FindMember(r, Find(tags, other).value);
    }
  }

  /** Two tags of a list with distinct ids that share an id are the same tag. */
  lemma UniqueSameId(tags: seq<Tag>, a: Tag, b: Tag)
    requires UniqueIds(tags) && a in tags && b in tags && a.id == b.id
    ensures a == b
  {
    var i :| 0 <= i < |tags| && tags[i] == a;
    var j :| 0 <= j < |tags| && tags[j] == b;
    assert i == j;
  }

  /** Removing keeps the ids distinct. */
  lemma {:induction false} RemoveUnique(tags: seq<Tag>, id: int)
    requires UniqueIds(tags)
    ensures UniqueIds(Remove(tags, id))
  {
    if tags != [] {
      RemoveUnique(tags[1..], id);
      RemoveKeeps(tags[1..], id);
      var rest := Remove(tags[1..], id);
      if tags[0].id != id {
        forall j | 0 <= j < |rest| ensures rest[j].id != tags[0].id {
          assert rest[j] in tags[1..];
        }
      }
    }
  }

  /** A put of a tag stamped with an IFD's id into that IFD's tags keeps what `IfdData` keeps. */
  lemma PutStamped(tags: seq<Tag>, t: Tag, ifd: int)
    requires UniqueIds(tags) && BucketOrdered(tags) && (forall i :: 0 <= i < |tags| ==> tags[i].ifd == ifd) && t.ifd == ifd
    ensures var r := PutTag(tags, t); UniqueIds(r) && BucketOrdered(r) && forall i :: 0 <= i < |r| ==> r[i].ifd == ifd
  {
    PutUnique(tags, t);
    PutOrdered(tags, t);
    PutMembers(tags, t);
    var r := PutTag(tags, t);
    forall i | 0 <= i < |r| ensures r[i].ifd == ifd {
      assert r[i] in r;
    }
  }

  /** Removing keeps the iteration order. */
  lemma {:induction false} RemoveOrdered(tags: seq<Tag>, id: int)
    requires BucketOrdered(tags)
    ensures BucketOrdered(Remove(tags, id))
  {
    if tags != [] {
      RemoveOrdered(tags[1..], id);
      RemoveKeeps(tags[1..], id);
      var rest := Remove(tags[1..], id);
      if tags[0].id != id {
        var r := [tags[0]] + rest;
        forall i, j | 0 <= i < j < |r| ensures Bucket(r[i].id) <= Bucket(r[j].id) {
          assert r[j] == rest[j - 1] && rest[j - 1] in tags[1..];
          if i > 0 {
            assert r[i] == rest[i - 1];
          }
        }
      }
    }
  }

  /**
   * Tag equality as `ExifTag.equals` decides it: the same id, data type and
   * value (hence component count); the IFD and the value offset are not compared.
   */
  predicate SameTag(a: Tag, b: Tag) {
    a.id == b.id && a.dataType == b.dataType && a.value == b.value
  }

  /** Whether `tag2`, a lookup result, is a tag `ExifTag.equals` finds equal to `t`; null is never equal. */
  predicate Matches(t: Tag, found: Option<Tag>) {
    found.Some? && SameTag(t, found.value)
  }

  /**
   * `equals` of two IFDs: the same number of tags, and each tag of the other
   * IFD equal to this IFD's tag of that id.
   */
  predicate IfdEquals(mine: seq<Tag>, other: seq<Tag>) {
    |mine| == |other| && forall i :: 0 <= i < |other| ==> Matches(other[i], Find(mine, other[i].id))
  }

  /** The ids of equal IFDs agree. */
  lemma IfdEqualsIds(mine: seq<Tag>, other: seq<Tag>)
    requires UniqueIds(mine) && UniqueIds(other) && IfdEquals(mine, other)
    ensures Ids(mine) == Ids(other)
  {
    UniqueCount(mine);
    UniqueCount(other);
    assert Ids(other) <= Ids(mine) by {
      forall id | id in Ids(other) ensures id in Ids(mine) {
        var i :| 0 <= i < |other| && other[i].id == id;
        assert Matches(other[i], Find(mine, id));
      }
    }
    SubsetEqualSize(Ids(other), Ids(mine));
  }

  /** IFD equality does not depend on which side the check runs from. */
  lemma IfdEqualsSymmetric(mine: seq<Tag>, other: seq<Tag>)
    requires UniqueIds(mine) && UniqueIds(other) && IfdEquals(mine, other)
    ensures IfdEquals(other, mine)
  {
    IfdEqualsIds(mine, other);
    forall j | 0 <= j < |mine| ensures Matches(mine[j], Find(other, mine[j].id)) {
      assert mine[j].id in Ids(other);
      var i :| 0 <= i < |other| && other[i].id == mine[j].id;
      assert Matches(other[i], Find(mine, other[i].id));
      UniqueSameId(mine, Find(mine, other[i].id).value, mine[j]);
      FindMember(other, other[i]);
    }
  }

  /** An IFD whose ids are distinct equals itself. */
  lemma IfdEqualsReflexive(tags: seq<Tag>)
    requires UniqueIds(tags)
    ensures IfdEquals(tags, tags)
  {
    forall i | 0 <= i < |tags| ensures Matches(tags[i], Find(tags, tags[i].id)) {
      FindMember(tags, tags[i]);
    }
  }

  lemma SubsetEqualSize(a: set<int>, b: set<int>)
    requires a <= b && |a| == |b|
    ensures a == b
  {
    assert b == a + (b - a);
    assert |b - a| == 0;
  }

  /** MpoIfdData: the tags of one IFD, stamped with its id, and the offset to the next IFD. */
  class IfdData {
    const id: int
    var tags: seq<Tag>
    var next: int

    ghost predicate Valid()
      reads this
    {
      UniqueIds(tags) && BucketOrdered(tags) && forall i :: 0 <= i < |tags| ==> tags[i].ifd == id
    }

    constructor (ifdId: int)
      ensures Valid() && id == ifdId && tags == [] && next == 0
    {
      id := ifdId;
      tags := [];
      next := 0;
    }

    /** `getTag`: the tag with this id, or null (None). */
    function GetTag(tagId: int): (r: Option<Tag>)
      reads this
      ensures r.Some? <==> tagId in Ids(tags)
      ensures r.Some? ==> r.value.id == tagId && r.value in tags
    {
      Find(tags, tagId)
    }

    /** `checkCollision`: exactly when `getTag` finds a tag. */
    function CheckCollision(tagId: int): (b: bool)
      reads this
      ensures b <==> GetTag(tagId).Some?
    {
      Find(tags, tagId).Some?
    }

    /** `getTagCount`: the number of distinct tag ids stored. */
    function TagCount(): (n: nat)
      reads this
      requires Valid()
      ensures n == |Ids(tags)|
    {
      UniqueCount(tags);
      |tags|
    }

    /** `setTag`: stamps the tag with this IFD's id, replaces any tag of that id, and returns the one replaced. */
    method SetTag(t: Tag) returns (prev: Option<Tag>)
      requires Valid()
      modifies this
      ensures Valid() && next == old(next)
      ensures tags == PutTag(old(tags), t.(ifd := id)) && prev == Find(old(tags), t.id)
    {
      prev := Find(tags, t.id);
      var t' := t.(ifd := id);
      PutStamped(tags, t', id);
      tags := PutTag(tags, t');
    }

    /** `removeTag`. */
    method RemoveTag(tagId: int)
      requires Valid()
      modifies this
      ensures Valid() && next == old(next) && tags == Remove(old(tags), tagId)
    {
      RemoveUnique(tags, tagId);
      RemoveOrdered(tags, tagId);
      RemoveKeeps(tags, tagId);
      ghost var r := Remove(tags, tagId);
      forall i | 0 <= i < |r| ensures r[i].ifd == id {
        assert r[i] in tags;
      }
      tags := Remove(tags, tagId);
    }

    /** `getOffsetToNextIfd`: the last offset set, 0 before any. */
    function OffsetToNextIfd(): (n: int)
      reads this
      ensures n == next
    {
      next
    }

    /**
     * `equals`: the same object, or the same tag count and every tag of
     * `other` equal to this IFD's tag of that id.
     */
    method Equals(other: IfdData) returns (b: bool)
      ensures b == (this == other || IfdEquals(tags, other.tags))
    {
      if this == other {
        return true;
      }
      if |other.tags| != |tags| {
        return false;
      }
      var ts := other.tags;
      for i := 0 to |ts|
        invariant forall j :: 0 <= j < i ==> Matches(ts[j], Find(tags, ts[j].id))
      {
        var t2 := Find(tags, ts[i].id);
        if !Matches(ts[i], t2) {
          return false;
        }
      }
      return true;
    }

    /** `setOffsetToNextIfd`. */
    method SetOffsetToNextIfd(offset: int)
      modifies this
      ensures next == offset && tags == old(tags)
    {
      next := offset;
    }
  }
}
