// Tags of the MPO (CIPA DC-007 Multi-Picture Format) index and attribute IFDs,
// and the 16-byte MP Entry record held in the MP Entry tag
// (src/com/android/camera/mpo/MpoTag.java).
//
// The tag class MpoTag extends, ExifTag, is not part of this model: a tag is
// a value holding what the writer uses of it (its id, TIFF data type, IFD,
// value offset and value), and only the two kinds of value the MPO code
// stores are modelled, bytes (TIFF UNDEFINED and BYTE) and 32-bit unsigned
// longs (TIFF LONG).
module MpoTag {
  import opened Bytes
  import opened Arith

  // Tag ids as the 16-bit values `(short) MpoInterface.TAG_…` keeps.
  const TAG_MP_FORMAT_VERSION: int := 0xB000
  const TAG_NUM_IMAGES: int := 0xB001
  const TAG_MP_ENTRY: int := 0xB002
  const TAG_IMAGE_NUMBER: int := 0xB101

  // TIFF 6.0 field types.
  const TYPE_UNSIGNED_BYTE: int := 1
  const TYPE_UNSIGNED_LONG: int := 4
  const TYPE_UNDEFINED: int := 7
  const TYPE_LONG: int := 9

  /** The size of one IFD entry (TIFF 6.0 section 2). */
  const TAG_SIZE: int := 12
  /** The size of one MP Entry. */
  const ENTRY_SIZE: int := 16

  datatype Value = Bytes(bytes: seq<byte>) | Longs(longs: seq<int>)

  datatype Tag = Tag(id: int, dataType: int, ifd: int, offset: int, value: Value)

  predicate IsU32(v: int) { 0 <= v < TWO32 }

  /** A tag whose value has the kind its TIFF type calls for. */
  predicate WellTyped(t: Tag) {
    match t.value
    case Bytes(_) => t.dataType == TYPE_UNDEFINED || t.dataType == TYPE_UNSIGNED_BYTE
    case Longs(ls) =>
      (t.dataType == TYPE_UNSIGNED_LONG || t.dataType == TYPE_LONG) && (forall i :: 0 <= i < |ls| ==> IsU32(ls[i]))
  }

  function ComponentCount(t: Tag): (n: nat) {
    match t.value
    case Bytes(b) => |b|
    case Longs(ls) => |ls|
  }

  /** Bytes of the tag's value: its component count times the width of its type. */
  function DataSize(t: Tag): (n: nat)
    ensures t.value.Bytes? ==> n == ComponentCount(t)
    ensures t.value.Longs? ==> n == 4 * ComponentCount(t)
  {
    match t.value
    case Bytes(b) => |b|
    case Longs(ls) => 4 * |ls|
  }

  /** A new tag of a byte or long type, with no value yet in the component list. */
  function NewTag(id: int, dataType: int, ifd: int): (t: Tag)
    requires dataType in {TYPE_UNDEFINED, TYPE_UNSIGNED_BYTE, TYPE_UNSIGNED_LONG, TYPE_LONG}
    ensures WellTyped(t) && ComponentCount(t) == 0 && t.id == id && t.ifd == ifd && t.offset == 0
  {
    Tag(id, dataType, ifd, 0, if dataType in {TYPE_UNDEFINED, TYPE_UNSIGNED_BYTE} then Bytes([]) else Longs([]))
  }

  /** `setValue(byte[])`: only a byte-typed tag accepts bytes. */
  function SetBytes(t: Tag, b: seq<byte>): (r: Option<Tag>)
    ensures r.Some? <==> t.value.Bytes?
    ensures r.Some? ==> r.value == t.(value := Bytes(b))
  {
    if t.value.Bytes? then Some(t.(value := Bytes(b))) else None
  }

  /** `setValue(int)` and `setValue(long)` on a long tag: one unsigned 32-bit component. */
  function SetLong(t: Tag, v: int): (r: Option<Tag>)
    ensures r.Some? <==> t.value.Longs? && IsU32(v)
    ensures r.Some? ==> r.value == t.(value := Longs([v]))
  {
    if t.value.Longs? && IsU32(v) then Some(t.(value := Longs([v]))) else None
  }

  // ---- MP Entry ----

  /**
   * One MP Entry: individual image attribute, size and offset (Java ints)
   * and the two dependent image entry numbers (Java shorts).
   */
  datatype MpEntry = MpEntry(attrib: int, size: int, offset: int, dep1: int, dep2: int)

  predicate ValidEntry(e: MpEntry) {
    IsInt32(e.attrib) && IsInt32(e.size) && IsInt32(e.offset) && IsInt16(e.dep1) && IsInt16(e.dep2)
  }

  /** The 16 bytes `getBytes` puts: attribute, size, offset, then the two dependencies, big-endian. */
  function EntryBytes(e: MpEntry): (s: seq<byte>)
    requires ValidEntry(e)
    ensures |s| == ENTRY_SIZE
  {
    PutIntBE(e.attrib) + PutIntBE(e.size) + PutIntBE(e.offset) + PutShortBE(e.dep1) + PutShortBE(e.dep2)
  }

  /** The `MpEntry(ByteBuffer)` constructor: five fields read big-endian from `at`. */
  function DecodeEntry(s: seq<byte>, at: nat): (e: MpEntry)
    requires at + ENTRY_SIZE <= |s|
    ensures ValidEntry(e)
  {
    MpEntry(GetIntBE(s, at), GetIntBE(s, at + 4), GetIntBE(s, at + 8), GetShortBE(s, at + 12), GetShortBE(s, at + 14))
  }

  /** Decoding the bytes of an entry gives the entry back. */
  lemma EntryRoundTrip(e: MpEntry)
    requires ValidEntry(e)
    ensures DecodeEntry(EntryBytes(e), 0) == e
  {
    var s := EntryBytes(e);
    IntBERoundTrip(e.attrib);
    IntBERoundTrip(e.size);
    IntBERoundTrip(e.offset);
    ShortBERoundTrip(e.dep1);
    ShortBERoundTrip(e.dep2);
    assert s[0..4] == PutIntBE(e.attrib) && s[4..8] == PutIntBE(e.size) && s[8..12] == PutIntBE(e.offset);
    assert s[12..14] == PutShortBE(e.dep1) && s[14..16] == PutShortBE(e.dep2);
    assert GetIntBE(s, 4) == GetIntBE(s[4..8], 0) && GetIntBE(s, 8) == GetIntBE(s[8..12], 0);
    assert GetShortBE(s, 12) == GetShortBE(s[12..14], 0) && GetShortBE(s, 14) == GetShortBE(s[14..16], 0);
  }

  /** Encoding the entry decoded from 16 bytes gives those bytes back. */
  lemma EntryBytesOfDecode(s: seq<byte>, at: nat)
    requires at + ENTRY_SIZE <= |s|
    ensures EntryBytes(DecodeEntry(s, at)) == s[at..at + ENTRY_SIZE]
  {
    IntBEOfBytes(s, at);
    IntBEOfBytes(s, at + 4);
    IntBEOfBytes(s, at + 8);
    ShortBEOfBytes(s, at + 12);
    ShortBEOfBytes(s, at + 14);
    assert s[at..at + ENTRY_SIZE] ==
      s[at..at + 4] + s[at + 4..at + 8] + s[at + 8..at + 12] + s[at + 12..at + 14] + s[at + 14..at + 16];
  }

  /** How many bytes of an entry `getBytes` puts into `room` bytes: whole fields while they fit. */
  function FieldsFitting(room: int): (n: nat)
    ensures n <= ENTRY_SIZE && (room >= 0 ==> n <= room)
    ensures n == ENTRY_SIZE <==> room >= ENTRY_SIZE
  {
    if room >= 16 then 16 else if room >= 14 then 14 else if room >= 12 then 12
    else if room >= 8 then 8 else if room >= 4 then 4 else 0
  }

  /** d with the bytes v written from pos on. */
  function Overlay(d: seq<byte>, pos: nat, v: seq<byte>): (r: seq<byte>)
    requires pos + |v| <= |d|
    ensures |r| == |d|
  {
    d[..pos] + v + d[pos + |v|..]
  }

  /** Writing a, then b right after it, is writing a + b. */
  lemma OverlayThen(d: seq<byte>, pos: nat, a: seq<byte>, b: seq<byte>)
    requires pos + |a| + |b| <= |d|
    ensures Overlay(Overlay(d, pos, a), pos + |a|, b) == Overlay(d, pos, a + b)
  {
    var r := Overlay(Overlay(d, pos, a), pos + |a|, b);
    forall k | 0 <= k < |d| ensures r[k] == Overlay(d, pos, a + b)[k] {
    }
  }

  /**
   * `ByteBuffer.put…` of `v` at `pos` in a window ending at `lim`: the bytes
   * are written when they all fit, and the call reports an overflow otherwise.
   */
  method Put(buf: array<byte>, pos: nat, lim: nat, v: seq<byte>) returns (ok: bool)
    requires lim <= buf.Length
    modifies buf
    ensures ok == (pos + |v| <= lim)
    ensures ok ==> buf[..] == Overlay(old(buf[..]), pos, v)
    ensures !ok ==> buf[..] == old(buf[..])
  {
    ok := pos + |v| <= lim;
    if ok {
      forall k | 0 <= k < |v| {
        buf[pos + k] := v[k];
      }
      assert buf[..] == Overlay(old(buf[..]), pos, v);
    }
  }

  /**
   * `MpEntry.getBytes` into the window [pos, lim) of buf: each field is put in
   * turn; true when all 16 bytes fit, false at the first field that does not
   * (the fields before it stay written).
   */
  method GetBytes(e: MpEntry, buf: array<byte>, pos: nat, lim: nat) returns (ok: bool)
    requires ValidEntry(e) && pos <= lim <= buf.Length
    modifies buf
    ensures ok == (pos + ENTRY_SIZE <= lim)
    ensures buf[..] == Overlay(old(buf[..]), pos, EntryBytes(e)[..FieldsFitting(lim - pos)])
  {
    ghost var d := buf[..];
    var s := EntryBytes(e);
    assert buf[..] == Overlay(d, pos, s[..0]);
    var f0, f1, f2, f3, f4 := PutIntBE(e.attrib), PutIntBE(e.size), PutIntBE(e.offset), PutShortBE(e.dep1), PutShortBE(e.dep2);
    assert s[..4] == f0 && s[..8] == f0 + f1 && s[..12] == f0 + f1 + f2 && s[..14] == f0 + f1 + f2 + f3 && s[..16] == s;
    ok := Put(buf, pos, lim, f0);
    if !ok { return; }
    ok := Put(buf, pos + 4, lim, f1);
    if !ok { return; }
    OverlayThen(d, pos, f0, f1);
    ok := Put(buf, pos + 8, lim, f2);
    if !ok { return; }
    OverlayThen(d, pos, f0 + f1, f2);
    ok := Put(buf, pos + 12, lim, f3);
    if !ok { return; }
    OverlayThen(d, pos, f0 + f1 + f2, f3);
    ok := Put(buf, pos + 14, lim, f4);
    if !ok { return; }
    OverlayThen(d, pos, f0 + f1 + f2 + f3, f4);
  }

  // ---- the MP Entry tag's value ----

  /** The bytes of entries laid end to end, 16 per entry. */
  function EntriesBytes(es: seq<MpEntry>): (s: seq<byte>)
    requires forall i :: 0 <= i < |es| ==> ValidEntry(es[i])
    ensures |s| == ENTRY_SIZE * |es| && |s| % ENTRY_SIZE == 0
  {
    if es == [] then [] else EntriesBytes(es[..|es| - 1]) + EntryBytes(es[|es| - 1])
  }

  /** Entry i of a list occupies bytes 16i to 16i + 16 of its encoding. */
  lemma {:induction false} EntriesBytesAt(es: seq<MpEntry>, i: nat)
    requires forall j :: 0 <= j < |es| ==> ValidEntry(es[j])
    requires i < |es|
    ensures EntriesBytes(es)[ENTRY_SIZE * i..ENTRY_SIZE * i + ENTRY_SIZE] == EntryBytes(es[i])
  {
    var last := |es| - 1;
    var pre := EntriesBytes(es[..last]);
    if i < last {
      EntriesBytesAt(es[..last], i);
      assert EntriesBytes(es)[ENTRY_SIZE * i..ENTRY_SIZE * i + ENTRY_SIZE] == pre[ENTRY_SIZE * i..ENTRY_SIZE * i + ENTRY_SIZE];
    } else {
      assert EntriesBytes(es)[ENTRY_SIZE * i..] == EntryBytes(es[i]);
    }
  }

  /** The entries read back from bytes whose length is a multiple of 16. */
  function DecodeAll(b: seq<byte>): (es: seq<MpEntry>)
    requires |b| % ENTRY_SIZE == 0
    ensures |es| == |b| / ENTRY_SIZE
    ensures forall i :: 0 <= i < |es| ==> ValidEntry(es[i]) && es[i] == DecodeEntry(b, ENTRY_SIZE * i)
  {
    seq(|b| / ENTRY_SIZE, i requires 0 <= i < |b| / ENTRY_SIZE => DecodeEntry(b, ENTRY_SIZE * i))
  }

  /** An entry read at `at` is the entry read from the 16 bytes there. */
  lemma DecodeEntryWindow(b: seq<byte>, at: nat)
    requires at + ENTRY_SIZE <= |b|
    ensures DecodeEntry(b, at) == DecodeEntry(b[at..at + ENTRY_SIZE], 0)
  {
    var w := b[at..at + ENTRY_SIZE];
    assert w[0] == b[at] && w[1] == b[at + 1] && w[2] == b[at + 2] && w[3] == b[at + 3];
    assert w[4] == b[at + 4] && w[5] == b[at + 5] && w[6] == b[at + 6] && w[7] == b[at + 7];
    assert w[8] == b[at + 8] && w[9] == b[at + 9] && w[10] == b[at + 10] && w[11] == b[at + 11];
    assert w[12] == b[at + 12] && w[13] == b[at + 13] && w[14] == b[at + 14] && w[15] == b[at + 15];
  }

  /** Entry i read back from the encoding of a list. */
  lemma EntryAtRoundTrip(es: seq<MpEntry>, i: nat)
    requires forall j :: 0 <= j < |es| ==> ValidEntry(es[j])
    requires i < |es|
    ensures ENTRY_SIZE * i + ENTRY_SIZE <= |EntriesBytes(es)| && DecodeEntry(EntriesBytes(es), ENTRY_SIZE * i) == es[i]
  {
    EntriesBytesAt(es, i);
    EntryRoundTrip(es[i]);
    DecodeEntryWindow(EntriesBytes(es), ENTRY_SIZE * i);
  }

  /** Decoding the encoding of a list of entries gives the list back. */
  lemma EntriesRoundTrip(es: seq<MpEntry>)
    requires forall i :: 0 <= i < |es| ==> ValidEntry(es[i])
    ensures DecodeAll(EntriesBytes(es)) == es
  {
    var b := EntriesBytes(es);
    MulDiv(|es|, ENTRY_SIZE);
    var r := DecodeAll(b);
    assert |r| == |es|;
    forall i | 0 <= i < |es| ensures r[i] == es[i] {
      EntryAtRoundTrip(es, i);
    }
  }

  /** Encoding the entries decoded from bytes gives the bytes back. */
  lemma DecodeAllInverse(b: seq<byte>)
    requires |b| % ENTRY_SIZE == 0
    ensures EntriesBytes(DecodeAll(b)) == b
  {
    var es := DecodeAll(b);
    var r := EntriesBytes(es);
    forall k | 0 <= k < |b| ensures r[k] == b[k] {
      var i := k / ENTRY_SIZE;
      EntriesBytesAt(es, i);
      EntryBytesOfDecode(b, ENTRY_SIZE * i);
      assert r[k] == r[ENTRY_SIZE * i..ENTRY_SIZE * i + ENTRY_SIZE][k - ENTRY_SIZE * i];
      assert b[k] == b[ENTRY_SIZE * i..ENTRY_SIZE * i + ENTRY_SIZE][k - ENTRY_SIZE * i];
    }
  }

  /**
   * The loop of `setValue(List<MpEntry>)`: a byte array of 16 bytes per entry,
   * each entry put through `getBytes` into its own 16-byte window.
   */
  method EncodeEntries(es: seq<MpEntry>) returns (b: seq<byte>)
    requires forall i :: 0 <= i < |es| ==> ValidEntry(es[i])
    ensures b == EntriesBytes(es) && |b| == ENTRY_SIZE * |es|
  {
    var a := new byte[ENTRY_SIZE * |es|];
    for i := 0 to |es|
      invariant a[..ENTRY_SIZE * i] == EntriesBytes(es[..i])
    {
      var pos := ENTRY_SIZE * i;
      ghost var before := a[..];
      var ok := GetBytes(es[i], a, pos, pos + ENTRY_SIZE);
      assert es[..i + 1][..i] == es[..i];
      assert EntryBytes(es[i])[..ENTRY_SIZE] == EntryBytes(es[i]);
      assert a[..pos + ENTRY_SIZE] == before[..pos] + EntryBytes(es[i]);
    }
    assert es[..|es|] == es;
    b := a[..];
  }

  /** What `getMpEntryValue` gives back. */
  datatype EntryList = NotEntryTag | Malformed | Entries(entries: seq<MpEntry>)

  /**
   * `getMpEntryValue`: null (NotEntryTag) for another tag; the entries read
   * 16 bytes at a time otherwise. A value that is not bytes, or whose length
   * is not a multiple of 16, makes the source throw (`ByteBuffer.wrap` past
   * the end): Malformed.
   */
  method GetMpEntryValue(t: Tag) returns (r: EntryList)
    ensures t.id != TAG_MP_ENTRY ==> r == NotEntryTag
    ensures t.id == TAG_MP_ENTRY && t.value.Bytes? && |t.value.bytes| % ENTRY_SIZE == 0 ==>
      r == Entries(DecodeAll(t.value.bytes))
    ensures t.id == TAG_MP_ENTRY && !(t.value.Bytes? && |t.value.bytes| % ENTRY_SIZE == 0) ==> r == Malformed
  {
    if t.id != TAG_MP_ENTRY {
      return NotEntryTag;
    }
    if !t.value.Bytes? {
      return Malformed;
    }
    var b := t.value.bytes;
    var es: seq<MpEntry> := [];
    var i := 0;
    while i < |b|
      invariant i % ENTRY_SIZE == 0 && i <= |b| + ENTRY_SIZE - 1
      invariant i <= |b| ==> |es| == i / ENTRY_SIZE
      invariant forall j :: 0 <= j < |es| ==> ENTRY_SIZE * j + ENTRY_SIZE <= |b| && es[j] == DecodeEntry(b, ENTRY_SIZE * j)
      invariant i <= |b|
    {
      if i + ENTRY_SIZE > |b| {
        return Malformed;
      }
      es := es + [DecodeEntry(b, i)];
      i := i + ENTRY_SIZE;
    }
    if |b| % ENTRY_SIZE != 0 {
      return Malformed;
    }
    r := Entries(es);
  }

  /**
   * `setValue(List<MpEntry>)`: false (None) for another tag than MP Entry;
   * otherwise the tag's value becomes the encoded entries, when the tag takes
   * bytes.
   */
  method SetEntries(t: Tag, es: seq<MpEntry>) returns (r: Option<Tag>)
    requires forall i :: 0 <= i < |es| ==> ValidEntry(es[i])
    ensures t.id != TAG_MP_ENTRY ==> r == None
    ensures t.id == TAG_MP_ENTRY ==> r == SetBytes(t, EntriesBytes(es))
  {
    if t.id != TAG_MP_ENTRY {
      return None;
    }
    var b := EncodeEntries(es);
    r := SetBytes(t, b);
  }

  /** Setting a list of entries and reading it back gives the list. */
  lemma SetThenGetEntries(t: Tag, es: seq<MpEntry>)
    requires forall i :: 0 <= i < |es| ==> ValidEntry(es[i])
    requires t.id == TAG_MP_ENTRY && t.value.Bytes?
    ensures SetBytes(t, EntriesBytes(es)).Some?
    ensures var u := SetBytes(t, EntriesBytes(es)).value;
      u.value.Bytes? && |u.value.bytes| % ENTRY_SIZE == 0 && DecodeAll(u.value.bytes) == es && DataSize(u) == ENTRY_SIZE * |es|
  {
    EntriesRoundTrip(es);
  }
}
