// Bytes, fixed-width integers and the byte orders used by the camera's record
// parsers and writers, written out explicitly because Dafny integers are unbounded.
module Bytes {
  import opened Arith

  type byte = x: int | 0 <= x < 256

  datatype Option<T> = None | Some(value: T)

  const TWO16: int := 0x1_0000
  const TWO32: int := 0x1_0000_0000

  predicate IsInt32(x: int) { -0x8000_0000 <= x < 0x8000_0000 }
  predicate IsInt16(x: int) { -0x8000 <= x < 0x8000 }

  /** Two's-complement truncation to 32 bits (Java `int` wrap-around). */
  function Int32(x: int): (r: int)
    ensures IsInt32(r)
    ensures IsInt32(x) ==> r == x
  {
    (x + 0x8000_0000) % TWO32 - 0x8000_0000
  }

  /** Truncation to 32 bits differs from its argument by a multiple of 2^32. */
  lemma Int32Residue(x: int)
    ensures (x - Int32(x)) % TWO32 == 0
  {
    var y := x + 0x8000_0000;
    assert x - Int32(x) == TWO32 * (y / TWO32);
    MulDiv(y / TWO32, TWO32);
  }

  /** Adding a multiple of 2^32 does not change the residue. */
  lemma ModShift(y: int, k: int)
    ensures (y + k * TWO32) % TWO32 == y % TWO32
  {
    assert y + k * TWO32 == (y / TWO32 + k) * TWO32 + y % TWO32;
    DivModOf(y / TWO32 + k, y % TWO32, TWO32);
  }

  /** Java int addition wraps the same whether or not an operand was wrapped first. */
  lemma Int32Add(a: int, b: int)
    ensures Int32(Int32(a) + b) == Int32(a + b)
  {
    Int32Residue(a);
    var k := (a - Int32(a)) / TWO32;
    assert a - Int32(a) == k * TWO32;
    ModShift(Int32(a) + b, k);
    assert Int32(a) + b + k * TWO32 == a + b;
  }

  /** Two's-complement truncation to 16 bits (Java `short`). */
  function Int16(x: int): (r: int)
    ensures IsInt16(r)
    ensures (x - r) % TWO16 == 0
    ensures IsInt16(x) ==> r == x
  {
    var m := x % TWO16;
    if m >= 0x8000 then m - TWO16 else m
  }

  /** Java's `/` on int: truncates toward zero. */
  function JavaDiv(a: int, b: int): (q: int)
    requires b != 0
    ensures a >= 0 && b > 0 ==> q == a / b
  {
    if (a >= 0) == (b > 0) then (if a >= 0 then a / b else (-a) / (-b))
    else -((if a >= 0 then a else -a) / (if b > 0 then b else -b))
  }

  /** Java's `%` on int: the remainder takes the sign of the dividend. */
  function JavaRem(a: int, b: int): (r: int)
    requires b != 0
    ensures a == JavaDiv(a, b) * b + r
    ensures a >= 0 ==> 0 <= r < (if b > 0 then b else -b)
    ensures a < 0 ==> -(if b > 0 then b else -b) < r <= 0
  {
    var q := JavaDiv(a, b);
    var r := a - q * b;
    assert a >= 0 && b > 0 ==> r == a % b;
    assert a >= 0 && b < 0 ==> r == a % (-b);
    assert a < 0 && b > 0 ==> r == -((-a) % b);
    assert a < 0 && b < 0 ==> r == -((-a) % (-b));
    r
  }

  /** Unsigned value of four bytes, most significant first. */
  function U32BE(b0: byte, b1: byte, b2: byte, b3: byte): (v: int)
    ensures 0 <= v < TWO32
  {
    b0 * 0x100_0000 + b1 * 0x1_0000 + b2 * 0x100 + b3
  }

  /** `ByteBuffer.getInt` in big-endian order. */
  function GetIntBE(s: seq<byte>, at: nat): (v: int)
    requires at + 4 <= |s|
    ensures IsInt32(v)
  {
    Int32(U32BE(s[at], s[at + 1], s[at + 2], s[at + 3]))
  }

  /** `ByteBuffer.getInt` in little-endian order. */
  function GetIntLE(s: seq<byte>, at: nat): (v: int)
    requires at + 4 <= |s|
    ensures IsInt32(v)
  {
    Int32(U32BE(s[at + 3], s[at + 2], s[at + 1], s[at]))
  }

  /** `ByteBuffer.getShort` in big-endian order. */
  function GetShortBE(s: seq<byte>, at: nat): (v: int)
    requires at + 2 <= |s|
    ensures IsInt16(v)
  {
    Int16((s[at] as int) * 0x100 + s[at + 1])
  }

  /** `ByteBuffer.getShort` in little-endian order. */
  function GetShortLE(s: seq<byte>, at: nat): (v: int)
    requires at + 2 <= |s|
    ensures IsInt16(v)
  {
    Int16((s[at + 1] as int) * 0x100 + s[at])
  }

  /** `ByteBuffer.putInt` in big-endian order. */
  function PutIntBE(v: int): (s: seq<byte>)
    requires IsInt32(v)
    ensures |s| == 4
  {
    var u := v % TWO32;
    var a := u / 0x100;
    var b := a / 0x100;
    [b / 0x100, b % 0x100, a % 0x100, u % 0x100]
  }

  /** `ByteBuffer.putShort` in big-endian order. */
  function PutShortBE(v: int): (s: seq<byte>)
    requires IsInt16(v)
    ensures |s| == 2
  {
    var u := v % TWO16;
    [u / 0x100, u % 0x100]
  }

  lemma IntBERoundTrip(v: int)
    requires IsInt32(v)
    ensures GetIntBE(PutIntBE(v), 0) == v
  {
    var u := v % TWO32;
    var a := u / 0x100;
    var b := a / 0x100;
    assert u == a * 0x100 + u % 0x100;
    assert a == b * 0x100 + a % 0x100;
    assert b == (b / 0x100) * 0x100 + b % 0x100;
    assert U32BE(b / 0x100, b % 0x100, a % 0x100, u % 0x100) == u;
    assert v >= 0 ==> u == v;
    assert v < 0 ==> u == v + TWO32;
    assert u % TWO32 == u;
  }

  lemma ShortBERoundTrip(v: int)
    requires IsInt16(v)
    ensures GetShortBE(PutShortBE(v), 0) == v
  {
  }

  /** The two's-complement value of four bytes, written back, gives the same four bytes. */
  lemma IntBEOfBytes(s: seq<byte>, at: nat)
    requires at + 4 <= |s|
    ensures PutIntBE(GetIntBE(s, at)) == s[at..at + 4]
  {
    var b0: int, b1: int, b2: int, b3: int := s[at], s[at + 1], s[at + 2], s[at + 3];
    var u := U32BE(b0, b1, b2, b3);
    assert GetIntBE(s, at) % TWO32 == u;
    var a: int := b0 * 0x1_0000 + b1 * 0x100 + b2;
    var b: int := b0 * 0x100 + b1;
    DivModOf(a, b3, 0x100);
    DivModOf(b, b2, 0x100);
    DivModOf(b0, b1, 0x100);
    assert u == a * 0x100 + b3;
    assert a == b * 0x100 + b2;
  }

  /** Two bytes read as a short and written back are the same two bytes. */
  lemma ShortBEOfBytes(s: seq<byte>, at: nat)
    requires at + 2 <= |s|
    ensures PutShortBE(GetShortBE(s, at)) == s[at..at + 2]
  {
    var u := (s[at] as int) * 0x100 + s[at + 1];
    assert GetShortBE(s, at) % TWO16 == u;
    DivModOf(s[at], s[at + 1], 0x100);
  }

  /** `putInt` in little-endian order: the big-endian bytes reversed. */
  function PutIntLE(v: int): (s: seq<byte>)
    requires IsInt32(v)
    ensures |s| == 4
  {
    var b := PutIntBE(v);
    [b[3], b[2], b[1], b[0]]
  }

  /** `putShort` in little-endian order. */
  function PutShortLE(v: int): (s: seq<byte>)
    requires IsInt16(v)
    ensures |s| == 2
  {
    var b := PutShortBE(v);
    [b[1], b[0]]
  }

  /** A Java int written in the given byte order. */
  function PutInt(v: int, bigEndian: bool): (s: seq<byte>)
    requires IsInt32(v)
    ensures |s| == 4
  {
    if bigEndian then PutIntBE(v) else PutIntLE(v)
  }

  /** A Java short written in the given byte order. */
  function PutShort(v: int, bigEndian: bool): (s: seq<byte>)
    requires IsInt16(v)
    ensures |s| == 2
  {
    if bigEndian then PutShortBE(v) else PutShortLE(v)
  }

  /** A Java int read back in the given byte order. */
  function GetInt(s: seq<byte>, at: nat, bigEndian: bool): (v: int)
    requires at + 4 <= |s|
    ensures IsInt32(v)
  {
    if bigEndian then GetIntBE(s, at) else GetIntLE(s, at)
  }

  /** Reading back an int written in either byte order gives the int. */
  lemma IntRoundTrip(v: int, bigEndian: bool)
    requires IsInt32(v)
    ensures GetInt(PutInt(v, bigEndian), 0, bigEndian) == v
  {
    IntBERoundTrip(v);
  }
}
