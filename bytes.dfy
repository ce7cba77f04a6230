/**
 * Casts between bytes and their unsigned values. The int-to-byte
 * direction is proved through the byte built from the value's two
 * hexadecimal digits.
 */
module ByteCasts {
  /** The bytes holding the hexadecimal digits, in order. */
  const NIBBLES: seq<bv8> := [0, 1, 2, 3, 4, 5, 6, 7, 8, 9, 10, 11, 12, 13, 14, 15]

  /** The byte whose unsigned value is d: high digit, then low digit. */
  function ByteOf(d: int): bv8
    requires 0 <= d < 256
  {
    (NIBBLES[d / 16] << 4) | NIBBLES[d % 16]
  }

  lemma {:induction false} NibbleValue(n: int)
    requires 0 <= n < 16
    ensures |NIBBLES| == 16 && NIBBLES[n] as int == n && NIBBLES[n] < 16
  {
  }

  /** A byte survives the trip through its integer value. */
  lemma {:induction false} IntOfByte(b: bv8)
    ensures (b as int) as bv8 == b
  {
  }

  /** A value below 256 survives the trip through a byte, because the cast yields the byte of its two digits. */
  lemma {:induction false} ByteOfInt(x: int)
    requires 0 <= x < 256
    ensures (x as bv8) as int == x
  {
    NibbleValue(x / 16);
    NibbleValue(x % 16);
    assert ByteOf(x) as int == x;
    IntOfByte(ByteOf(x));
  }
}

/**
 * Bytes and fixed-width integers as the code buffer sees them: unsigned
 * bytes, the signed 32- and 64-bit values the emitters write, their
 * little-endian byte images, and the `(int32_t)` truncating cast.
 */
module Bytes {
  import opened ByteCasts

  /** `uint8_t`: eight bits, with C's wrap-around on `+` and its bitwise operators. */
  type Byte = bv8

  const TWO_31: int := 0x8000_0000
  const TWO_32: int := 0x1_0000_0000
  const TWO_63: int := 0x8000_0000_0000_0000
  const TWO_64: int := 0x1_0000_0000_0000_0000

  /** `int32_t`. */
  type Int32 = x: int | -0x8000_0000 <= x < 0x8000_0000

  /** `int64_t` (also the `immediate` type). */
  type Int64 = x: int | -0x8000_0000_0000_0000 <= x < 0x8000_0000_0000_0000

  function Pow256(n: nat): (p: nat)
    ensures p > 0
  {
    if n == 0 then 1 else 256 * Pow256(n - 1)
  }

  lemma {:induction false} Pow256Widths()
    ensures Pow256(4) == TWO_32 && Pow256(8) == TWO_64
  {
    assert Pow256(2) == 65536;
    assert Pow256(4) == 65536 * 65536;
    assert Pow256(8) == Pow256(4) * Pow256(4);
  }

  lemma {:induction false} DigitSplit(d: int, rest: nat)
    requires 0 <= d < 256
    ensures (d + 256 * rest) % 256 == d && (d + 256 * rest) / 256 == rest
  {
  }

  /** The n low-order bytes of u, least significant first. */
  function ToLittleEndian(u: nat, n: nat): (r: seq<Byte>)
    ensures |r| == n
  {
    if n == 0 then [] else [(u % 256) as Byte] + ToLittleEndian(u / 256, n - 1)
  }

  /** The unsigned value of a little-endian byte string. */
  function FromLittleEndian(b: seq<Byte>): (u: nat)
    ensures u < Pow256(|b|)
  {
    if b == [] then 0 else b[0] as int + 256 * FromLittleEndian(b[1..])
  }

  lemma {:induction false} FromToLittleEndian(u: nat, n: nat)
    requires u < Pow256(n)
    ensures FromLittleEndian(ToLittleEndian(u, n)) == u
  {
    if n > 0 {
      FromToLittleEndian(u / 256, n - 1);
      ByteOfInt(u % 256);
      assert ToLittleEndian(u, n)[1..] == ToLittleEndian(u / 256, n - 1);
    }
  }

  lemma {:induction false} ToFromLittleEndian(b: seq<Byte>)
    ensures ToLittleEndian(FromLittleEndian(b), |b|) == b
  {
    if b != [] {
      ToFromLittleEndian(b[1..]);
      var u, rest := FromLittleEndian(b), FromLittleEndian(b[1..]);
      assert u == b[0] as int + 256 * rest;
      DigitSplit(b[0] as int, rest);
      IntOfByte(b[0]);
      assert ToLittleEndian(u, |b|) == [(u % 256) as Byte] + ToLittleEndian(rest, |b| - 1);
      assert b == [b[0]] + b[1..];
    }
  }

  /** `(int32_t) x`: the unique int32 congruent to x modulo 2^32. */
  function Wrap32(x: int): (r: Int32)
    ensures (r - x) % TWO_32 == 0
    ensures -TWO_31 <= x < TWO_31 ==> r == x
  {
    (x + TWO_31) % TWO_32 - TWO_31
  }

  /** The four bytes `*(int32_t*)p = v` writes on a little-endian machine. */
  function LE32(v: Int32): (r: seq<Byte>)
    ensures |r| == 4
  {
    ToLittleEndian(if v < 0 then v + TWO_32 else v, 4)
  }

  /** The int32 that four little-endian bytes hold (two's complement). */
  function Decode32(b: seq<Byte>): (v: Int32)
    requires |b| == 4
    ensures LE32(v) == b
  {
    Pow256Widths();
    ToFromLittleEndian(b);
    var u := FromLittleEndian(b);
    if u < TWO_31 then u else u - TWO_32
  }

  lemma {:induction false} Decode32LE32(v: Int32)
    ensures Decode32(LE32(v)) == v
  {
    Pow256Widths();
    FromToLittleEndian(if v < 0 then v + TWO_32 else v, 4);
  }

  /** The eight bytes `*(int64_t*)p = v` writes on a little-endian machine. */
  function LE64(v: Int64): (r: seq<Byte>)
    ensures |r| == 8
  {
    ToLittleEndian(if v < 0 then v + TWO_64 else v, 8)
  }

  /** The int64 that eight little-endian bytes hold (two's complement). */
  function Decode64(b: seq<Byte>): (v: Int64)
    requires |b| == 8
    ensures LE64(v) == b
  {
    Pow256Widths();
    ToFromLittleEndian(b);
    var u := FromLittleEndian(b);
    if u < TWO_63 then u else u - TWO_64
  }

  lemma {:induction false} Decode64LE64(v: Int64)
    ensures Decode64(LE64(v)) == v
  {
    Pow256Widths();
    FromToLittleEndian(if v < 0 then v + TWO_64 else v, 8);
  }

  /** Field extraction from a ModRM or SIB byte: bits 7..6, 5..3 and 2..0. */
  function High2(b: Byte): Byte { (b >> 6) & 3 }
  function Mid3(b: Byte): Byte { (b >> 3) & 7 }
  function Low3(b: Byte): Byte { b & 7 }
}
