/**
 * Fixed-width integers and the byte layouts that Python's `struct` module
 * produces for them on a little-endian host.
 */
module Bytes {

  type byte = x: int | 0 <= x < 0x100
  type int8 = x: int | -0x80 <= x < 0x80
  type uint16 = x: int | 0 <= x < 0x1_0000
  type int16 = x: int | -0x8000 <= x < 0x8000
  type uint64 = x: int | 0 <= x < 0x1_0000_0000_0000_0000

  /** Two's-complement bits of a signed byte (`struct` format `b`). */
  function Int8Bits(x: int8): (b: byte)
    ensures x >= 0 ==> b == x
    ensures x < 0 ==> b == x + 0x100
  {
    x % 0x100
  }

  /** The signed byte a stored byte denotes (`struct` format `b`). */
  function Int8Of(b: byte): (x: int8)
    ensures Int8Bits(x) == b
  {
    if b < 0x80 then b else b - 0x100
  }

  lemma Int8RoundTrip(x: int8)
    ensures Int8Of(Int8Bits(x)) == x
  {
  }

  /** Two's-complement bits of a signed 16-bit value (`struct` format `h`). */
  function Int16Bits(x: int16): (u: uint16)
    ensures x >= 0 ==> u == x
    ensures x < 0 ==> u == x + 0x1_0000
  {
    x % 0x1_0000
  }

  /** The signed 16-bit value some bits denote (`struct` format `h`). */
  function Int16Of(u: uint16): (x: int16)
    ensures Int16Bits(x) == u
  {
    if u < 0x8000 then u else u - 0x1_0000
  }

  /** Little-endian layout of a 16-bit value: low byte first. */
  function LittleEndian16(x: uint16): (r: seq<byte>)
    ensures |r| == 2 && (r[1] as int) * 0x100 + r[0] == x
  {
    [x % 0x100, x / 0x100]
  }

  /** The 16-bit value stored little-endian in two bytes. */
  function ReadLittleEndian16(lo: byte, hi: byte): (x: uint16)
    ensures LittleEndian16(x) == [lo, hi]
  {
    hi * 0x100 + lo
  }

  /** Exchanges the two bytes of a 16-bit value. */
  function Swap16(x: uint16): (r: uint16)
    ensures r % 0x100 == x / 0x100 && r / 0x100 == x % 0x100
  {
    (x % 0x100) * 0x100 + x / 0x100
  }

  lemma Swap16Involution(x: uint16)
    ensures Swap16(Swap16(x)) == x
  {
  }

  /** `256^n`. */
  function Pow256(n: nat): (p: nat)
    ensures p >= 1
  {
    if n == 0 then 1 else 0x100 * Pow256(n - 1)
  }

  /** The `n` low-order bytes of `x`, least significant first. */
  function LittleEndianN(x: nat, n: nat): (r: seq<byte>)
    ensures |r| == n
  {
    if n == 0 then [] else [x % 0x100] + LittleEndianN(x / 0x100, n - 1)
  }

  /** The number stored little-endian in `b`. */
  function ReadLittleEndianN(b: seq<byte>): (x: nat)
    ensures x < Pow256(|b|)
  {
    if |b| == 0 then 0 else b[0] + 0x100 * ReadLittleEndianN(b[1..])
  }

  lemma {:induction false} LittleEndianNRoundTrip(x: nat, n: nat)
    requires x < Pow256(n)
    ensures ReadLittleEndianN(LittleEndianN(x, n)) == x
  {
    if n > 0 {
      var q := x / 0x100;
      assert q < Pow256(n - 1);
      LittleEndianNRoundTrip(q, n - 1);
      var r := LittleEndianN(x, n);
      assert r[1..] == LittleEndianN(q, n - 1);
    }
  }

  /** Reading `b` and laying the number out again in |b| bytes gives `b` back. */
  lemma {:induction false} ReadLittleEndianNEncodes(b: seq<byte>)
    ensures LittleEndianN(ReadLittleEndianN(b), |b|) == b
  {
    if |b| > 0 {
      var rest := ReadLittleEndianN(b[1..]);
      ReadLittleEndianNEncodes(b[1..]);
      var x := b[0] + 0x100 * rest;
      assert x % 0x100 == b[0] && x / 0x100 == rest;
      assert LittleEndianN(x, |b|) == [b[0]] + b[1..];
    }
  }
}
