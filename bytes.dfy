/**
  Bytes: the octet type the reader works on, powers of two, and the
  little-endian two's-complement layout of the fixed-width integers that
  `BinaryReader.read_int16` and `BinaryReader.read_int32` unpack.
 */
module Bytes {

  /** One octet of the underlying stream. */
  newtype byte = x: int | 0 <= x < 256

  function Pow2(n: nat): (r: nat)
    ensures r >= 1
  {
    if n == 0 then 1 else 2 * Pow2(n - 1)
  }

  /** `x << n` on Python's unbounded non-negative integers. */
  function Shl(x: nat, n: nat): nat
  {
    x * Pow2(n)
  }

  lemma MulMonotone(p: nat, c: nat, q: nat)
    requires p <= c
    ensures p * q <= c * q
  {
  }

  lemma MulShift(p: int, q: int)
    ensures p * (128 * q) == 128 * (p * q)
  {
  }

  lemma {:induction false} Pow2Add(a: nat, b: nat)
    ensures Pow2(a + b) == Pow2(a) * Pow2(b)
  {
    if a > 0 {
      Pow2Add(a - 1, b);
      assert Pow2(a + b) == 2 * Pow2(a - 1 + b);
    }
  }

  /** The powers the fixed-width reads and the varint bound need. */
  lemma Pow2Values()
    ensures Pow2(7) == 0x80 && Pow2(8) == 0x100
    ensures Pow2(15) == 0x8000 && Pow2(16) == 0x1_0000
    ensures Pow2(31) == 0x8000_0000 && Pow2(32) == 0x1_0000_0000
  {
    assert Pow2(8) == 0x100;
    Pow2Add(8, 8);
    Pow2Add(16, 15);
    Pow2Add(16, 16);
  }

  /** Each further octet scales a little-endian number by 2^8. */
  lemma Pow2NextByte(k: nat)
    ensures Pow2(8 * (k + 1)) == 256 * Pow2(8 * k)
  {
    Pow2Add(8 * k, 8);
  }

  /** The sign bit of a width-byte number splits its range in two halves. */
  lemma Pow2SignBit(width: nat)
    requires width > 0
    ensures Pow2(8 * width) == 2 * Pow2(8 * width - 1)
  {
  }

  /** Unsigned value of a little-endian octet sequence: byte i has weight 2^(8*i). */
  function LittleEndian(bs: seq<byte>): (u: nat)
    ensures u < Pow2(8 * |bs|)
  {
    if bs == [] then 0
    else
      Pow2NextByte(|bs| - 1);
      bs[0] as nat + 256 * LittleEndian(bs[1..])
  }

  /** The width octets that store u, least significant first. */
  function UnsignedBytes(u: nat, width: nat): (bs: seq<byte>)
    requires u < Pow2(8 * width)
    ensures |bs| == width
  {
    if width == 0 then []
    else
      Pow2NextByte(width - 1);
      [(u % 256) as byte] + UnsignedBytes(u / 256, width - 1)
  }

  lemma {:induction false} LittleEndianOfUnsignedBytes(u: nat, width: nat)
    requires u < Pow2(8 * width)
    ensures LittleEndian(UnsignedBytes(u, width)) == u
  {
    if width > 0 {
      Pow2NextByte(width - 1);
      LittleEndianOfUnsignedBytes(u / 256, width - 1);
      var bs := UnsignedBytes(u, width);
      assert bs[1..] == UnsignedBytes(u / 256, width - 1);
    }
  }

  lemma {:induction false} UnsignedBytesOfLittleEndian(bs: seq<byte>)
    ensures UnsignedBytes(LittleEndian(bs), |bs|) == bs
  {
    if bs != [] {
      var u := LittleEndian(bs);
      Pow2NextByte(|bs| - 1);
      assert u % 256 == bs[0] as int && u / 256 == LittleEndian(bs[1..]);
      UnsignedBytesOfLittleEndian(bs[1..]);
    }
  }

  /** Two's-complement reading of a little-endian octet sequence. */
  function Signed(bs: seq<byte>): (v: int)
    requires |bs| > 0
    ensures -(Pow2(8 * |bs| - 1) as int) <= v < Pow2(8 * |bs| - 1)
    ensures v >= 0 ==> v == LittleEndian(bs)
    ensures v < 0 ==> v == LittleEndian(bs) - Pow2(8 * |bs|)
  {
    Pow2SignBit(|bs|);
    var u := LittleEndian(bs);
    if u < Pow2(8 * |bs| - 1) then u else u - Pow2(8 * |bs|)
  }

  /** The width octets that store v in two's complement, least significant first. */
  function SignedBytes(v: int, width: nat): (bs: seq<byte>)
    requires width > 0
    requires -(Pow2(8 * width - 1) as int) <= v < Pow2(8 * width - 1)
    ensures |bs| == width
  {
    Pow2SignBit(width);
    UnsignedBytes(if v < 0 then v + Pow2(8 * width) else v, width)
  }

  lemma SignedOfSignedBytes(v: int, width: nat)
    requires width > 0
    requires -(Pow2(8 * width - 1) as int) <= v < Pow2(8 * width - 1)
    ensures Signed(SignedBytes(v, width)) == v
  {
    Pow2SignBit(width);
    LittleEndianOfUnsignedBytes(if v < 0 then v + Pow2(8 * width) else v, width);
  }

  lemma SignedBytesOfSigned(bs: seq<byte>)
    requires |bs| > 0
    ensures SignedBytes(Signed(bs), |bs|) == bs
  {
    Pow2SignBit(|bs|);
    UnsignedBytesOfLittleEndian(bs);
  }

  /** The two octets `struct.pack` writes for a 16-bit signed v (little-endian). */
  function Int16Bytes(v: int): (bs: seq<byte>)
    requires -0x8000 <= v <= 0x7FFF
    ensures |bs| == 2
  {
    Pow2Values();
    SignedBytes(v, 2)
  }

  /** The four octets `struct.pack` writes for a 32-bit signed v (little-endian). */
  function Int32Bytes(v: int): (bs: seq<byte>)
    requires -0x8000_0000 <= v <= 0x7FFF_FFFF
    ensures |bs| == 4
  {
    Pow2Values();
    SignedBytes(v, 4)
  }
}
