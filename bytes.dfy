/**
 * Bytes and 16-bit words as bit-vectors, and the little-endian word read used
 * by the image header and the 16-bit pixel format.
 */
module Bytes {

  /** One element of a Uint8Array / Uint8ClampedArray. */
  type Byte = bv8

  /** `lo | (hi << 8)`: the little-endian 16-bit word made of two bytes. */
  function Word(lo: Byte, hi: Byte): (w: bv16)
    ensures (w & 0xFF) as Byte == lo
    ensures (w >> 8) as Byte == hi
  {
    (lo as bv16) | ((hi as bv16) << 8)
  }

  /** `lo | (hi << 8)` read as the number it is: `lo + 256 * hi`, below 2^16. */
  function Uint16(lo: Byte, hi: Byte): (n: int)
    ensures n == lo as int + 256 * hi as int
    ensures 0 <= n < 0x10000
  {
    WordValue(lo, hi);
    Word(lo, hi) as int
  }

  /** The low byte of a 16-bit number, `n & 0xFF`. */
  function LowByte(n: int): Byte
    requires 0 <= n < 0x10000
  {
    (n % 256) as Byte
  }

  /** The high byte of a 16-bit number, `n >> 8`. */
  function HighByte(n: int): Byte
    requires 0 <= n < 0x10000
  {
    (n / 256) as Byte
  }

  /** The two bytes of a word do not overlap, so the `|` of `Word` is a sum. */
  lemma WordValue(lo: Byte, hi: Byte)
    ensures Word(lo, hi) as int == lo as int + 256 * hi as int
  {
    OrIsSum(lo, hi);
    SumValue(lo as bv16, hi as bv16);
    Widen(lo);
    Widen(hi);
  }

  lemma OrIsSum(lo: Byte, hi: Byte)
    ensures Word(lo, hi) == (lo as bv16) + (hi as bv16) * 256
  {
  }

  lemma SumValue(a: bv16, b: bv16)
    requires a < 256 && b < 256
    ensures (a + b * 256) as int == a as int + 256 * b as int
  {
  }

  lemma Widen(b: Byte)
    ensures (b as bv16) as int == b as int
  {
  }

  lemma ByteOfValue(b: Byte)
    ensures (b as int) as Byte == b
  {
  }

  /** Splitting a word read from two bytes gives the two bytes back. */
  lemma Uint16Bytes(lo: Byte, hi: Byte)
    ensures LowByte(Uint16(lo, hi)) == lo && HighByte(Uint16(lo, hi)) == hi
  {
    SplitSum(lo as int, hi as int, Uint16(lo, hi));
    ByteOfValue(lo);
    ByteOfValue(hi);
  }

  lemma SplitSum(lo: int, hi: int, n: int)
    requires 0 <= lo < 256 && n == lo + 256 * hi
    ensures n % 256 == lo && n / 256 == hi
  {
  }

  /** `b & mask` is non-zero: the flag tested by a JavaScript truthiness check. */
  predicate HasBits(b: Byte, mask: Byte)
  {
    b & mask != 0
  }
}
