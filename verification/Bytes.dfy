/** Bytes as bounded integers, and the big-endian 16-bit fields every wire format here uses. */
module Bytes {
  type byte = x: int | 0 <= x < 256

  function Be16(hi: byte, lo: byte): int {
    256 * hi + lo
  }

  function Be32(a: byte, b: byte, c: byte, d: byte): int {
    0x1_0000 * Be16(a, b) + Be16(c, d)
  }

  /** The two bytes of a 16-bit field; longer values lose their upper part, as the source's casts do. */
  function Be16Bytes(n: nat): seq<byte> {
    [n / 256 % 256, n % 256]
  }
}
