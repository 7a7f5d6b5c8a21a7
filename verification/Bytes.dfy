/** Bytes as integers: a mask or shift by a constant is written as the division or remainder it equals. */
module Bytes {
  import opened Sequences

  type byte = b: int | 0 <= b < 256
  type Bytes = seq<byte>

  /** The four-byte Annex B start code. */
  const START_CODE: Bytes := [0, 0, 0, 1]

  /** Big-endian 16-bit field. */
  function Be16(n: nat): (r: Bytes)
    requires n < 0x1_0000
    ensures |r| == 2 && FromBe16(r[0], r[1]) == n
  {
    [n / 256, n % 256]
  }

  function FromBe16(hi: byte, lo: byte): nat { hi * 256 + lo }

  /** Big-endian 32-bit field. */
  function Be32(n: nat): (r: Bytes)
    requires n < 0x1_0000_0000
    ensures |r| == 4 && FromBe32(r) == n
  {
    var n1 := n / 256;
    var n2 := n1 / 256;
    [n2 / 256, n2 % 256, n1 % 256, n % 256]
  }

  function FromBe32(b: Bytes): nat
    requires |b| == 4
  {
    var b0: int, b1: int, b2: int, b3: int := b[0], b[1], b[2], b[3];
    b0 * 0x100_0000 + b1 * 0x1_0000 + b2 * 256 + b3
  }
}
