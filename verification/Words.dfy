/** The machine's sizes: bytes, words of 16, 32 and 64 bits, and pages. */
module Words {

  const WORD16: nat := 0x1_0000
  const WORD32: nat := 0x1_0000_0000
  const WORD64: nat := 0x1_0000_0000_0000_0000
  const PAGE: nat := 4096

  type byte = b: nat | b < 256
  type half = h: nat | h < WORD16
  type word = w: nat | w < WORD32
}
