/** The machine integers of the modelled programs. */
module Widths {
  const M32 := 0x1_0000_0000
  const M64 := 0x1_0000_0000_0000_0000

  type Byte = b: nat | b < 256
  type Word = w: nat | w < 0x1_0000_0000
  type U64 = u: nat | u < 0x1_0000_0000_0000_0000

  /** Four bytes, the lowest first. */
  function WordOf(b: seq<Byte>): Word
    requires |b| == 4
  {
    var b0: nat, b1: nat, b2: nat, b3: nat := b[0], b[1], b[2], b[3];
    b0 + b1 * 0x100 + b2 * 0x1_0000 + b3 * 0x100_0000
  }
}
