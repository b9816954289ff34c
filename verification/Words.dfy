/** A64 instruction words and their fields, as the tools pick them apart. */
module Words {
  import opened Widths
  import opened Arithmetic

  function Sf(w: Word): (n: nat) ensures n < 2 { w / 0x8000_0000 }
  function Opc(w: Word): (n: nat) ensures n < 4 { w / 0x2000_0000 % 4 }      // bits 30..29
  function Class(w: Word): (n: nat) ensures n < 64 { w / 0x80_0000 % 64 }    // bits 28..23
  function NBit(w: Word): (n: nat) ensures n < 2 { w / 0x40_0000 % 2 }
  function Hw(w: Word): (n: nat) ensures n < 4 { w / 0x20_0000 % 4 }         // bits 22..21
  function Immr(w: Word): (n: nat) ensures n < 64 { w / 0x1_0000 % 64 }
  function Imms(w: Word): (n: nat) ensures n < 64 { w / 0x400 % 64 }
  function Imm16(w: Word): (n: nat) ensures n < 0x1_0000 { w / 0x20 % 0x1_0000 }
  function Imm12(w: Word): (n: nat) ensures n < 0x1000 { w / 0x400 % 0x1000 }
  function Op5(w: Word): (n: nat) ensures n < 32 { w / 0x100_0000 % 32 }     // bits 28..24
  function SBit(w: Word): (n: nat) ensures n < 2 { w / 0x2000_0000 % 2 }
  function SubBit(w: Word): (n: nat) ensures n < 2 { w / 0x4000_0000 % 2 }
  function Bit23(w: Word): (n: nat) ensures n < 2 { w / 0x80_0000 % 2 }
  function Bit21(w: Word): (n: nat) ensures n < 2 { w / 0x20_0000 % 2 }
  function Rm(w: Word): (n: nat) ensures n < 32 { w / 0x1_0000 % 32 }
  function Rn(w: Word): (n: nat) ensures n < 32 { w / 0x20 % 32 }
  function Rd(w: Word): (n: nat) ensures n < 32 { w % 32 }

  function Width(w: Word): (n: nat)
    ensures n == 32 || n == 64
  {
    if Sf(w) == 1 then 64 else 32
  }

  const NOP: Word := 0xD503_201F

  // Class of the data-processing-immediate groups modelled here.
  const LOGICAL_IMM := 0x24                // 0b100100
  const MOVE_WIDE := 0x25                  // 0b100101
  const BITFIELD := 0x26                   // 0b100110

  /** sf:opc:class, then N:immr:imms:Rn:Rd. */
  function BitImm(sf: nat, opc: nat, cls: nat, n: nat, immr: nat, imms: nat, rn: nat, rd: nat): (w: Word)
    requires sf < 2 && opc < 4 && cls < 64 && n < 2 && immr < 64 && imms < 64 && rn < 32 && rd < 32
    ensures Sf(w) == sf && Opc(w) == opc && Class(w) == cls
    ensures NBit(w) == n && Immr(w) == immr && Imms(w) == imms && Rn(w) == rn && Rd(w) == rd
  {
    var w := sf * 0x8000_0000 + opc * 0x2000_0000 + cls * 0x80_0000 + n * 0x40_0000
             + immr * 0x1_0000 + imms * 0x400 + rn * 0x20 + rd;
    BitImmTop(sf, opc, cls, n * 0x40_0000 + immr * 0x1_0000 + imms * 0x400 + rn * 0x20 + rd);
    BitImmLow(sf * 0x100 + opc * 0x40 + cls, n, immr, imms, rn, rd);
    w
  }

  lemma BitImmTop(sf: nat, opc: nat, cls: nat, rest: nat)
    requires sf < 2 && opc < 4 && cls < 64 && rest < 0x80_0000
    ensures var w := sf * 0x8000_0000 + opc * 0x2000_0000 + cls * 0x80_0000 + rest;
            w / 0x8000_0000 == sf && w / 0x2000_0000 % 4 == opc && w / 0x80_0000 % 64 == cls
  {
  }

  lemma BitImmLow(top: nat, n: nat, immr: nat, imms: nat, rn: nat, rd: nat)
    requires n < 2 && immr < 64 && imms < 64 && rn < 32 && rd < 32
    ensures var w := top * 0x80_0000 + n * 0x40_0000 + immr * 0x1_0000 + imms * 0x400 + rn * 0x20 + rd;
            && w / 0x40_0000 % 2 == n && w / 0x1_0000 % 64 == immr && w / 0x400 % 64 == imms
            && w / 0x20 % 32 == rn && w % 32 == rd
  {
    var w := top * 0x80_0000 + n * 0x40_0000 + immr * 0x1_0000 + imms * 0x400 + rn * 0x20 + rd;
    var a := top * 2 + n;
    var b := a * 64 + immr;
    var c := b * 64 + imms;
    var d := c * 32 + rn;
    assert w == rd + d * 32;
    ModShift(rd, d, 32);
    ModShift(rn, c, 32);
    ModShift(imms, b, 64);
    ModShift(immr, a, 64);
    ModShift(n, top, 2);
    assert w / 0x400 == d / 32;
    assert w / 0x1_0000 == d / 32 / 64;
    assert w / 0x40_0000 == d / 32 / 64 / 64;
  }

  /** sf:opc:100101:hw:imm16:Rd. */
  function MoveWide(sf: nat, opc: nat, hw: nat, imm16: nat, rd: nat): (w: Word)
    requires sf < 2 && opc < 4 && hw < 4 && imm16 < 0x1_0000 && rd < 32
    ensures Sf(w) == sf && Opc(w) == opc && Class(w) == MOVE_WIDE
    ensures Hw(w) == hw && Imm16(w) == imm16 && Rd(w) == rd
  {
    var rest := hw * 0x20_0000 + imm16 * 0x20 + rd;
    BitImmTop(sf, opc, MOVE_WIDE, rest);
    MoveWideLow(sf * 0x100 + opc * 0x40 + MOVE_WIDE, hw, imm16, rd);
    sf * 0x8000_0000 + opc * 0x2000_0000 + MOVE_WIDE * 0x80_0000 + rest
  }

  lemma MoveWideLow(top: nat, hw: nat, imm16: nat, rd: nat)
    requires hw < 4 && imm16 < 0x1_0000 && rd < 32
    ensures var w := top * 0x80_0000 + hw * 0x20_0000 + imm16 * 0x20 + rd;
            w / 0x20_0000 % 4 == hw && w / 0x20 % 0x1_0000 == imm16 && w % 32 == rd
  {
    var w := top * 0x80_0000 + hw * 0x20_0000 + imm16 * 0x20 + rd;
    assert w / 0x20_0000 == top * 4 + hw;
    assert w / 0x20 == top * 0x4_0000 + hw * 0x1_0000 + imm16;
  }
}
