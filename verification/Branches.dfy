/**
 PC-relative branches: their encoders in tools/rwfuzz.c, and the
 displacements its decoder and the branch-target scans recover. Displacements
 are in words.
 */
module Branches {
  import opened Options
  import opened Widths
  import opened Arithmetic
  import opened Words

  // --- Signed fields ---

  /** The N-bit two's complement field holding V. */
  function Field(v: int, n: nat): nat
    requires n in {14, 19, 26}
  {
    if n == 14 then v % 0x4000 else if n == 19 then v % 0x8_0000 else v % 0x400_0000
  }

  /** SignExtend of the Arm ARM, on a field of N bits. */
  function SignExtend(field: nat, n: nat): int
    requires n in {14, 19, 26}
  {
    if n == 14 then (if field < 0x2000 then field else field - 0x4000)
    else if n == 19 then (if field < 0x4_0000 then field else field - 0x8_0000)
    else (if field < 0x200_0000 then field else field - 0x400_0000)
  }

  predicate Fits(v: int, n: nat)
    requires n in {14, 19, 26}
  {
    if n == 14 then -0x2000 <= v < 0x2000
    else if n == 19 then -0x4_0000 <= v < 0x4_0000
    else -0x200_0000 <= v < 0x200_0000
  }

  lemma FieldRoundTrip(v: int, n: nat)
    requires n in {14, 19, 26}
    ensures SignExtend(Field(v, n), n) == v <==> Fits(v, n)
    ensures Fits(SignExtend(Field(v, n), n), n)
  {
  }

  /** A uint32 read as an int32. */
  function ToInt32(u: nat): int
    requires u < 0x1_0000_0000
  {
    if u < 0x8000_0000 then u else u - 0x1_0000_0000
  }

  /** The C idiom (int32_t)(field << k) >> k: up to the sign bit, then an
      arithmetic shift down. */
  function UpAndDown(field: nat, k: nat): int
    requires k in {6, 13, 18}
  {
    var scale := if k == 6 then 0x40 else if k == 13 then 0x2000 else 0x4_0000;
    ToInt32(field * scale % 0x1_0000_0000) / scale
  }

  lemma UpAndDownExtends(field: nat, k: nat)
    requires k in {6, 13, 18}
    requires field < (if k == 6 then 0x400_0000 else if k == 13 then 0x8_0000 else 0x4000)
    ensures UpAndDown(field, k) == SignExtend(field, 32 - k)
  {
  }

  // --- Fields of branch words ---

  function Top6(w: Word): (n: nat) ensures n < 64 { w / 0x400_0000 }            // bits 31..26
  function Top8(w: Word): (n: nat) ensures n < 256 { w / 0x100_0000 }           // bits 31..24
  function Test6(w: Word): (n: nat) ensures n < 64 { w / 0x200_0000 % 64 }      // bits 30..25
  function Imm26(w: Word): (n: nat) ensures n < 0x400_0000 { w % 0x400_0000 }
  function Imm19(w: Word): (n: nat) ensures n < 0x8_0000 { w / 0x20 % 0x8_0000 }
  function Imm14(w: Word): (n: nat) ensures n < 0x4000 { w / 0x20 % 0x4000 }
  function Op24(w: Word): (n: nat) ensures n < 2 { w / 0x100_0000 % 2 }
  function Bit40(w: Word): (n: nat) ensures n < 32 { w / 0x8_0000 % 32 }        // bits 23..19
  function Bit4(w: Word): (n: nat) ensures n < 2 { w / 0x10 % 2 }
  function Cond(w: Word): (n: nat) ensures n < 16 { w % 16 }

  predicate IsB(w: Word) { Top6(w) == 0x05 }
  predicate IsBl(w: Word) { Top6(w) == 0x25 }
  predicate IsBCond(w: Word) { Top8(w) == 0x54 && Bit4(w) == 0 }
  predicate IsCbz(w: Word) { Test6(w) == 0x1A }
  predicate IsTbz(w: Word) { Test6(w) == 0x1B }

  // --- Encoders ---

  function B(words: int): (w: Word)
    ensures IsB(w) && Imm26(w) == Field(words, 26)
  {
    0x1400_0000 + Field(words, 26)
  }

  function Bl(words: int): (w: Word)
    ensures IsBl(w) && Imm26(w) == Field(words, 26)
  {
    0x9400_0000 + Field(words, 26)
  }

  function BCond(cond: nat, words: int): (w: Word)
    requires cond < 16
    ensures IsBCond(w) && Imm19(w) == Field(words, 19) && Cond(w) == cond
  {
    ConditionalFields19(0x54, Field(words, 19), cond);
    LowBits(0x54 * 0x8_0000 + Field(words, 19), cond);
    0x5400_0000 + Field(words, 19) * 0x20 + cond
  }

  function Cbz(x: bool, nonzero: bool, t: nat, words: int): (w: Word)
    requires t < 32
    ensures IsCbz(w) && Imm19(w) == Field(words, 19) && Rd(w) == t
    ensures Sf(w) == (if x then 1 else 0) && Op24(w) == (if nonzero then 1 else 0)
  {
    ConditionalFields19((if x then 0x80 else 0) + (if nonzero then 0x35 else 0x34), Field(words, 19), t);
    (if x then 0x8000_0000 else 0) + (if nonzero then 0x3500_0000 else 0x3400_0000)
    + Field(words, 19) * 0x20 + t
  }

  function Tbz(nonzero: bool, t: nat, bit: nat, words: int): (w: Word)
    requires t < 32 && bit < 64
    ensures IsTbz(w) && Imm14(w) == Field(words, 14) && Rd(w) == t
    ensures Sf(w) * 32 + Bit40(w) == bit && Op24(w) == (if nonzero then 1 else 0)
  {
    TbzFields(bit / 32, if nonzero then 1 else 0, bit % 32, Field(words, 14), t);
    bit / 32 * 0x8000_0000 + (if nonzero then 0x3700_0000 else 0x3600_0000)
    + bit % 32 * 0x8_0000 + Field(words, 14) * 0x20 + t
  }

  /** Eight bits over a 19-bit offset over five bits. */
  lemma ConditionalFields19(top: nat, imm19: nat, low: nat)
    requires top < 256 && imm19 < 0x8_0000 && low < 32
    ensures var w := top * 0x100_0000 + imm19 * 0x20 + low;
            && w / 0x100_0000 == top && w / 0x20 % 0x8_0000 == imm19 && w % 32 == low
            && w / 0x200_0000 == top / 2 && w / 0x8000_0000 == top / 128
  {
    var w := top * 0x100_0000 + imm19 * 0x20 + low;
    var d := imm19 + top * 0x8_0000;
    assert w == low + d * 32;
    ModShift(low, d, 32);
    ModShift(imm19, top, 0x8_0000);
    assert w / 0x100_0000 == d / 0x8_0000;
    assert w / 0x200_0000 == w / 0x100_0000 / 2;
    assert w / 0x8000_0000 == w / 0x100_0000 / 128;
  }

  lemma LowBits(d: nat, cond: nat)
    requires cond < 16
    ensures (d * 0x20 + cond) / 0x10 % 2 == 0 && (d * 0x20 + cond) % 16 == cond
  {
    ModShift(cond, d * 2, 16);
    ModShift(0, d, 2);
  }

  lemma TbzFields(top: nat, op: nat, b40: nat, imm14: nat, t: nat)
    requires top < 2 && op < 2 && b40 < 32 && imm14 < 0x4000 && t < 32
    ensures var w := top * 0x8000_0000 + 0x3600_0000 + op * 0x100_0000 + b40 * 0x8_0000 + imm14 * 0x20 + t;
            && w / 0x8000_0000 == top && w / 0x200_0000 % 64 == 0x1B && w / 0x100_0000 % 2 == op
            && w / 0x8_0000 % 32 == b40 && w / 0x20 % 0x4000 == imm14 && w % 32 == t
  {
    var w := top * 0x8000_0000 + 0x3600_0000 + op * 0x100_0000 + b40 * 0x8_0000 + imm14 * 0x20 + t;
    assert w / 0x100_0000 == top * 0x80 + 0x36 + op;
    assert w / 0x8_0000 == top * 0x1000 + 0x6C0 + op * 0x20 + b40;
    assert w / 0x20 == top * 0x400_0000 + 0x1B0_0000 + op * 0x8_0000 + b40 * 0x4000 + imm14;
  }

  /** The conditional branches' decoder in tools/rwfuzz.c. */
  function BranchDisp(w: Word): int {
    if IsTbz(w) then UpAndDown(Imm14(w), 18) else UpAndDown(Imm19(w), 13)
  }

  /** The displacement a branch word has, by its encoding. */
  function Displacement(w: Word): Option<int> {
    if IsB(w) || IsBl(w) then Some(SignExtend(Imm26(w), 26))
    else if Top8(w) == 0x54 || IsCbz(w) then Some(SignExtend(Imm19(w), 19))
    else if IsTbz(w) then Some(SignExtend(Imm14(w), 14))
    else None
  }

  lemma BranchDispIsDisplacement(w: Word)
    requires IsBCond(w) || IsCbz(w) || IsTbz(w)
    ensures Displacement(w) == Some(BranchDisp(w))
  {
    UpAndDownExtends(Imm14(w), 18);
    UpAndDownExtends(Imm19(w), 13);
  }

  /** Every encoder's displacement is read back, exactly when it fits. */
  lemma EncodersRoundTrip(words: int, cond: nat, x: bool, nonzero: bool, t: nat, bit: nat)
    requires cond < 16 && t < 32 && bit < 64
    ensures Displacement(B(words)) == Some(words) <==> Fits(words, 26)
    ensures Displacement(Bl(words)) == Some(words) <==> Fits(words, 26)
    ensures Displacement(BCond(cond, words)) == Some(words) <==> Fits(words, 19)
    ensures Displacement(Cbz(x, nonzero, t, words)) == Some(words) <==> Fits(words, 19)
    ensures Displacement(Tbz(nonzero, t, bit, words)) == Some(words) <==> Fits(words, 14)
  {
    hide Field, SignExtend, Fits, B, Bl, BCond, Cbz, Tbz;
    FieldRoundTrip(words, 26);
    FieldRoundTrip(words, 19);
    FieldRoundTrip(words, 14);
  }
}
