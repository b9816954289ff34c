/**
 Folding a zero test and the B.cond that reads it into one CBZ, CBNZ, TBZ or
 TBNZ, as tools/rwfuzz.c substitutes them.
 */
module ZeroTest {
  import opened Options
  import opened Widths
  import opened Arithmetic
  import opened Nzcv
  import opened Words
  import opened Branches

  // --- What the instructions do ---

  /** X0..X30 and, at 31, the zero register. */
  ghost predicate ValidRegs(regs: seq<nat>) {
    |regs| == 32 && regs[31] == 0 && forall i | 0 <= i < 32 :: regs[i] < Pow2(64)
  }

  /** A register read at a width. */
  ghost function Read(regs: seq<nat>, r: nat, width: nat): nat
    requires |regs| == 32 && r < 32
  {
    regs[r] % Pow2(width)
  }

  function Op8(w: Word): nat { w / 0x80_0000 % 256 }           // bits 30..23
  function Op7(w: Word): nat { w / 0x100_0000 % 128 }          // bits 30..24

  lemma SevenBits(a: nat)
    ensures a % 128 == 64 * (a / 32 / 2 % 2) + 32 * (a / 32 % 2) + a % 32
  {
    var b := a / 32;
    var d := b / 2 / 2;
    var r := 64 * (b / 2 % 2) + 32 * (b % 2) + a % 32;
    assert a == r + d * 128;
    ModShift(r, d, 128);
  }

  lemma FourBits(b: nat)
    ensures b % 4 == 2 * (b / 2 % 2) + b % 2
  {}

  lemma UpperBits(x: nat)
    ensures x / 2 % 128 == x % 256 / 2
  {
    var q, r := x / 2 / 128, x / 2 % 128;
    assert x == (2 * r + x % 2) + q * 256;
    ModShift(2 * r + x % 2, q, 256);
  }

  lemma Op7Split(w: Word)
    ensures Op7(w) == Op8(w) / 2
    ensures Op7(w) == 64 * SubBit(w) + SBit(w) * 32 + Op5(w)
    ensures Opc(w) == 2 * SubBit(w) + SBit(w)
  {
    UpperBits(w / 0x80_0000);
    SevenBits(w / 0x100_0000);
    FourBits(w / 0x2000_0000);
    Shifts(w);
  }

  lemma Op8Split(w: Word)
    ensures Op8(w) == 2 * Op7(w) + Bit23(w)
  {
    UpperBits(w / 0x80_0000);
    assert w / 0x80_0000 / 2 == w / 0x100_0000;
  }

  lemma Shifts(w: Word)
    ensures w / 0x80_0000 / 2 == w / 0x100_0000
    ensures w / 0x100_0000 / 32 == w / 0x2000_0000
    ensures w / 0x2000_0000 / 2 == w / 0x4000_0000
  {}

  /** NZCV after ADDS/SUBS immediate, ADDS/SUBS of unshifted registers, or
      ANDS of one unshifted register with itself. */
  ghost function FlagsAfter(w: Word, regs: seq<nat>): Option<Flags>
    requires |regs| == 32
  {
    var width := Width(w);
    var a := Read(regs, Rn(w), width);
    if Op5(w) == 0x11 && SBit(w) == 1 && Bit23(w) == 0 then
      Some(Compare(a, if NBit(w) == 1 then Imm12(w) * 0x1000 else Imm12(w), width, SubBit(w) == 0))
    else if Op5(w) == 0x0B && SBit(w) == 1 && Bit21(w) == 0 && Imms(w) == 0 then
      Some(Compare(a, Read(regs, Rm(w), width), width, SubBit(w) == 0))
    else if Op5(w) == 0x0A && Opc(w) == 3 && Bit21(w) == 0 && Imms(w) == 0 && Rm(w) == Rn(w) then
      Some(Flags(a >= Pow2(width - 1), a == 0, false, false))
    else None
  }

  /** Is the branch taken? B.cond reads the flags, CBZ/CBNZ a register, and
      TBZ/TBNZ one bit of a register. */
  ghost function Taken(w: Word, regs: seq<nat>, f: Flags): Option<bool>
    requires |regs| == 32
  {
    if IsBCond(w) then Some(CondHolds(Cond(w), f))
    else if IsCbz(w) then Some((Read(regs, Rd(w), Width(w)) == 0) == (Op24(w) == 0))
    else if IsTbz(w) then
      Some((regs[Rd(w)] / Pow2(Sf(w) * 32 + Bit40(w)) % 2 == 0) == (Op24(w) == 0))
    else None
  }

  // --- The decoder ---

  datatype Test = Test(x: bool, rn: nat, subs: bool)

  /** What the word compares with zero, if it does: five spellings, of which
      only the two subtractions (SUBS) set the carry. */
  function ZeroTestOf(w: Word): Option<Test> {
    var n := Rn(w);
    if Rd(w) != 31 || n >= 8 then None
    else
      var imm0 := Imm12(w) == 0;
      var zr := Rm(w) == 31 && Imms(w) == 0;
      var x := w / 0x8000_0000 != 0;
      if Op8(w) == 0xE2 && imm0 then Some(Test(x, n, true))
      else if Op8(w) == 0x62 && imm0 then Some(Test(x, n, false))
      else if Op7(w) == 0x6B && Bit21(w) == 0 && zr then Some(Test(x, n, true))
      else if Op7(w) == 0x2B && Bit21(w) == 0 && zr then Some(Test(x, n, false))
      else if Op7(w) == 0x6A && Bit21(w) == 0 && Rm(w) == n && Imms(w) == 0 then Some(Test(x, n, false))
      else None
  }

  /** The fields an accepted test has. */
  lemma ZeroTestFields(w: Word)
    requires ZeroTestOf(w).Some?
    ensures var t := ZeroTestOf(w).value;
            && t.rn == Rn(w) && t.rn < 8 && Width(w) == (if t.x then 64 else 32)
            && SBit(w) == 1
            && (|| (Op5(w) == 0x11 && Bit23(w) == 0 && Imm12(w) == 0 && t.subs == (SubBit(w) == 1))
                || (Op5(w) == 0x0B && Rm(w) == 31 && Imms(w) == 0 && Bit21(w) == 0 && t.subs == (SubBit(w) == 1))
                || (Op5(w) == 0x0A && Opc(w) == 3 && Rm(w) == Rn(w) && Imms(w) == 0 && Bit21(w) == 0
                    && !t.subs))
  {
    hide Op5, Rn, Rm, Rd, Imm12, Imms, Opc, SBit, SubBit, Bit21, Bit23, Op7, Op8;
    Op7Split(w);
    Op8Split(w);
    TopBit(w, 0x8000_0000);
  }

  /** Every accepted spelling compares the register with zero: N its sign, Z
      whether it is zero, C set by the SUBS forms alone, V clear. */
  lemma ZeroTestFlags(w: Word, regs: seq<nat>)
    requires ZeroTestOf(w).Some? && ValidRegs(regs)
    ensures var t := ZeroTestOf(w).value;
            var a := Read(regs, t.rn, Width(w));
            FlagsAfter(w, regs) == Some(Flags(a >= Pow2(Width(w) - 1), a == 0, t.subs, false))
  {
    hide ZeroTestOf, Op5, Rn, Rm, Imm12, Imms, Opc, SBit, SubBit, Bit21, Bit23, Width, Compare, Pow2;
    ZeroTestFields(w);
    var width := Width(w);
    var a := Read(regs, Rn(w), width);
    CompareZero(a, width, true);
    CompareZero(a, width, false);
    ModOnce(0, Pow2(width));
  }

  lemma CompareZero(a: nat, width: nat, cmn: bool)
    requires width >= 1 && a < Pow2(width)
    ensures Compare(a, 0, width, cmn) == Flags(a >= Pow2(width - 1), a == 0, !cmn, false)
  {
    CompareInRange(a, 0, width, cmn);
  }

  // --- Why these words and no others ---

  /** The word writes no register, and for every register file it sets Z exactly
      when its register is zero at its width. */
  ghost predicate ComparesWithZero(w: Word) {
    Rd(w) == 31
    && forall regs: seq<nat> | ValidRegs(regs) ::
         FlagsAfter(w, regs).Some?
         && (FlagsAfter(w, regs).value.z <==> Read(regs, Rn(w), Width(w)) == 0)
  }

  /** Of the words that set the flags here, on one of the registers the programs
      use, the accepted ones are exactly those that compare with zero. */
  lemma ZeroTestIff(w: Word)
    ensures ZeroTestOf(w).Some? <==> Rn(w) < 8 && ComparesWithZero(w)
  {
    hide FlagsAfter, Width, Read, Op5, Imm12, Op7, Op8, Imms, Opc, Bit21, Bit23, SBit, SubBit, Rm;
    if ZeroTestOf(w).Some? {
      forall regs: seq<nat> | ValidRegs(regs)
        ensures FlagsAfter(w, regs).Some?
                && (FlagsAfter(w, regs).value.z <==> Read(regs, Rn(w), Width(w)) == 0)
      {
        ZeroTestFields(w);
        ZeroTestFlags(w, regs);
      }
    } else if Rn(w) < 8 && Rd(w) == 31 {
      var regs := Otherwise(w);
      assert !(FlagsAfter(w, regs).Some? && (FlagsAfter(w, regs).value.z <==> Read(regs, Rn(w), Width(w)) == 0));
    }
  }

  /** V in register N, U in register M and zero in all others. */
  ghost function Holding(n: nat, v: nat, m: nat, u: nat): seq<nat> {
    seq(32, i => if i == 31 then 0 else if i == n then v else if i == m then u else 0)
  }

  /** A register file on which a refused word differs from a zero test. */
  lemma Otherwise(w: Word) returns (regs: seq<nat>)
    requires ZeroTestOf(w).None? && Rn(w) < 8 && Rd(w) == 31
    ensures ValidRegs(regs)
    ensures FlagsAfter(w, regs).Some? ==> FlagsAfter(w, regs).value.z && Read(regs, Rn(w), Width(w)) != 0
  {
    hide Op5, Rn, Rm, Rd, Imm12, Imms, Opc, SBit, SubBit, Bit21, Bit23, Op7, Op8, NBit, Width, Pow2;
    Op7Split(w);
    Op8Split(w);
    if Op5(w) == 0x11 && SBit(w) == 1 && Bit23(w) == 0 {
      assert Imm12(w) != 0;
      regs := ImmediateDiffers(w);
    } else if Op5(w) == 0x0B && SBit(w) == 1 && Bit21(w) == 0 && Imms(w) == 0 {
      assert Rm(w) != 31;
      regs := RegisterDiffers(w);
    } else {
      regs := Holding(0, 0, 0, 0);
      PowersGrow();
      assert FlagsAfter(w, regs).None?;
    }
  }

  lemma PowersGrow()
    ensures Pow2(32) == 0x1_0000_0000 && Pow2(32) < Pow2(64)
    ensures Pow2(32) == 2 * Pow2(31) && Pow2(64) == 2 * Pow2(63)
  {
    assert Pow2(32) == 2 * Pow2(31) && Pow2(64) == 2 * Pow2(63);
    hide Pow2;
    EightBits();
    Pow2Add(8, 8);
    Pow2Add(16, 16);
    TwoTo64();
  }

  lemma ImmediateDiffers(w: Word) returns (regs: seq<nat>)
    requires Op5(w) == 0x11 && SBit(w) == 1 && Bit23(w) == 0 && Imm12(w) != 0 && Rn(w) < 8
    ensures ValidRegs(regs) && FlagsAfter(w, regs).Some?
    ensures FlagsAfter(w, regs).value.z && Read(regs, Rn(w), Width(w)) != 0
  {
    hide Op5, Rn, Rm, Imm12, Imms, Opc, SBit, SubBit, Bit21, Bit23, NBit, Pow2, Compare;
    PowersGrow();
    var width := Width(w);
    var k := if NBit(w) == 1 then Imm12(w) * 0x1000 else Imm12(w);
    var v := if SubBit(w) == 0 then Pow2(width) - k else k;
    regs := Holding(Rn(w), v, 31, 0);
    ModOnce(v, Pow2(width));
    CompareInRange(v, k, width, SubBit(w) == 0);
  }

  lemma RegisterDiffers(w: Word) returns (regs: seq<nat>)
    requires Op5(w) == 0x0B && SBit(w) == 1 && Bit21(w) == 0 && Imms(w) == 0 && Rm(w) != 31 && Rn(w) < 8
    ensures ValidRegs(regs) && FlagsAfter(w, regs).Some?
    ensures FlagsAfter(w, regs).value.z && Read(regs, Rn(w), Width(w)) != 0
  {
    hide Op5, Rn, Rm, Imm12, Imms, Opc, SBit, SubBit, Bit21, Bit23, NBit, Pow2, Compare;
    PowersGrow();
    var width, cmn := Width(w), SubBit(w) == 0;
    var v := if cmn && Rm(w) == Rn(w) then Pow2(width - 1) else 1;
    var u := if Rm(w) == Rn(w) then v else if cmn then Pow2(width) - 1 else 1;
    regs := Holding(Rn(w), v, Rm(w), u);
    ModOnce(v, Pow2(width));
    ModOnce(u, Pow2(width));
    CompareInRange(v, u, width, cmn);
  }

  // --- The substitution ---

  /** The conditions a zero test decides by zero or sign alone. */
  predicate Folds(cond: nat, subs: bool) {
    cond in {0, 1, 4, 5, 10, 11} || (subs && cond in {8, 9})
  }

  function Substitute(t: Test, cond: nat, words: int): Word
    requires t.rn < 32 && Folds(cond, t.subs)
  {
    var bit := if t.x then 63 else 31;
    if cond == 0 || cond == 9 then Cbz(t.x, false, t.rn, words)
    else if cond == 1 || cond == 8 then Cbz(t.x, true, t.rn, words)
    else if cond == 4 || cond == 11 then Tbz(true, t.rn, bit, words)
    else Tbz(false, t.rn, bit, words)
  }

  /** SUB is taken exactly when BR is after TEST, whatever the registers hold,
      and goes to the same place as long as its displacement field can. */
  ghost predicate SameBranch(test: Word, br: Word, sub: Word) {
    && (forall regs: seq<nat>, f: Flags | ValidRegs(regs) && FlagsAfter(test, regs).Some? ::
          Taken(sub, regs, f) == Taken(br, regs, FlagsAfter(test, regs).value))
    && (Displacement(sub) == Displacement(br)
        <==> (IsTbz(sub) ==> Fits(BranchDisp(br), 14)))
  }

  method CbzControl(prog: array<Word>, alt: array<Word>, bodyStart: nat, i: nat) returns (ok: bool)
    requires prog != alt && i < prog.Length == alt.Length
    modifies alt
    ensures ok <==> i >= 1 && i - 1 >= bodyStart && IsBCond(prog[i]) && ZeroTestOf(prog[i - 1]).Some?
                    && Folds(Cond(prog[i]), ZeroTestOf(prog[i - 1]).value.subs)
    ensures ok ==> alt[i - 1] == NOP && SameBranch(prog[i - 1], prog[i], alt[i])
    ensures forall k | 0 <= k < alt.Length && !(ok && i - 1 <= k <= i) :: alt[k] == old(alt[k])
  {
    hide ZeroTestOf, SameBranch, BranchDisp, Cbz, Tbz, IsBCond;
    if i < 1 || i - 1 < bodyStart || !IsBCond(prog[i]) || ZeroTestOf(prog[i - 1]).None? {
      return false;
    }
    var t := ZeroTestOf(prog[i - 1]).value;
    ZeroTestFields(prog[i - 1]);
    var words := BranchDisp(prog[i]);
    var bit := if t.x then 63 else 31;
    var cond := Cond(prog[i]);
    if cond == 0 {
      alt[i] := Cbz(t.x, false, t.rn, words);
    } else if cond == 1 {
      alt[i] := Cbz(t.x, true, t.rn, words);
    } else if cond == 9 {
      if !t.subs {
        return false;
      }
      alt[i] := Cbz(t.x, false, t.rn, words);
    } else if cond == 8 {
      if !t.subs {
        return false;
      }
      alt[i] := Cbz(t.x, true, t.rn, words);
    } else if cond == 4 || cond == 11 {
      alt[i] := Tbz(true, t.rn, bit, words);
    } else if cond == 5 || cond == 10 {
      alt[i] := Tbz(false, t.rn, bit, words);
    } else {
      return false;
    }
    SubstituteSame(prog[i - 1], prog[i]);
    alt[i - 1] := NOP;
    return true;
  }

  lemma SignBit(v: nat, half: nat)
    requires half > 0
    ensures v / half % 2 == if v % (2 * half) >= half then 1 else 0
  {
    var q, r := v / (2 * half), v % (2 * half);
    TopBit(r, half);
    assert v == r % half + (2 * q + r / half) * half by {
      assert v == 2 * half * q + r;
      assert r == half * (r / half) + r % half;
    }
    ModShift(r % half, 2 * q + r / half, half);
    ModShift(r / half, q, 2);
  }

  lemma SubstituteSame(test: Word, br: Word)
    requires ZeroTestOf(test).Some? && IsBCond(br)
    requires Folds(Cond(br), ZeroTestOf(test).value.subs)
    ensures ZeroTestOf(test).value.rn < 32
    ensures SameBranch(test, br, Substitute(ZeroTestOf(test).value, Cond(br), BranchDisp(br)))
  {
    ZeroTestFields(test);
    var t := ZeroTestOf(test).value;
    var sub := Substitute(t, Cond(br), BranchDisp(br));
    SubstituteDisplacement(t, br);
    forall regs: seq<nat>, f: Flags | ValidRegs(regs) && FlagsAfter(test, regs).Some?
      ensures Taken(sub, regs, f) == Taken(br, regs, FlagsAfter(test, regs).value)
    {
      hide ZeroTestOf, BranchDisp, FlagsAfter, Cbz, Tbz, Width, IsBCond, Displacement, Sf, Bit40, Op24, Rd, Cond,
        Substitute;
      ZeroTestFlags(test, regs);
      SignBit(regs[t.rn], Pow2(Width(test) - 1));
      SubstituteTaken(t, Cond(br), BranchDisp(br), regs, f);
      TakenAfter(Cond(br), t.subs, Read(regs, t.rn, Width(test)), Width(test));
    }
  }

  /** What the folded conditions read off a zero test. */
  lemma TakenAfter(cond: nat, subs: bool, a: nat, width: nat)
    requires width >= 1 && cond < 16 && Folds(cond, subs)
    ensures CondHolds(cond, Flags(a >= Pow2(width - 1), a == 0, subs, false))
            == if cond in {0, 9} then a == 0
               else if cond in {1, 8} then a != 0
               else if cond in {4, 11} then a >= Pow2(width - 1)
               else a < Pow2(width - 1)
  {
  }

  lemma SubstituteDisplacement(t: Test, br: Word)
    requires t.rn < 32 && IsBCond(br) && Folds(Cond(br), t.subs)
    ensures var sub := Substitute(t, Cond(br), BranchDisp(br));
            Displacement(sub) == Displacement(br) <==> (IsTbz(sub) ==> Fits(BranchDisp(br), 14))
  {
    hide BranchDisp, Cbz, Tbz, IsBCond, Displacement, Fits;
    var words := BranchDisp(br);
    var bit := if t.x then 63 else 31;
    BranchDispIsDisplacement(br);
    DisplacementFits(br);
    forall nonzero: bool {
      EncodersRoundTrip(words, 0, t.x, nonzero, t.rn, bit);
    }
    assert IsTbz(Substitute(t, Cond(br), words)) <==> !(Cond(br) in {0, 1, 8, 9});
  }

  lemma DisplacementFits(br: Word)
    requires IsBCond(br)
    ensures Fits(BranchDisp(br), 19)
  {
    UpAndDownExtends(Imm19(br), 13);
  }

  /** The substitute tests zero, or the sign bit at the width. */
  lemma SubstituteTaken(t: Test, cond: nat, words: int, regs: seq<nat>, f: Flags)
    requires t.rn < 32 && Folds(cond, t.subs) && |regs| == 32
    ensures var width := if t.x then 64 else 32;
            Taken(Substitute(t, cond, words), regs, f)
            == Some(if cond in {0, 9} then Read(regs, t.rn, width) == 0
                    else if cond in {1, 8} then Read(regs, t.rn, width) != 0
                    else if cond in {4, 11} then regs[t.rn] / Pow2(width - 1) % 2 != 0
                    else regs[t.rn] / Pow2(width - 1) % 2 == 0)
  {
    hide Cbz, Tbz, Read, Pow2;
  }

  // --- Why these conditions and no others ---

  /** The decisions one CBZ, CBNZ or sign-bit TBZ or TBNZ can make. */
  predicate Decision(which: nat, a: nat, width: nat)
    requires width >= 1
  {
    match which
    case 0 => a == 0
    case 1 => a != 0
    case 2 => a >= Pow2(width - 1)
    case _ => a < Pow2(width - 1)
  }

  predicate SameDecision(which: nat, cond: nat, subs: bool, a: nat, width: nat)
    requires width >= 1 && cond < 16
  {
    CondHolds(cond, Flags(a >= Pow2(width - 1), a == 0, subs, false)) == Decision(which, a, width)
  }

  ghost predicate DecidesLike(which: nat, cond: nat, subs: bool, width: nat)
    requires width >= 1 && cond < 16
  {
    forall a: nat | a < Pow2(width) :: SameDecision(which, cond, subs, a, width)
  }

  lemma FoldsDecide(cond: nat, subs: bool, width: nat)
    requires Folds(cond, subs) && width >= 1
    ensures var which := if cond in {0, 9} then 0 else if cond in {1, 8} then 1 else if cond in {4, 11} then 2 else 3;
            which < 4 && cond < 16 && DecidesLike(which, cond, subs, width)
  {
    hide Pow2;
  }

  /** The folded conditions are exactly those some zero or sign test decides;
      in particular HI and LS after SUBS only. */
  lemma FoldsIff(cond: nat, subs: bool, width: nat)
    requires cond < 14 && (width == 32 || width == 64)
    ensures Folds(cond, subs) <==> exists which: nat :: which < 4 && DecidesLike(which, cond, subs, width)
  {
    if Folds(cond, subs) {
      FoldsDecide(cond, subs, width);
    } else {
      hide SameDecision, Folds;
      forall which: nat | which < 4 ensures !DecidesLike(which, cond, subs, width) {
        ThreeValues(which, cond, subs, width);
      }
    }
  }

  /** Zero, one and the least negative value tell the others apart. */
  lemma ThreeValues(which: nat, cond: nat, subs: bool, width: nat)
    requires cond < 14 && which < 4 && width >= 2 && !Folds(cond, subs)
    ensures !(SameDecision(which, cond, subs, 0, width) && SameDecision(which, cond, subs, 1, width)
              && SameDecision(which, cond, subs, Pow2(width - 1), width))
    ensures 1 < Pow2(width) && Pow2(width - 1) < Pow2(width)
  {
    assert Pow2(width - 1) == 2 * Pow2(width - 2);
  }
}
