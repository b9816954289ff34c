/**
 The words tools/net11scan.py takes for masks and extensions, executed: what the
 instruction leaves in its destination, as the Arm Architecture Reference Manual
 has it, against the role the scanner gives it.
 */
module MaskWords {
  import opened Options
  import opened Widths
  import opened Bits
  import opened Words
  import opened LogicalImmediate
  import opened MoveImmediate
  import opened MaskChain

  /** The general registers, by their one bits; number 31 reads as zero. */
  type Regs = r: seq<set<nat>> | |r| == 32 && r[31] == {} && forall i | 0 <= i < 32 :: r[i] <= Low(64)
    witness seq(32, i => {})

  /** ORR (shifted register) of an unshifted operand. */
  predicate IsOrrRegister(w: Word) {
    w / 0x100_0000 % 0x80 == 0x2A && w / 0x20_0000 % 8 == 0 && Imms(w) == 0
  }

  predicate IsAndImmediate(w: Word) {
    Class(w) == LOGICAL_IMM && (Opc(w) == 0 || Opc(w) == 3)
  }

  predicate IsBitfield(w: Word) {
    Class(w) == BITFIELD && (Opc(w) == 0 || Opc(w) == 2)
  }

  predicate IsMaskWord(w: Word) {
    IsOrrRegister(w) || IsAndImmediate(w) || IsBitfield(w)
  }

  /** Bit J of the result of SBFM or UBFM: bits IMMR to IMMS of the source moved
      down to 0, or its low IMMS + 1 bits moved up to the end of the register
      less IMMR; above them copies of bit IMMS, or zeros. */
  predicate BitfieldBit(w: Word, source: set<nat>, j: nat) {
    var at := if Imms(w) >= Immr(w) then 0 else Width(w) - Immr(w);
    var from := if Imms(w) >= Immr(w) then Immr(w) else 0;
    if j < at then false
    else if j - at + from <= Imms(w) then j - at + from in source
    else Opc(w) == 0 && Imms(w) in source
  }

  /** Bit J of Rd after the word. A W form clears the upper half. */
  predicate ResultBit(w: Word, regs: Regs, j: nat)
    requires IsMaskWord(w)
  {
    && j < Width(w)
    && (if IsOrrRegister(w) then j in regs[Rn(w)] || j in regs[Rm(w)]
        else if IsAndImmediate(w) then
          match Decode(NBit(w), Immr(w), Imms(w), Width(w))
          case None => false
          case Some(mask) => j in regs[Rn(w)] && j in mask
        else BitfieldBit(w, regs[Rn(w)], j))
  }

  lemma MovWordFields(x: Word)
    requires IsMovW(x)
    ensures IsOrrRegister(x) && Sf(x) == 0 && Rn(x) == 31 && Imms(x) == 0
  {
    hide Rm, Rd;
    var a, b := x / 0x20_0000, x / 0x20;
    assert x / 0x100_0000 == a / 8 && x / 0x8000_0000 == a / 1024;
    assert x / 0x400 == b / 32;
    assert b / 32 % 64 == b % 0x800 / 32;
    assert b % 32 == b % 0x800 % 32;
  }

  lemma RoleIsWord(x: Word)
    requires MaskRole(x).Some?
    ensures IsMaskWord(x)
    ensures MaskRole(x).value.d == Rd(x) && MaskRole(x).value.width == Width(x)
  {
    hide Decode, Low;
    if IsMovW(x) {
      MovWordFields(x);
    }
  }

  lemma MovExecutes(x: Word, regs: Regs, j: nat)
    requires IsMovW(x)
    ensures IsMaskWord(x) && (ResultBit(x, regs, j) <==> j < 32 && j in regs[Rm(x)])
  {
    MovWordFields(x);
    hide Sf, Rn, Rm, Imms;
  }

  lemma MaskExecutes(x: Word, regs: Regs, j: nat)
    requires MaskRole(x).Some? && IsAndImmediate(x)
    ensures IsMaskWord(x)
    ensures var r := MaskRole(x).value;
            r.op.And? && r.n == Rn(x) && (ResultBit(x, regs, j) <==> j in regs[Rn(x)] && j in r.op.mask)
  {
    hide Decode, Low, Sf, Rn, Rd, Rm, Immr, Imms, NBit;
    LogimmInside(x, j);
    if IsMovW(x) {
      MovWClass(x);
    }
    OrrClass(x);
  }

  lemma OrrClass(x: Word)
    ensures IsOrrRegister(x) ==> Class(x) == 0x14
  {}

  lemma LogimmInside(x: Word, j: nat)
    requires LogimmValue(x).Some?
    ensures j in LogimmValue(x).value ==> j < Width(x)
  {
    hide Decode;
    LogimmBelow(x);
  }

  lemma FieldExecutes(x: Word, regs: Regs, j: nat)
    requires MaskRole(x).Some? && IsBitfield(x)
    ensures IsMaskWord(x)
    ensures var r := MaskRole(x).value;
            r.n == Rn(x) && ValidRole(r) && (ResultBit(x, regs, j) <==> j in Apply(r.op, r.width, regs[Rn(x)]))
  {
    MaskRoleValid(x);
    OrrClass(x);
    hide Low, Apply, Sf, Rn, Rd, Rm, Immr, Imms, NBit;
    var r := MaskRole(x).value;
    ApplyBits(r.op, r.width, regs[Rn(x)], j);
    if IsMovW(x) {
      MovWClass(x);
    }
  }

  /** The role of a word computes, from the register it names, what executing
      the word leaves, in every register file. */
  lemma RoleExecutes(x: Word, regs: Regs, j: nat)
    requires MaskRole(x).Some?
    ensures IsMaskWord(x)
    ensures var r := MaskRole(x).value;
            r.n < 32 && r.d == Rd(x) && (ResultBit(x, regs, j) <==> j in Apply(r.op, r.width, regs[r.n]))
  {
    hide Decode, Low, Apply, ResultBit;
    RoleIsWord(x);
    MaskRoleValid(x);
    var r := MaskRole(x).value;
    ApplyBits(r.op, r.width, regs[r.n], j);
    if IsMovW(x) {
      MovExecutes(x, regs, j);
    } else if IsAndImmediate(x) {
      MaskExecutes(x, regs, j);
    } else {
      FieldExecutes(x, regs, j);
    }
  }

  /** MOV Wd, Wm reads M, writes D and keeps the low word, whatever the
      registers hold. */
  lemma MovWordRole(m: nat, d: nat, regs: Regs, j: nat)
    requires m < 32 && d < 32
    ensures var x: Word := 0x2A00_03E0 + m * 0x1_0000 + d;
            && MaskRole(x).Some? && IsMaskWord(x)
            && MaskRole(x).value.n == m && MaskRole(x).value.d == d
            && (ResultBit(x, regs, j) <==> j < 32 && j in regs[m])
  {
    hide Apply, Low;
    MovFields(m, d);
    var x: Word := 0x2A00_03E0 + m * 0x1_0000 + d;
    MovWordFields(x);
  }

  lemma MovFields(m: nat, d: nat)
    requires m < 32 && d < 32
    ensures var x := 0x2A00_03E0 + m * 0x1_0000 + d;
            && x / 0x20_0000 == 0x150 && x / 0x20 % 0x800 == 0x1F && x / 0x1_0000 % 32 == m && x % 32 == d
  {
    var x := 0x2A00_03E0 + m * 0x1_0000 + d;
    assert x / 0x20 == 0x150_001F + m * 0x800;
    assert x / 0x1_0000 == 0x2A00 + m;
  }

  /** And every word taken for such a move is one. */
  lemma MovWordIff(x: Word)
    ensures IsMovW(x) <==> x == 0x2A00_03E0 + Rm(x) * 0x1_0000 + Rd(x)
  {
    MovFields(Rm(x), Rd(x));
    if IsMovW(x) {
      var a, b := x / 0x20_0000, x / 0x20;
      assert b / 0x1_0000 == a;
      assert b % 0x1_0000 / 0x800 == x / 0x1_0000 % 32;
      assert b == a * 0x1_0000 + b % 0x1_0000 / 0x800 * 0x800 + b % 0x800;
      assert x == b * 32 + x % 32;
    }
  }

  // --- The pair, executed ---

  function Result(w: Word, regs: Regs): (s: set<nat>)
    requires IsMaskWord(w)
    ensures s <= Low(64)
  {
    set j: nat | j in Low(64) && ResultBit(w, regs, j)
  }

  /** The registers after the word. */
  function After(w: Word, regs: Regs): Regs
    requires IsMaskWord(w) && Rd(w) != 31
  {
    regs[Rd(w) := Result(w, regs)]
  }

  /** Executing the two words leaves, in the second's destination, what the
      rewrite computes from the first's source. */
  lemma PairExecutes(x: Word, y: Word, p: Role, c: Role, cat: Category, regs: Regs, j: nat)
    requires MaskRole(x) == Some(p) && MaskRole(y) == Some(c) && Classify(p, c) == Some(cat)
    ensures IsMaskWord(x) && IsMaskWord(y) && Rd(x) != 31 && p.n < 32
    ensures ResultBit(y, After(x, regs), j) <==> j in ChainValue(p, c, cat, regs[p.n])
  {
    hide Decode, Apply, ResultBit, MaskRole, Classify, ChainValue, IsMaskWord, Result;
    RoleIsWord(x);
    RoleIsWord(y);
    ConsumerReads(p, c);
    Executed(x, regs);
    MaskRoleValid(x);
    MaskRoleValid(y);
    RoleExecutes(y, After(x, regs), j);
    RewritePreservesValue(p, c, cat, regs[p.n]);
  }

  lemma ConsumerReads(p: Role, c: Role)
    requires Classify(p, c).Some?
    ensures p.d != 31 && c.n == p.d
  {
    hide Encodable, IsNoop, DeadSext;
  }

  lemma Executed(x: Word, regs: Regs)
    requires MaskRole(x).Some?
    ensures IsMaskWord(x)
    ensures MaskRole(x).value.n < 32
    ensures Result(x, regs) == Apply(MaskRole(x).value.op, MaskRole(x).value.width, regs[MaskRole(x).value.n])
  {
    hide Decode, Apply, MaskRole, IsMaskWord;
    RoleIsWord(x);
    MaskRoleValid(x);
    var r := MaskRole(x).value;
    RoleExecutes(x, regs, 0);
    forall j: nat ensures j in Result(x, regs) <==> j in Apply(r.op, r.width, regs[r.n]) {
      RoleExecutes(x, regs, j);
      ResultBelow(x, regs, j);
    }
    assert Result(x, regs) == Apply(r.op, r.width, regs[r.n]);
  }

  lemma ResultBelow(w: Word, regs: Regs, j: nat)
    requires IsMaskWord(w)
    ensures ResultBit(w, regs, j) ==> j < 64
  {
    hide Decode, BitfieldBit;
  }
}
