/**
 What tools/defuse.c makes of one instruction, said in terms of its operands and
 the registers it is listed to read and write.
 */
module InsnMeaning {
  import opened Options
  import opened Insns

  // --- Registers read and written ---

  function NumRegisters(ops: seq<Operand>): nat {
    if ops == [] then 0
    else NumRegisters(ops[..|ops| - 1]) + if ops[|ops| - 1].Register? then 1 else 0
  }

  /** Operand K is a register, with fewer than N registers before it. */
  predicate AmongFirst(ops: seq<Operand>, k: nat, n: nat) {
    k < |ops| && ops[k].Register? && NumRegisters(ops[..k]) < n
  }

  /** How many of the first N registers among the operands are at slot S. */
  function OperandsAt(ops: seq<Operand>, n: nat, s: nat): nat {
    if ops == [] then 0
    else
      var last := |ops| - 1;
      OperandsAt(ops[..last], n, s)
      + if AmongFirst(ops, last, n) && RegSlot(ops[last].reg) == s then 1 else 0
  }

  /** How many registers of the list are at slot S. */
  function RegistersAt(regs: seq<Reg>, s: nat): nat {
    if regs == [] then 0
    else RegistersAt(regs[..|regs| - 1], s) + if RegSlot(regs[|regs| - 1]) == s then 1 else 0
  }

  lemma {:induction false} CountSlots(regs: seq<Reg>, s: nat)
    ensures Count(Slots(regs), s) == RegistersAt(regs, s)
  {
    if regs != [] {
      var r, init := RegSlot(regs[|regs| - 1]), Slots(regs[..|regs| - 1]);
      CountSlots(regs[..|regs| - 1], s);
      if r >= 0 {
        assert (init + [r])[..|init|] == init;
      }
    }
  }

  lemma {:induction false} FirstRegister(ops: seq<Operand>)
    requires ops != []
    ensures NumRegisters(ops) == NumRegisters(ops[1..]) + if ops[0].Register? then 1 else 0
    decreases |ops|
  {
    if |ops| > 1 {
      var n := |ops| - 1;
      FirstRegister(ops[..n]);
      assert ops[..n][1..] == ops[1..][..n - 1];
    } else {
      assert ops[..0] == [] && ops[1..] == [];
    }
  }

  /** One operand more. */
  lemma {:induction false} OperandRegsNext(ops: seq<Operand>, o: Operand, n: nat)
    ensures OperandRegs(ops + [o], n)
            == OperandRegs(ops, n) + if o.Register? && NumRegisters(ops) < n then [o.reg] else []
    decreases |ops|
  {
    var all := ops + [o];
    if ops == [] {
      assert all[1..] == [];
    } else {
      assert all[1..] == ops[1..] + [o];
      FirstRegister(ops);
      if n > 0 {
        OperandRegsNext(ops[1..], o, if ops[0].Register? then n - 1 else n);
      }
    }
  }

  lemma {:induction false} CountOperands(ops: seq<Operand>, n: nat, s: nat)
    ensures RegistersAt(OperandRegs(ops, n), s) == OperandsAt(ops, n, s)
  {
    if ops != [] {
      var last := |ops| - 1;
      var init := OperandRegs(ops[..last], n);
      CountOperands(ops[..last], n, s);
      assert ops == ops[..last] + [ops[last]];
      OperandRegsNext(ops[..last], ops[last], n);
      if AmongFirst(ops, last, n) {
        assert (init + [ops[last].reg])[..|init|] == init;
      } else {
        assert init + [] == init;
      }
    }
  }

  /** A compare reads its first six register operands, every other instruction
      the registers it is listed to read, each as often as it stands there. */
  lemma ReadsAre(i: Insn, s: nat)
    ensures Reads(i, s) == if i.id in {CMP, CMN, TST, CCMP, CCMN} then OperandsAt(i.ops, 6, s)
                           else RegistersAt(i.regsRead, s)
  {
    hide OperandRegs, Slots, Count, OperandsAt, RegistersAt;
    CountSlots(i.regsRead, s);
    CountSlots(OperandRegs(i.ops, 6), s);
    CountOperands(i.ops, 6, s);
  }

  /** Some register the instruction reads is at slot S. */
  ghost predicate ReadsRegister(i: Insn, s: nat) {
    if i.id in {CMP, CMN, TST, CCMP, CCMN}
    then exists k: nat :: AmongFirst(i.ops, k, 6) && RegSlot(i.ops[k].reg) == s
    else exists k :: 0 <= k < |i.regsRead| && RegSlot(i.regsRead[k]) == s
  }

  /** A compare writes none, whatever it is listed to write. */
  ghost predicate WritesRegister(i: Insn, s: nat) {
    i.id !in {CMP, CMN, TST, CCMP, CCMN} && exists k :: 0 <= k < |i.regsWritten| && RegSlot(i.regsWritten[k]) == s
  }

  lemma {:induction false} SomeOperand(ops: seq<Operand>, n: nat, s: nat)
    ensures OperandsAt(ops, n, s) > 0 <==> exists k: nat :: AmongFirst(ops, k, n) && RegSlot(ops[k].reg) == s
  {
    if ops != [] {
      var last := |ops| - 1;
      SomeOperand(ops[..last], n, s);
      forall k: nat | k < last ensures AmongFirst(ops[..last], k, n) <==> AmongFirst(ops, k, n) {
        assert ops[..last][..k] == ops[..k];
      }
    }
  }

  lemma {:induction false} SomeRegister(regs: seq<Reg>, s: nat)
    ensures RegistersAt(regs, s) > 0 <==> exists k :: 0 <= k < |regs| && RegSlot(regs[k]) == s
  {
    if regs != [] {
      SomeRegister(regs[..|regs| - 1], s);
    }
  }

  lemma ReadsIff(i: Insn, s: nat)
    ensures Reads(i, s) > 0 <==> ReadsRegister(i, s)
  {
    hide Reads, OperandsAt, RegistersAt, AmongFirst;
    ReadsAre(i, s);
    SomeOperand(i.ops, 6, s);
    SomeRegister(i.regsRead, s);
  }

  lemma {:induction false} SlotsHold(regs: seq<Reg>, s: nat)
    ensures s in Slots(regs) <==> exists k :: 0 <= k < |regs| && RegSlot(regs[k]) == s
  {
    if regs != [] {
      SlotsHold(regs[..|regs| - 1], s);
    }
  }

  lemma WritesIff(i: Insn, s: nat)
    ensures s in WriteSlots(i) <==> WritesRegister(i, s)
  {
    hide Slots;
    SlotsHold(i.regsWritten, s);
    SlotsHold([], s);
  }

  /** No compare of the instruction set has more than six registers, so none of
      its operands is passed over. */
  lemma FewOperands(ops: seq<Operand>, k: nat)
    requires k < |ops| && ops[k].Register? && |ops| <= 6
    ensures AmongFirst(ops, k, 6)
  {
    RegistersFew(ops[..k]);
  }

  lemma {:induction false} RegistersFew(ops: seq<Operand>)
    ensures NumRegisters(ops) <= |ops|
  {
    if ops != [] {
      RegistersFew(ops[..|ops| - 1]);
    }
  }

  // --- Definitions and loads ---

  /** What an instruction defines: a first register operand it writes, unless it
      is a store or that is the stack pointer. */
  lemma DefSlotIff(i: Insn, s: nat)
    ensures DefSlot(i) == Some(s) <==>
            && |i.ops| >= 1 && i.ops[0].Register? && RegSlot(i.ops[0].reg) == s && s != 31
            && !IsStore(i.id) && WritesRegister(i, s)
  {
    hide WriteSlots, IsStore;
    WritesIff(i, s);
  }

  /** The MOV of a register with a slot, other than the stack pointer. */
  predicate MovesRegister(i: Insn) {
    i.id == MOV && |i.ops| == 2 && i.ops[1].Register? && RegSlot(i.ops[1].reg) >= 0 && RegSlot(i.ops[1].reg) != 31
  }

  predicate MovesImmediate(i: Insn) {
    i.id == MOV && |i.ops| == 2 && i.ops[1].Immediate?
  }

  /** A load of one, two or four bytes, as the scan files it. */
  predicate NarrowLoad(i: Insn) {
    || i.id in {LDRB, LDRH}
    || (i.id == LDR && |i.ops| >= 1 && i.ops[0].Register? && !i.ops[0].reg.X? && !i.ops[0].reg.Xzr?)
  }

  predicate PlainAlu(i: Insn) {
    i.id in {ADD, SUB, AND, ORR, EOR, BIC} && !i.updateFlags
  }

  /** Which instructions start a def, of what kind, and that it is pure exactly
      when it is no load. */
  lemma StartIff(i: Insn)
    ensures StartOf(i).Some? <==>
            DefSlot(i).Some?
            && (UseClass(i.id) == "extend" || NarrowLoad(i) || MovesRegister(i) || MovesImmediate(i) || PlainAlu(i))
    ensures StartOf(i).Some? ==>
              var d := StartOf(i).value;
              && DefSlot(i) == Some(d.slot) && (d.pure <==> UseClass(i.id) != "load")
              && d.kind == (if UseClass(i.id) == "extend" then 'e' else if UseClass(i.id) == "load" then 'l'
                            else if MovesRegister(i) then 'm' else 'a')
              && d.detail == (if i.id == LDR then "ldrw" else if MovesRegister(i) then "movrr"
                              else if i.id == MOV then "movimm" else i.mnemonic)
    ensures AluSlot(i) == if PlainAlu(i) then DefSlot(i) else None
    ensures MovImm(i)
            == if MovesImmediate(i) && DefSlot(i).Some? then Some((DefSlot(i).value, i.ops[1].value)) else None
  {
    hide DefSlot;
  }

  /** What a plain load is filed under: its base, offset and size, when it is of
      that shape. */
  lemma KeyIff(i: Insn, key: Key)
    ensures KeyOf(i) == Some(key) <==>
            && |i.ops| == 2 && i.ops[1].Memory? && i.ops[1].index == None && i.ops[1].disp == key.disp && !i.writeback
            && RegSlot(i.ops[1].base) == key.base
            && (|| (i.id == LDRB && key.size == 1) || (i.id == LDRH && key.size == 2)
                || (i.id == LDR && i.ops[0].Register?
                    && key.size == if i.ops[0].reg.X? || i.ops[0].reg.Xzr? then 8 else 4))
  {}

  /** A compare with zero: a CMP of a register that has a slot and an immediate
      zero, with nothing else. */
  lemma ZeroComparedIff(i: Insn, s: nat)
    ensures ZeroCompared(i) == Some(s) <==>
            exists r :: i.id == CMP && i.ops == [Register(r), Immediate(0)] && RegSlot(r) == s
  {
    if ZeroCompared(i) == Some(s) {
      assert i.ops == [Register(i.ops[0].reg), Immediate(0)];
    }
  }

  // --- Kinds of instruction ---

  /** The classes of use, by instruction. */
  function ClassOf(id: Id): Text {
    match id
    case SXTB | SXTH | SXTW | UXTB | UXTH => "extend"
    case SBFX | SBFIZ | UBFX | UBFIZ | SBFM | UBFM => "bitfield"
    case ADD | SUB => "addsub"
    case CMP | CMN => "cmp"
    case AND | ORR | EOR | BIC => "logic"
    case LDR | LDRB | LDRH | LDRSB | LDRSH | LDRSW | LDUR | LDP => "load"
    case STR | STRB | STRH | STUR | STP | STLR | STLRB | STLRH => "store"
    case MOV => "mov"
    case CBZ | CBNZ | TBZ | TBNZ => "cbranch"
    case LSL | LSR | ASR => "shift"
    case MUL | MADD | MSUB | SMULL | UMULL => "mul"
    case _ => "other"
  }

  lemma UseClassIs(id: Id)
    ensures UseClass(id) == ClassOf(id)
  {}

  /** The scan's tables of instructions agree with each other: what it takes for
      a store, load or branch when it names a use, and when it ends what it
      knows. */
  lemma KindsAgree(i: Insn)
    ensures UseClass(i.id) == "store" <==> IsStore(i.id) && i.id !in {STURB, STURH, STXR, STLXR}
    ensures UseClass(i.id) == "cbranch" <==> IsCondBranch(i) && i.id != Id.B
    ensures i.id == Id.B ==> (IsCondBranch(i) <==> !EndsRegion(i)) && (IsCondBranch(i) <==> i.cond.Testing?)
    ensures KeyOf(i).Some? ==> UseClass(i.id) == "load" && !Clobbers(i.id)
    ensures EndsRegion(i) <==> i.id in {RET, BR, ERET, BL, BLR} || (i.id == Id.B && !i.cond.Testing?)
    ensures Clobbers(i.id) <==>
            || IsStore(i.id) || i.id in {BL, BLR, DMB, DSB, ISB, LDAR, LDARB, LDARH, LDAXR, LDXR}
    ensures WritesFlags(i) <==> i.updateFlags || i.id in {CMP, CMN, TST, CCMP, CCMN, FCMP, FCMPE}
    ensures Traps(i) <==> i.id in {UDF, BRK}
  {}
}
