/**
 What tools/defuse.c reads of one disassembled instruction, and the questions
 it asks of it. The decoding itself, and which registers an instruction is said
 to read and write, are given: any record at all may come.
 */
module Insns {
  import opened Options

  type Text = seq<char>
  type GprNumber = n: nat | n < 31
  type FpNumber = n: nat | n < 32

  datatype FpSize = B | H | S | D | Q | V

  datatype Reg =
    | W(n: GprNumber)
    | X(n: GprNumber)
    | Wsp
    | Sp
    | Wzr
    | Xzr
    | Fp(size: FpSize, v: FpNumber)
    | OtherReg(code: nat)

  datatype Operand =
    | Register(reg: Reg)
    | Immediate(value: int)
    | Memory(base: Reg, index: Option<Reg>, disp: int)
    | OtherOperand

  /** The condition of a B: absent, AL, NV or one of the fourteen that test. */
  datatype Condition = Absent | Always | Never | Testing(cond: nat)

  datatype Id =
    | SXTB | SXTH | SXTW | UXTB | UXTH
    | SBFX | SBFIZ | UBFX | UBFIZ | SBFM | UBFM
    | ADD | SUB | AND | ORR | EOR | BIC
    | CMP | CMN | TST | CCMP | CCMN | FCMP | FCMPE
    | LDR | LDRB | LDRH | LDRSB | LDRSH | LDRSW | LDUR | LDP
    | STR | STRB | STRH | STUR | STURB | STURH | STP | STLR | STLRB | STLRH | STXR | STLXR
    | DMB | DSB | ISB | LDAR | LDARB | LDARH | LDAXR | LDXR
    | MOV | LSL | LSR | ASR | MUL | MADD | MSUB | SMULL | UMULL
    | CBZ | CBNZ | TBZ | TBNZ | B | BL | BLR | BR | RET | ERET
    | UDF | BRK
    | OTHER(code: nat)

  datatype Insn = Insn(
    id: Id,
    mnemonic: Text,
    ops: seq<Operand>,
    updateFlags: bool,
    writeback: bool,
    cond: Condition,
    regsRead: seq<Reg>,
    regsWritten: seq<Reg>)

  const NSLOT: nat := 96

  /** The tracking slot of a register: every name of one register shares it. */
  function RegSlot(r: Reg): (s: int)
    ensures -1 <= s < NSLOT
  {
    match r
    case W(n) => n
    case X(n) => n
    case Wsp => 31
    case Sp => 31
    case Fp(_, n) => 64 + n
    case Wzr => -1
    case Xzr => -1
    case OtherReg(_) => -1
  }

  /** The names R and R' stand for one register: a general one at either width,
      the stack pointer, or a vector register at any size. */
  predicate SameRegister(r: Reg, r': Reg) {
    || (r.Fp? && r'.Fp? && r.v == r'.v)
    || ((r.W? || r.X?) && (r'.W? || r'.X?) && r.n == r'.n)
    || ((r.Sp? || r.Wsp?) && (r'.Sp? || r'.Wsp?))
  }

  /** Tracked names share a slot exactly when they name one register; the zero
      registers and anything else have none. */
  lemma SameSlotIff(r: Reg, r': Reg)
    ensures RegSlot(r) == RegSlot(r') >= 0 <==> SameRegister(r, r')
    ensures RegSlot(r) >= 0 <==> !r.Wzr? && !r.Xzr? && !r.OtherReg?
  {}

  /** The slots of a register list, registers without one dropped. */
  function Slots(regs: seq<Reg>): (s: seq<nat>)
    ensures forall k | 0 <= k < |s| :: s[k] < NSLOT
  {
    if regs == [] then []
    else
      var r := RegSlot(regs[|regs| - 1]);
      if r < 0 then Slots(regs[..|regs| - 1]) else Slots(regs[..|regs| - 1]) + [r]
  }

  predicate IsCompare(id: Id) {
    id.CMP? || id.CMN? || id.TST? || id.CCMP? || id.CCMN?
  }

  /** The first N registers among the operands. */
  function OperandRegs(ops: seq<Operand>, n: nat): seq<Reg> {
    if ops == [] || n == 0 then []
    else if ops[0].Register? then [ops[0].reg] + OperandRegs(ops[1..], n - 1)
    else OperandRegs(ops[1..], n)
  }

  function ReadSlots(i: Insn): (s: seq<nat>)
    ensures forall k | 0 <= k < |s| :: s[k] < NSLOT
  {
    Slots(if IsCompare(i.id) then OperandRegs(i.ops, 6) else i.regsRead)
  }

  function WriteSlots(i: Insn): (s: seq<nat>)
    ensures forall k | 0 <= k < |s| :: s[k] < NSLOT
  {
    Slots(if IsCompare(i.id) then [] else i.regsWritten)
  }

  /** How often S occurs in a slot list. */
  function Count(slots: seq<nat>, s: nat): nat {
    if slots == [] then 0
    else Count(slots[..|slots| - 1], s) + if slots[|slots| - 1] == s then 1 else 0
  }

  function Reads(i: Insn, s: nat): nat {
    Count(ReadSlots(i), s)
  }

  predicate WritesFlags(i: Insn) {
    i.updateFlags || IsCompare(i.id) || i.id.FCMP? || i.id.FCMPE?
  }

  predicate IsStore(id: Id) {
    || id.STR? || id.STRB? || id.STRH? || id.STUR? || id.STURB? || id.STURH?
    || id.STP? || id.STLR? || id.STLRB? || id.STLRH? || id.STXR? || id.STLXR?
  }

  predicate IsCall(id: Id) {
    id.BL? || id.BLR?
  }

  predicate IsBarrier(id: Id) {
    || id.DMB? || id.DSB? || id.ISB?
    || id.LDAR? || id.LDARB? || id.LDARH? || id.LDAXR? || id.LDXR?
  }

  predicate Clobbers(id: Id) {
    IsStore(id) || IsCall(id) || IsBarrier(id)
  }

  predicate Traps(i: Insn) {
    i.id.UDF? || i.id.BRK?
  }

  predicate IsCondBranch(i: Insn) {
    i.id.CBZ? || i.id.CBNZ? || i.id.TBZ? || i.id.TBNZ? || (i.id.B? && i.cond.Testing?)
  }

  predicate EndsRegion(i: Insn) {
    i.id.RET? || i.id.BR? || i.id.ERET? || (i.id.B? && !i.cond.Testing?) || IsCall(i.id)
  }

  function UseClass(id: Id): Text {
    if id.SXTB? || id.SXTH? || id.SXTW? || id.UXTB? || id.UXTH? then "extend"
    else if id.SBFX? || id.SBFIZ? || id.UBFX? || id.UBFIZ? || id.SBFM? || id.UBFM? then "bitfield"
    else if id.ADD? || id.SUB? then "addsub"
    else if id.CMP? || id.CMN? then "cmp"
    else if id.AND? || id.ORR? || id.EOR? || id.BIC? then "logic"
    else if id.LDR? || id.LDRB? || id.LDRH? || id.LDRSB? || id.LDRSH? || id.LDRSW? || id.LDUR? || id.LDP? then "load"
    else if id.STR? || id.STRB? || id.STRH? || id.STUR? || id.STP? || id.STLR? || id.STLRB? || id.STLRH? then "store"
    else if id.MOV? then "mov"
    else if id.CBZ? || id.CBNZ? || id.TBZ? || id.TBNZ? then "cbranch"
    else if id.LSL? || id.LSR? || id.ASR? then "shift"
    else if id.MUL? || id.MADD? || id.MSUB? || id.SMULL? || id.UMULL? then "mul"
    else "other"
  }

  // --- Loads ---

  /** What a plain load reads: a base slot, an offset, and a size. */
  datatype Key = Key(base: nat, disp: int, size: nat)

  /** The size the scan files a load under, 0 for what it does not track. */
  function LoadSize(i: Insn): nat {
    match i.id
    case LDRB => 1
    case LDRH => 2
    case LDR =>
      if |i.ops| >= 1 && i.ops[0].Register? then
        (if i.ops[0].reg.X? || i.ops[0].reg.Xzr? then 8 else 4)
      else 0
    case _ => 0
  }

  function KeyOf(i: Insn): Option<Key> {
    if LoadSize(i) == 0 || |i.ops| != 2 || !i.ops[1].Memory? || i.ops[1].index.Some? || i.writeback then None
    else if RegSlot(i.ops[1].base) < 0 then None
    else Some(Key(RegSlot(i.ops[1].base), i.ops[1].disp, LoadSize(i)))
  }

  /** The bytes an LDR of register R really reads. */
  function BytesRead(r: Reg): nat {
    match r
    case X(_) => 8
    case Xzr => 8
    case Fp(size, _) =>
      (match size case B => 1 case H => 2 case S => 4 case D => 8 case Q => 16 case V => 16)
    case _ => 4
  }

  /** The bytes a plain load really reads. */
  function LoadBytes(i: Insn): nat {
    match i.id
    case LDRB => 1
    case LDRH => 2
    case LDR => if |i.ops| >= 1 && i.ops[0].Register? then BytesRead(i.ops[0].reg) else 0
    case _ => 0
  }

  // --- Definitions ---

  /** The slot the instruction defines: its first operand's, when that is a
      register it is said to write, it is no store, and it is not SP's. */
  function DefSlot(i: Insn): (r: Option<nat>)
    ensures r.Some? ==> r.value in WriteSlots(i) && r.value != 31 && r.value < NSLOT
  {
    if |i.ops| == 0 || !i.ops[0].Register? || IsStore(i.id) then None
    else
      var s := RegSlot(i.ops[0].reg);
      if s < 0 || s == 31 || s !in WriteSlots(i) then None else Some(s)
  }

  /** The immediate MOV, whose constant is tracked: the slot and the value. */
  function MovImm(i: Insn): (r: Option<(nat, int)>)
    ensures r.Some? ==> r.value.0 in WriteSlots(i) && r.value.0 < NSLOT
  {
    if i.id.MOV? && DefSlot(i).Some? && |i.ops| == 2 && i.ops[1].Immediate?
    then Some((DefSlot(i).value, i.ops[1].value))
    else None
  }

  /** The definition that has an S form the scan knows. */
  function AluSlot(i: Insn): (r: Option<nat>)
    ensures r.Some? ==> r.value in WriteSlots(i)
  {
    if (i.id.ADD? || i.id.SUB? || i.id.AND? || i.id.ORR? || i.id.EOR? || i.id.BIC?) && !i.updateFlags
    then DefSlot(i)
    else None
  }

  /** A definition the scan starts to follow. */
  datatype Start = Start(slot: nat, kind: char, detail: Text, pure: bool)

  function StartOf(i: Insn): (r: Option<Start>)
    ensures r.Some? ==> r.value.slot in WriteSlots(i)
  {
    match DefSlot(i)
    case None => None
    case Some(s) =>
      if i.id.SXTB? || i.id.SXTH? || i.id.SXTW? || i.id.UXTB? || i.id.UXTH? then
        Some(Start(s, 'e', i.mnemonic, true))
      else if i.id.LDRB? || i.id.LDRH? then Some(Start(s, 'l', i.mnemonic, false))
      else if i.id.LDR? && LoadSize(i) == 4 then Some(Start(s, 'l', "ldrw", false))
      else if i.id.MOV? && |i.ops| == 2 && i.ops[1].Register? then
        (if RegSlot(i.ops[1].reg) >= 0 && RegSlot(i.ops[1].reg) != 31
         then Some(Start(s, 'm', "movrr", true)) else None)
      else if MovImm(i).Some? then Some(Start(s, 'a', "movimm", true))
      else if AluSlot(i).Some? then Some(Start(s, 'a', i.mnemonic, true))
      else None
  }

  /** The slot a CMP tests against zero. */
  function ZeroCompared(i: Insn): Option<nat> {
    if i.id.CMP? && |i.ops| == 2 && i.ops[1] == Immediate(0) && i.ops[0].Register? && RegSlot(i.ops[0].reg) >= 0
    then Some(RegSlot(i.ops[0].reg)) else None
  }
}
