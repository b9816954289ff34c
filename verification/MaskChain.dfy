/**
 A mask or sign extension narrowed by a later one (tools/net11scan.py): which
 two-instruction chains are one instruction, and what that instruction
 computes. Register values are sets of bit positions below 64.
 */
module MaskChain {
  import opened Options
  import opened Widths
  import opened Bits
  import opened Words
  import opened LogicalImmediate
  import opened MoveImmediate

  /** AND with a mask, or sign extension of a low field. */
  datatype Op = And(mask: set<nat>) | Sext(field: nat)

  datatype Spelling = Mov | AndImm | AndsImm | Ubfm | Sbfm

  datatype Role = Role(op: Op, width: nat, d: nat, n: nat, spelling: Spelling)

  const OPC_AND := 0
  const OPC_ANDS := 3
  const OPC_SBFM := 0
  const OPC_UBFM := 2

  /** 0x2A0003E0 under the mask 0xFFE0FFE0: ORR Wd, WZR, Wm. */
  predicate IsMovW(x: Word) {
    x / 0x20_0000 == 0x150 && x / 0x20 % 0x800 == 0x1F
  }

  /** What a word does as a mask or an extension; None when it is neither. */
  function MaskRole(x: Word): Option<Role> {
    var width := Width(x);
    if IsMovW(x) then Some(Role(And(Low(32)), 32, Rd(x), Rm(x), Mov))
    else if Class(x) == LOGICAL_IMM && (Opc(x) == OPC_AND || Opc(x) == OPC_ANDS) then
      if Sf(x) == 0 && NBit(x) == 1 then None
      else
        match LogimmValue(x)
        case None => None
        case Some(v) => Some(Role(And(v), width, Rd(x), Rn(x), if Opc(x) == OPC_ANDS then AndsImm else AndImm))
    else if Class(x) == BITFIELD && Immr(x) == 0 && NBit(x) == Sf(x) then
      if Sf(x) == 0 && Imms(x) >= 32 then None
      else
        var field := Imms(x) + 1;
        if field >= width then None
        else if Opc(x) == OPC_UBFM then Some(Role(And(Low(field)), width, Rd(x), Rn(x), Ubfm))
        else if Opc(x) == OPC_SBFM then Some(Role(Sext(field), width, Rd(x), Rn(x), Sbfm))
        else None
    else None
  }

  /** What a role computes from X; a W write clears bits 63..32. */
  function Apply(op: Op, width: nat, x: set<nat>): set<nat> {
    match op
    case And(mask) => x * mask
    case Sext(field) =>
      var low := x * Low(field);
      if Shr(low, if field > 0 then field - 1 else 0) != {} then low + (Low(width) - Low(field)) else low
  }

  datatype Category = Narrow | Merge | Zero | Resext | Retarget

  /** The consumer changes nothing the producer's value can have. */
  function IsNoop(p: Role, c: Role): bool {
    match (p.op, c.op)
    case (And(pm), And(cm)) => pm - cm == {}
    case (Sext(pf), Sext(cf)) => cf >= pf && c.width == p.width
    case (And(pm), Sext(cf)) => cf > 0 && pm <= Low(cf - 1)
    case (Sext(pf), And(cm)) => Low(p.width) - cm == {}
  }

  function Reach(op: Op): set<nat> {
    match op
    case And(mask) => mask
    case Sext(field) => Low(field)
  }

  /** The mask is 2^k - 1 with k its bit length. */
  predicate IsLowMask(mask: set<nat>) {
    mask == Low(|mask|)
  }

  /** An in-place SXT made dead by an in-place zero extension. */
  predicate DeadSext(p: Role, c: Role) {
    && p.op.Sext? && p.n == p.d && c.d == p.d && c.op.And?
    && (c.spelling == Ubfm || c.spelling == AndImm)
    && IsLowMask(c.op.mask) && |c.op.mask| <= p.op.field
  }

  ghost function Encodable(v: set<nat>, width: nat): bool {
    IsEncodable(v, width)
  }

  /** The category of the pair, None when it is left alone. */
  ghost function Classify(p: Role, c: Role): Option<Category> {
    if p.spelling == AndsImm || c.spelling == Mov then None
    else if p.d == 31 || p.n == 31 || c.n != p.d then None
    else
      var flags := c.spelling == AndsImm;
      if c.d == 31 && !flags then None
      else
        var noop := IsNoop(p, c);
        if noop && c.d == p.d && !flags then None
        else
          var wanted := Reach(c.op) * Low(c.width);
          var passes := Reach(p.op);
          if wanted * passes == wanted && !noop then
            if DeadSext(p, c) then None else Some(Narrow)
          else if p.op.And? && (c.op.And? || noop) then
            var m := p.op.mask * Reach(c.op) * Low(c.width);
            if m == {} then (if flags then None else Some(Zero))
            else if Encodable(m, c.width) then Some(Merge)
            else if !flags && c.width == 64 && m <= Low(32) && Encodable(m, 32) then Some(Merge)
            else None
          else if flags then None
          else if p.op.Sext? && c.op.Sext? && p.op.field <= c.op.field <= p.width then Some(Resext)
          else if p.op.Sext? && c.op.And? && noop then Some(Retarget)
          else None
  }

  /** What the one-instruction rewrite computes from Rs = V. */
  function ChainValue(p: Role, c: Role, cat: Category, v: set<nat>): set<nat> {
    match cat
    case Narrow => Apply(c.op, c.width, v)
    case Zero => {}
    case Merge => v * Reach(p.op) * Reach(c.op) * Low(c.width)
    case Resext => Apply(p.op, c.width, v)
    case Retarget => Apply(p.op, p.width, v)
  }

  // --- Every rewrite keeps the meaning of the pair ---

  predicate ValidRole(r: Role) {
    && (r.width == 32 || r.width == 64) && r.d < 32 && r.n < 32
    && match r.op
       case And(mask) => mask <= Low(r.width)
       case Sext(field) => 1 <= field < r.width
  }

  lemma MaskRoleValid(x: Word)
    requires MaskRole(x).Some?
    ensures ValidRole(MaskRole(x).value)
    ensures MaskRole(x).value.op.Sext? <==> MaskRole(x).value.spelling == Sbfm
  {
    hide Decode, LogimmValue, Low, Class, Opc, NBit, Sf, Immr, Imms, Rd, Rn, Rm, Width, IsMovW;
    if LogimmValue(x).Some? {
      LogimmBelow(x);
    }
    NarrowMask();
  }

  lemma NarrowMask()
    ensures forall n: nat, m: nat | n <= m :: Low(n) <= Low(m)
  {}

  lemma ApplyBits(op: Op, width: nat, x: set<nat>, j: nat)
    requires width <= 64
    requires op.Sext? ==> 1 <= op.field < width
    ensures j in Apply(op, width, x) <==>
              match op
              case And(mask) => j in x && j in mask
              case Sext(field) => if j < field then j in x else j < width && field - 1 in x
  {
    if op.Sext? {
      var low := x * Low(op.field);
      var top := Shr(low, op.field - 1);
      if op.field - 1 in x {
        assert 0 in top;
      } else {
        assert forall i: nat :: i !in top;
      }
    }
  }

  lemma DifferenceEmpty(a: set<nat>, b: set<nat>)
    ensures a - b == {} <==> a <= b
  {
    if a - b == {} {
      forall i | i in a ensures i in b {
        assert i !in a - b;
      }
    }
  }

  lemma MeetIsSubset(a: set<nat>, b: set<nat>)
    ensures a * b == a <==> a <= b
  {
  }

  lemma ReachBelow(r: Role)
    requires ValidRole(r)
    ensures Reach(r.op) * Low(r.width) == Reach(r.op)
  {
  }

  /** In all five categories and all mixes of W and X, for every value of the
      source register, the rewrite computes what the two instructions did. */
  lemma RewritePreservesValue(p: Role, c: Role, cat: Category, v: set<nat>)
    requires ValidRole(p) && ValidRole(c) && Classify(p, c) == Some(cat)
    ensures ChainValue(p, c, cat, v) == Apply(c.op, c.width, Apply(p.op, p.width, v))
  {
    hide Encodable, Low, Apply;
    var once := Apply(p.op, p.width, v);
    DifferenceEmpty(Low(p.width), Reach(c.op));
    ReachBelow(c);
    MeetIsSubset(Reach(c.op) * Low(c.width), Reach(p.op));
    forall j: nat
      ensures j in ChainValue(p, c, cat, v) <==> j in Apply(c.op, c.width, once)
    {
      ApplyBits(c.op, c.width, once, j);
      ApplyBits(c.op, c.width, v, j);
      if cat == Resext {
        ApplyBits(p.op, c.width, v, j);
      }
      ApplyBits(p.op, p.width, v, j);
      if c.op.Sext? {
        ApplyBits(p.op, p.width, v, c.op.field - 1);
        assert c.op.field - 1 in Reach(c.op);
      }
      assert j in Reach(c.op) <==> j in Reach(c.op) * Low(c.width);
    }
  }

  // --- When the consumer is a no-op ---

  ghost predicate IsIdentity(p: Role, c: Role) {
    forall v: set<nat> | v <= Low(64) ::
      Apply(c.op, c.width, Apply(p.op, p.width, v)) == Apply(p.op, p.width, v)
  }

  /** A W extension read by an X extension of a field wider than 32: a no-op
      the classifier does not call one. */
  predicate WideOverNarrow(p: Role, c: Role) {
    p.op.Sext? && c.op.Sext? && c.op.field > p.width
  }

  lemma NoopKeeps(p: Role, c: Role, v: set<nat>)
    requires ValidRole(p) && ValidRole(c)
    requires IsNoop(p, c) || WideOverNarrow(p, c)
    ensures Apply(c.op, c.width, Apply(p.op, p.width, v)) == Apply(p.op, p.width, v)
  {
    hide Low, Apply;
    var once := Apply(p.op, p.width, v);
    DifferenceEmpty(Reach(p.op), Reach(c.op));
    DifferenceEmpty(Low(p.width), Reach(c.op));
    forall j: nat ensures j in Apply(c.op, c.width, once) <==> j in once {
      ApplyBits(c.op, c.width, once, j);
      ApplyBits(p.op, p.width, v, j);
      if c.op.Sext? {
        ApplyBits(p.op, p.width, v, c.op.field - 1);
      }
    }
  }

  /** A source value on which the consumer is not the identity. */
  lemma NotNoopChanges(p: Role, c: Role) returns (v: set<nat>)
    requires ValidRole(p) && ValidRole(c)
    requires !IsNoop(p, c) && !WideOverNarrow(p, c)
    ensures v <= Low(64)
    ensures Apply(c.op, c.width, Apply(p.op, p.width, v)) != Apply(p.op, p.width, v)
  {
    hide Low, Apply;
    var j: nat;
    if p.op.And? && c.op.And? {
      j :| j in p.op.mask - c.op.mask;
      v := {j};
    } else if p.op.And? {
      j :| j in p.op.mask && j !in Low(c.op.field - 1);
      v := {j};
      j := if j == c.op.field - 1 then c.op.field else j;
    } else if c.op.And? {
      j :| j in Low(p.width) - c.op.mask;
      v := Low(64);
    } else if c.op.field < p.op.field {
      v := {c.op.field - 1};
      j := c.op.field;
    } else {
      v := Low(64);
      j := if c.width < p.width then c.width else p.width;
    }
    var once := Apply(p.op, p.width, v);
    ApplyBits(c.op, c.width, once, j);
    ApplyBits(p.op, p.width, v, j);
    if c.op.Sext? {
      ApplyBits(p.op, p.width, v, c.op.field - 1);
    }
  }

  /** The classifier's no-op test is sound, and the one family it leaves out
      is a W extension under an X extension of more than 32 bits. */
  lemma NoopIff(p: Role, c: Role)
    requires ValidRole(p) && ValidRole(c)
    ensures IsIdentity(p, c) <==> IsNoop(p, c) || WideOverNarrow(p, c)
  {
    hide Apply, IsNoop;
    if IsNoop(p, c) || WideOverNarrow(p, c) {
      forall v: set<nat> | v <= Low(64)
        ensures Apply(c.op, c.width, Apply(p.op, p.width, v)) == Apply(p.op, p.width, v)
      {
        NoopKeeps(p, c, v);
      }
    } else {
      var v := NotNoopChanges(p, c);
    }
  }

  // --- The rewrite is one instruction ---

  lemma MovWClass(x: Word)
    requires IsMovW(x)
    ensures Class(x) == 0x14
  {
  }

  /** A mask role other than MOV depends on these fields alone. */
  lemma RoleOfFields(sf: nat, opc: nat, cls: nat, n: nat, immr: nat, imms: nat, rn: nat, rd: nat)
    requires sf < 2 && opc < 4 && n < 2 && immr < 64 && imms < 64 && rn < 32 && rd < 32
    requires cls == LOGICAL_IMM || cls == BITFIELD
    ensures var x := BitImm(sf, opc, cls, n, immr, imms, rn, rd);
            var width := if sf == 1 then 64 else 32;
            MaskRole(x) ==
            if cls == LOGICAL_IMM then
              if (opc == OPC_AND || opc == OPC_ANDS) && n <= sf && Decode(n, immr, imms, width).Some?
              then Some(Role(And(Decode(n, immr, imms, width).value), width, rd, rn,
                             if opc == OPC_ANDS then AndsImm else AndImm))
              else None
            else if immr == 0 && n == sf && imms + 1 < width && opc == OPC_UBFM
            then Some(Role(And(Low(imms + 1)), width, rd, rn, Ubfm))
            else if immr == 0 && n == sf && imms + 1 < width && opc == OPC_SBFM
            then Some(Role(Sext(imms + 1), width, rd, rn, Sbfm))
            else None
  {
    hide BitImm, Decode, Low, IsMovW;
    var x := BitImm(sf, opc, cls, n, immr, imms, rn, rd);
    if IsMovW(x) {
      MovWClass(x);
    }
  }

  /** X, an AND, UBFM or SBFM, with other registers. */
  function WithRegisters(x: Word, rn: nat, rd: nat): Word
    requires rn < 32 && rd < 32
  {
    BitImm(Sf(x), Opc(x), Class(x), NBit(x), Immr(x), Imms(x), rn, rd)
  }

  lemma WithRegistersRole(x: Word, rn: nat, rd: nat)
    requires rn < 32 && rd < 32
    requires MaskRole(x).Some? && MaskRole(x).value.spelling != Mov
    ensures MaskRole(WithRegisters(x, rn, rd)) == Some(MaskRole(x).value.(d := rd, n := rn))
  {
    hide BitImm, Decode, Low, IsMovW, Sf, Opc, Class, NBit, Immr, Imms;
    RoleOfFields(Sf(x), Opc(x), Class(x), NBit(x), Immr(x), Imms(x), rn, rd);
  }

  /** Z is a mask or extension of Rs into the consumer's register, setting
      flags exactly if the consumer did (and then at its width, from the same
      value), that computes the pair's value. */
  ghost predicate Replaces(z: Word, p: Role, c: Role, cat: Category) {
    && MaskRole(z).Some?
    && var r := MaskRole(z).value;
       && r.n == p.n && r.d == c.d
       && (r.spelling == AndsImm <==> c.spelling == AndsImm)
       && (r.spelling == AndsImm ==> r.width == c.width)
       && forall v: set<nat> | v <= Low(64) ::
            Apply(r.op, r.width, v) == Apply(c.op, c.width, Apply(p.op, p.width, v))
  }

  /** For every accepted pair of words there is one instruction that does what
      the two did: an instruction of the same family on the original source,
      or, in the zero category, a MOV of 0. */
  lemma RewriteIsOneInstruction(x: Word, y: Word, cat: Category) returns (z: Word)
    requires MaskRole(x).Some? && MaskRole(y).Some?
    requires Classify(MaskRole(x).value, MaskRole(y).value) == Some(cat)
    ensures var p, c := MaskRole(x).value, MaskRole(y).value;
            if cat == Zero then
              && ConstValue(z) == Some({}) && Rd(z) == c.d
              && forall v: set<nat> :: Apply(c.op, c.width, Apply(p.op, p.width, v)) == {}
            else Replaces(z, p, c, cat)
  {
    hide MaskRole, Apply, BitImm, MoveWide, Low, Decode, Encodable;
    var p, c := MaskRole(x).value, MaskRole(y).value;
    MaskRoleValid(x);
    MaskRoleValid(y);
    forall v: set<nat>
      ensures Apply(c.op, c.width, Apply(p.op, p.width, v)) == ChainValue(p, c, cat, v)
    {
      RewritePreservesValue(p, c, cat, v);
    }
    var sf := if c.width == 64 then 1 else 0;
    match cat
    case Narrow =>
      z := WithRegisters(y, p.n, c.d);
      WithRegistersRole(y, p.n, c.d);
    case Retarget =>
      z := WithRegisters(x, p.n, c.d);
      WithRegistersRole(x, p.n, c.d);
    case Resext =>
      z := BitImm(sf, OPC_SBFM, BITFIELD, sf, 0, p.op.field - 1, p.n, c.d);
      RoleOfFields(sf, OPC_SBFM, BITFIELD, sf, 0, p.op.field - 1, p.n, c.d);
    case Merge =>
      z := MergedWord(p, c);
    case Zero =>
      z := MoveWide(sf, OPC_MOVZ, 0, 0, c.d);
      ZeroWord(sf, c.d);
  }

  lemma ZeroWord(sf: nat, d: nat)
    requires sf < 2 && d < 32
    ensures ConstValue(MoveWide(sf, OPC_MOVZ, 0, 0, d)) == Some({})
  {
    hide BitsOf, MoveWide, Shl;
    NumOfZero(16);
    BitsOfNumOf({}, 16);
    assert BitsOf(0, 16) == {};
    var none: set<nat> := {};
    assert Shl(none, 0) == none;
  }

  lemma NumOfZero(w: nat)
    ensures NumOf({}, w) == 0
  {
  }

  lemma MergedWord(p: Role, c: Role) returns (z: Word)
    requires ValidRole(p) && ValidRole(c) && Classify(p, c) == Some(Merge)
    ensures MaskRole(z).Some?
    ensures var r := MaskRole(z).value;
            && r.n == p.n && r.d == c.d
            && (r.spelling == AndsImm <==> c.spelling == AndsImm)
            && (r.spelling == AndsImm ==> r.width == c.width)
            && forall v: set<nat> :: Apply(r.op, r.width, v) == ChainValue(p, c, Merge, v)
  {
    hide MaskRole, BitImm, Low, Decode;
    var m := p.op.mask * Reach(c.op) * Low(c.width);
    var width := if Encodable(m, c.width) then c.width else 32;
    var n: nat, r: nat, s: nat :| Enumerated(n, r, s, width) && Decode(n, r, s, width) == Some(m);
    var sf := if width == 64 then 1 else 0;
    var opc := if c.spelling == AndsImm then OPC_ANDS else OPC_AND;
    z := BitImm(sf, opc, LOGICAL_IMM, n, r, s, p.n, c.d);
    RoleOfFields(sf, opc, LOGICAL_IMM, n, r, s, p.n, c.d);
    forall v: set<nat> ensures v * m == ChainValue(p, c, Merge, v) {
    }
  }
}
