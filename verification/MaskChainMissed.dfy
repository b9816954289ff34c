/**
 What the mask-chain classifier of tools/net11scan.py leaves alone although one
 instruction would do.
 */
module MaskChainMissed {
  import opened Options
  import opened Widths
  import opened Arithmetic
  import opened Bits
  import opened Words
  import opened LogicalImmediate
  import opened MoveImmediate
  import opened MaskChain

  /** The two instructions in a row. */
  function Then(p: Role, c: Role, v: set<nat>): set<nat> {
    Apply(c.op, c.width, Apply(p.op, p.width, v))
  }

  /** One instruction keeps just these bits: a move of zero, or an AND. */
  ghost predicate OneMask(m: set<nat>) {
    m == {} || IsEncodable(m, 32) || IsEncodable(m, 64)
  }

  /** One instruction computes OP at WIDTH. */
  ghost predicate OneOp(op: Op, width: nat) {
    (width == 32 || width == 64)
    && match op
       case And(m) => OneMask(m)
       case Sext(field) => 1 <= field < width
  }

  ghost predicate Computes(op: Op, width: nat, p: Role, c: Role) {
    forall v: set<nat> | v <= Low(64) :: Apply(op, width, v) == Then(p, c, v)
  }

  /** Some one instruction computes what the two do. */
  ghost predicate Foldable(p: Role, c: Role) {
    exists op: Op, width: nat :: OneOp(op, width) && Computes(op, width, p, c)
  }

  /** None of the classifier's refusals on registers, spelling or flags applies. */
  predicate Considered(p: Role, c: Role) {
    && p.spelling != AndsImm && c.spelling != Mov && c.spelling != AndsImm
    && p.d != 31 && p.n != 31 && c.n == p.d && c.d != 31
    && !(IsNoop(p, c) && c.d == p.d) && !DeadSext(p, c)
    && (c.op.And? ==> c.op.mask != Low(c.width))
  }

  /** The four families. A sign extension whose sign bit the mask has cleared,
      though the mask also keeps bits above it; a mask of an extension's low
      word, which is the W extension; a mask of a W extension that misses every
      copy of the sign but has bits in the cleared half; and a W extension
      under an X one of more than 32 bits. */
  ghost predicate LeftAlone(p: Role, c: Role) {
    match (p.op, c.op)
    case (And(_), And(_)) => false
    case (And(pm), Sext(cf)) => cf >= 1 && cf - 1 !in pm && !(pm <= Low(cf - 1)) && OneMask(pm * Low(cf - 1))
    case (Sext(pf), And(cm)) =>
      || (p.width == 64 && pf < 32 && cm == Low(32))
      || (!(cm <= Low(pf)) && (forall j | pf <= j < p.width :: j !in cm) && OneMask(cm * Low(pf)))
    case (Sext(_), Sext(cf)) => cf > p.width
  }

  /** Bit J after both. */
  lemma ThenBit(p: Role, c: Role, v: set<nat>, j: nat)
    requires ValidRole(p) && ValidRole(c)
    ensures c.op.And? ==> (j in Then(p, c, v) <==> j in Apply(p.op, p.width, v) && j in c.op.mask)
    ensures c.op.Sext? ==> (j in Then(p, c, v) <==>
              if j < c.op.field then j in Apply(p.op, p.width, v)
              else j < c.width && c.op.field - 1 in Apply(p.op, p.width, v))
    ensures p.op.And? ==> (j in Apply(p.op, p.width, v) <==> j in v && j in p.op.mask)
    ensures p.op.Sext? ==> (j in Apply(p.op, p.width, v) <==>
              if j < p.op.field then j in v else j < p.width && p.op.field - 1 in v)
  {
    hide Apply;
    ApplyBits(c.op, c.width, Apply(p.op, p.width, v), j);
    ApplyBits(p.op, p.width, v, j);
  }

  /** An in-place zero extension makes an in-place sign extension dead exactly
      when, whatever the register holds, leaving the extension out changes
      nothing the mask keeps. */
  lemma DeadSextIff(p: Role, c: Role)
    requires ValidRole(p) && ValidRole(c) && p.op.Sext? && c.op.And?
    ensures DeadSext(p, c) <==>
            && p.n == p.d == c.d && c.spelling in {Ubfm, AndImm} && IsLowMask(c.op.mask)
            && forall v: set<nat> | v <= Low(64) :: Then(p, c, v) == Apply(c.op, c.width, v)
  {
    hide Apply, Then;
    var mask, field := c.op.mask, p.op.field;
    forall v: set<nat> | v <= Low(64) && mask <= Low(field) ensures Then(p, c, v) == Apply(c.op, c.width, v) {
      forall j: nat ensures j in Then(p, c, v) <==> j in Apply(c.op, c.width, v) {
        ThenBit(p, c, v, j);
        ApplyBits(c.op, c.width, v, j);
      }
    }
    if j: nat :| j in mask && j !in Low(field) {
      var v: set<nat> := {j};
      assert v <= Low(64);
      ThenBit(p, c, v, j);
      ApplyBits(c.op, c.width, v, j);
      assert j in Apply(c.op, c.width, v) && j !in Then(p, c, v);
    }
    if IsLowMask(mask) {
      assert mask <= Low(field) <==> |mask| <= field by {
        LowWithin(|mask|, field);
      }
    }
  }

  lemma LowWithin(k: nat, n: nat)
    ensures Low(k) <= Low(n) <==> k <= n
  {
    if k > n {
      assert n in Low(k) && n !in Low(n);
    }
  }

  // --- Pairs that are one mask ---

  ghost predicate IsMask(p: Role, c: Role, m: set<nat>) {
    m <= Low(64) && forall v: set<nat> | v <= Low(64) :: Then(p, c, v) == v * m
  }

  /** An extension is no mask: its sign bit alone sets the next. */
  lemma SextIsNoMask(field: nat, width: nat, p: Role, c: Role, m: set<nat>)
    requires IsMask(p, c, m) && 1 <= field < width <= 64
    ensures !Computes(Sext(field), width, p, c)
  {
    hide Apply, Then;
    var v: set<nat> := {field - 1};
    ApplyBits(Sext(field), width, v, field);
    assert v <= Low(64) && field !in v * m;
  }

  lemma OneOpNames(op: Op, width: nat, p: Role, c: Role)
    requires OneOp(op, width) && Computes(op, width, p, c)
    ensures Foldable(p, c)
  {
    hide OneOp, Computes;
  }

  /** Then the pair is foldable exactly when the mask is one instruction's. */
  lemma MaskFoldable(p: Role, c: Role, m: set<nat>)
    requires IsMask(p, c, m)
    ensures Foldable(p, c) <==> OneMask(m)
  {
    hide Then, OneMask;
    if OneMask(m) {
      assert Computes(And(m), 64, p, c);
      OneOpNames(And(m), 64, p, c);
    }
    if op: Op, width: nat :| OneOp(op, width) && Computes(op, width, p, c) {
      match op
      case Sext(field) =>
        SextIsNoMask(field, width, p, c, m);
      case And(other) =>
        SameMask(other, width, p, c, m);
    }
  }

  lemma SameMask(other: set<nat>, width: nat, p: Role, c: Role, m: set<nat>)
    requires IsMask(p, c, m) && OneOp(And(other), width) && Computes(And(other), width, p, c)
    ensures other == m
  {
    hide Then, OneMask;
    OneMaskBelow(other);
    var all := Low(64);
    assert Apply(And(other), width, all) == all * other;
    assert all * other == other && all * m == m;
  }

  lemma OneMaskBelow(m: set<nat>)
    requires OneMask(m)
    ensures m <= Low(64)
  {
    hide IsEncodable;
    if IsEncodable(m, 32) {
      NeverEmptyNorFull(m, 32);
    } else if IsEncodable(m, 64) {
      NeverEmptyNorFull(m, 64);
    }
  }

  /** A run of bits inside the low word, other than the whole word, is a W
      immediate as soon as it is an X one. */
  lemma NarrowMaskEncodes(m: set<nat>)
    requires m <= Low(32) && m != Low(32) && IsEncodable(m, 64)
    ensures IsEncodable(m, 32)
  {
    hide IsEncodable, Pattern, Low;
    EncodableIffPattern(m, 64);
    NeverEmptyNorFull(m, 64);
    var esize: nat, len: nat, rot: nat :| ValidShape(esize, len, rot, 64) && m == Pattern(esize, len, rot, 64);
    LowRun(esize, len, rot, m);
    EncodableIffPattern(m, 32);
  }

  lemma LowRun(esize: nat, len: nat, rot: nat, m: set<nat>)
    requires ValidShape(esize, len, rot, 64) && m == Pattern(esize, len, rot, 64)
    requires m != {} && m <= Low(32) && m != Low(32)
    ensures IsPattern(m, 32)
  {
    hide Pattern;
    if esize < 64 {
      var j :| j in m;
      RepeatsAbove(esize, len, rot, j);
    } else {
      LowRunPlace(len, rot);
      forall j: nat ensures j in m <==> j in Pattern(32, len, rot % 32, 32) {
        LowRunTurned(len, rot, j);
      }
      assert m == Pattern(32, len, rot % 32, 32);
      assert ValidShape(32, len, rot % 32, 32);
    }
  }

  lemma RepeatsAbove(esize: nat, len: nat, rot: nat, j: nat)
    requires esize in {2, 4, 8, 16, 32}
    ensures j < 32 && j in Pattern(esize, len, rot, 64) ==> j + 32 in Pattern(esize, len, rot, 64)
  {
    hide Pattern;
    HalfTurn(j + rot, esize);
  }

  /** The run starts at (64 - rot) % 64 and ends below 32. */
  lemma LowRunPlace(len: nat, rot: nat)
    requires 1 <= len < 64 && rot < 64
    requires Pattern(64, len, rot, 64) <= Low(32) && Pattern(64, len, rot, 64) != Low(32)
    ensures var start := (64 - rot) % 64; start + len <= 32 && len < 32
  {
    hide Pattern, Low;
    RunStart(rot);
    RunEnd(len, rot);
    FullRun();
  }

  lemma RunStart(rot: nat)
    requires rot < 64
    ensures (64 - rot) % 64 == if rot == 0 then 0 else 64 - rot
  {}

  /** The run's last bit, or bit 63 when it wraps. */
  lemma RunEnd(len: nat, rot: nat)
    requires 1 <= len < 64 && rot < 64
    ensures var start := if rot == 0 then 0 else 64 - rot;
            var last := if start + len <= 64 then start + len - 1 else 63;
            last in Pattern(64, len, rot, 64)
  {
    hide Pattern;
    var start := if rot == 0 then 0 else 64 - rot;
    var last := if start + len <= 64 then start + len - 1 else 63;
    if rot == 0 {
      ModOnce(last, 64);
    } else {
      ModOnce(last + rot, 64);
    }
  }

  lemma FullRun()
    ensures Pattern(64, 32, 0, 64) == Low(32)
  {
    hide Pattern;
    assert forall j: nat :: j in Pattern(64, 32, 0, 64) <==> j in Low(32);
  }

  lemma LowRunTurned(len: nat, rot: nat, j: nat)
    requires rot < 64 && 1 <= len < 32 && (64 - rot) % 64 + len <= 32
    ensures j in Pattern(64, len, rot, 64) <==> j in Pattern(32, len, rot % 32, 32)
  {
    hide Pattern;
    var start := (64 - rot) % 64;
    if j < 64 {
      assert (j + rot) % 64 == if j >= start then j - start else j - start + 64;
    }
    if j < 32 {
      assert (j + rot % 32) % 32 == if j >= start then j - start else j - start + 32;
    }
  }

  // --- The classifier's answer, case by case ---

  /** Where the pair keeps the bits M and no others, the classifier takes it
      whenever one instruction does. */
  lemma MaskTaken(p: Role, c: Role, m: set<nat>)
    requires ValidRole(p) && ValidRole(c) && Considered(p, c) && p.op.And? && (c.op.And? || IsNoop(p, c))
    requires m == p.op.mask * Reach(c.op) * Low(c.width) && !(m == Low(32) && c.width == 32)
    requires OneMask(m)
    ensures Classify(p, c).Some?
  {
    hide IsEncodable, IsNoop, DeadSext;
    if IsEncodable(m, 32) {
      NeverEmptyNorFull(m, 32);
    } else if IsEncodable(m, 64) && c.width == 32 {
      NarrowMaskEncodes(m);
    }
  }

  lemma MaskOfBoth(p: Role, c: Role)
    requires ValidRole(p) && ValidRole(c) && p.op.And? && c.op.And?
    ensures IsMask(p, c, p.op.mask * c.op.mask)
  {
    forall v: set<nat> | v <= Low(64) ensures Then(p, c, v) == v * (p.op.mask * c.op.mask) {
      assert v * p.op.mask * c.op.mask == v * (p.op.mask * c.op.mask);
    }
    LowGrows(p.width);
  }

  lemma LowGrows(width: nat)
    requires width <= 64
    ensures Low(width) <= Low(64)
  {}

  lemma TwoMasks(p: Role, c: Role)
    requires ValidRole(p) && ValidRole(c) && Considered(p, c) && p.op.And? && c.op.And?
    ensures Classify(p, c) == None ==> !Foldable(p, c)
  {
    hide Then, OneMask, Classify, IsMask, Low;
    var m := p.op.mask * c.op.mask;
    MaskOfBoth(p, c);
    MaskFoldable(p, c, m);
    assert m == m * Low(c.width);
    if OneMask(m) {
      MaskTaken(p, c, m);
    }
  }

  /** A mask that clears the sign bit leaves the extension nothing to copy. */
  lemma SignCleared(p: Role, c: Role)
    requires ValidRole(p) && ValidRole(c) && p.op.And? && c.op.Sext? && c.op.field - 1 !in p.op.mask
    ensures IsMask(p, c, p.op.mask * Low(c.op.field - 1))
  {
    hide Then, Low;
    var m := p.op.mask * Low(c.op.field - 1);
    LowGrows(p.width);
    forall v: set<nat> | v <= Low(64) ensures Then(p, c, v) == v * m {
      forall j: nat ensures j in Then(p, c, v) <==> j in v * m {
        ThenBit(p, c, v, j);
        ThenBit(p, c, v, c.op.field - 1);
      }
    }
  }

  /** An extension that copies the sign bit but misses a bit below is no single
      mask and no single extension. */
  lemma SignKept(p: Role, c: Role, k: nat)
    requires ValidRole(p) && ValidRole(c) && p.op.And? && c.op.Sext?
    requires c.op.field - 1 in p.op.mask && k < c.op.field && k !in p.op.mask
    ensures !Foldable(p, c)
  {
    hide Then, Apply, OneMask, Low;
    var sign: set<nat>, one: set<nat> := {c.op.field - 1}, {k};
    LowHolds(c.op.field - 1);
    LowHolds(k);
    if op: Op, width: nat :| OneOp(op, width) && Computes(op, width, p, c) {
      ThenBit(p, c, sign, c.op.field);
      ThenBit(p, c, sign, c.op.field - 1);
      ThenBit(p, c, one, k);
      ApplyOne(op, width, c.op.field - 1, c.op.field);
      if op.Sext? {
        ApplyBits(op, width, one, k);
      }
    }
  }

  lemma LowHolds(j: nat)
    ensures j < 64 <==> {j} <= Low(64)
  {}

  /** Only the extension from bit I carries bit I into a later one. */
  lemma ApplyOne(op: Op, width: nat, i: nat, j: nat)
    requires OneOp(op, width) && i < j
    ensures j in Apply(op, width, {i}) <==> op == Sext(i + 1) && j < width
  {
    hide Apply, OneMask;
    ApplyBits(op, width, {i}, j);
  }

  lemma MaskThenSext(p: Role, c: Role)
    requires ValidRole(p) && ValidRole(c) && Considered(p, c) && p.op.And? && c.op.Sext?
    ensures Classify(p, c) == None && Foldable(p, c) <==> LeftAlone(p, c)
  {
    hide Then, OneMask, Classify, IsMask, Low, Considered, DeadSext, Foldable;
    var pm, cf := p.op.mask, c.op.field;
    SextTaken(p, c);
    LowMisses(pm, cf);
    if cf - 1 !in pm {
      SignCleared(p, c);
      MaskFoldable(p, c, pm * Low(cf - 1));
      assert pm <= Low(cf - 1) ==> pm * Low(cf - 1) == pm;
      LowAround(pm, cf);
    } else if !(Low(cf) <= pm) {
      MissedBit(p, c);
    }
  }

  lemma MissedBit(p: Role, c: Role)
    requires ValidRole(p) && ValidRole(c) && p.op.And? && c.op.Sext?
    requires c.op.field - 1 in p.op.mask && !(Low(c.op.field) <= p.op.mask)
    ensures !Foldable(p, c)
  {
    hide Foldable;
    var k: nat :| k in Low(c.op.field) && k !in p.op.mask;
    SignKept(p, c, k);
  }

  lemma LowAround(s: set<nat>, n: nat)
    ensures n >= 1 && n - 1 !in s ==> !(Low(n) <= s)
  {
    assert n >= 1 ==> n - 1 in Low(n);
  }

  lemma LowMisses(s: set<nat>, n: nat)
    ensures n >= 1 && s <= Low(n - 1) ==> n - 1 !in s
  {}

  /** When the classifier takes a mask under an extension. */
  lemma SextTaken(p: Role, c: Role)
    requires ValidRole(p) && ValidRole(c) && Considered(p, c) && p.op.And? && c.op.Sext?
    ensures var pm, cf := p.op.mask, c.op.field;
            && (pm <= Low(cf - 1) && OneMask(pm) ==> Classify(p, c).Some?)
            && (!(pm <= Low(cf - 1)) ==> (Classify(p, c).Some? <==> Low(cf) <= pm))
  {
    hide IsEncodable, OneMask, DeadSext;
    var pm, cf := p.op.mask, c.op.field;
    MeetIsSubset(Low(cf) * Low(c.width), pm);
    assert Low(cf) * Low(c.width) == Low(cf);
    if pm <= Low(cf - 1) && OneMask(pm) {
      assert pm == pm * Low(cf) * Low(c.width);
      assert cf - 1 in Low(c.width) && cf - 1 !in pm;
      MaskTaken(p, c, pm);
    }
  }

  /** When the classifier takes an extension under a mask. */
  lemma MaskTakenAfterSext(p: Role, c: Role)
    requires ValidRole(p) && ValidRole(c) && Considered(p, c) && p.op.Sext? && c.op.And?
    ensures Classify(p, c).Some? <==> c.op.mask <= Low(p.op.field) || Low(p.width) <= c.op.mask
  {
    hide DeadSext;
    var pf, cm := p.op.field, c.op.mask;
    assert cm * Low(c.width) == cm;
    MeetIsSubset(cm, Low(pf));
    DifferenceEmpty(Low(p.width), cm);
    assert pf in Low(p.width) && pf !in Low(pf);
  }

  /** A mask that misses every copy of the sign leaves the low bits it keeps. */
  lemma SignMissed(p: Role, c: Role)
    requires ValidRole(p) && ValidRole(c) && p.op.Sext? && c.op.And?
    requires forall j | p.op.field <= j < p.width :: j !in c.op.mask
    ensures IsMask(p, c, c.op.mask * Low(p.op.field))
  {
    hide Then;
    var m := c.op.mask * Low(p.op.field);
    LowGrows(c.width);
    forall v: set<nat> | v <= Low(64) ensures Then(p, c, v) == v * m {
      forall j: nat ensures j in Then(p, c, v) <==> j in v * m {
        ThenBit(p, c, v, j);
      }
    }
  }

  lemma LowWordBit(p: Role, c: Role, v: set<nat>, j: nat)
    requires ValidRole(p) && ValidRole(c) && p.op.Sext? && c.op == And(Low(32)) && p.width == 64 && p.op.field < 32
    ensures j in Apply(p.op, 32, v) <==> j in Then(p, c, v)
  {
    hide Then, Apply;
    ThenBit(p, c, v, j);
    ApplyBits(p.op, 32, v, j);
  }

  /** The low word of an extension is the W extension. */
  lemma LowWordOfSext(p: Role, c: Role)
    requires ValidRole(p) && ValidRole(c) && p.op.Sext? && c.op == And(Low(32)) && p.width == 64 && p.op.field < 32
    ensures Foldable(p, c)
  {
    hide Then, Apply;
    forall v: set<nat> | v <= Low(64) ensures Apply(p.op, 32, v) == Then(p, c, v) {
      forall j: nat ensures j in Apply(p.op, 32, v) <==> j in Then(p, c, v) {
        LowWordBit(p, c, v, j);
      }
      assert Apply(p.op, 32, v) == Then(p, c, v);
    }
    OneOpNames(p.op, 32, p, c);
  }

  /** The pair as one extension: the same field, all of it kept, and the copies
      of the sign kept up to the width and no further. */
  lemma SextOnly(p: Role, c: Role, op: Op, width: nat, j: nat)
    requires ValidRole(p) && ValidRole(c) && p.op.Sext? && c.op.And?
    requires p.op.field <= j < p.width && j in c.op.mask
    requires OneOp(op, width) && Computes(op, width, p, c)
    ensures op == p.op && width <= p.width
    ensures forall i: nat | i < p.width :: i in c.op.mask <==> i < width
  {
    hide Then, Apply, OneMask, Low;
    var pf := p.op.field;
    var sign: set<nat> := {pf - 1};
    LowHolds(pf - 1);
    ThenBit(p, c, sign, j);
    ApplyOne(op, width, pf - 1, j);
    assert op == p.op;
    ThenBit(p, c, sign, width - 1);
    ApplyBits(op, width, sign, width - 1);
    forall i: nat | i < p.width ensures i in c.op.mask <==> i < width {
      var one: set<nat> := {i};
      LowHolds(i);
      ThenBit(p, c, one, i);
      ApplyBits(op, width, one, i);
      ThenBit(p, c, sign, i);
      ApplyBits(op, width, sign, i);
    }
  }

  lemma SextThenMask(p: Role, c: Role)
    requires ValidRole(p) && ValidRole(c) && Considered(p, c) && p.op.Sext? && c.op.And?
    ensures Classify(p, c) == None && Foldable(p, c) <==> LeftAlone(p, c)
  {
    MaskTakenAfterSext(p, c);
    hide Then, OneMask, Classify, IsMask, Considered, Foldable;
    var pf, cm := p.op.field, c.op.mask;
    assert pf in Low(p.width) && pf !in Low(pf);
    if forall j | pf <= j < p.width :: j !in cm {
      SignMissed(p, c);
      MaskFoldable(p, c, cm * Low(pf));
      assert pf < 32 ==> pf in Low(32);
    } else {
      var j :| pf <= j < p.width && j in cm;
      if p.width == 64 && pf < 32 && cm == Low(32) {
        LowWordOfSext(p, c);
        assert 63 in Low(64) && 63 !in Low(32);
      } else if Foldable(p, c) {
        SextFolded(p, c, j);
      }
    }
  }

  /** Such a pair is one extension only when nothing is masked or the low word
      is. */
  lemma SextFolded(p: Role, c: Role, j: nat)
    requires ValidRole(p) && ValidRole(c) && p.op.Sext? && c.op.And?
    requires p.op.field <= j < p.width && j in c.op.mask && Foldable(p, c)
    ensures Low(p.width) <= c.op.mask || (p.width == 64 && p.op.field < 32 && c.op.mask == Low(32))
  {
    hide Then, Apply, OneMask;
    var op: Op, width: nat :| OneOp(op, width) && Computes(op, width, p, c);
    SextOnly(p, c, op, width, j);
    if width < p.width {
      assert forall i: nat :: i in c.op.mask <==> i in Low(32) by {
        LowGrows(c.width);
      }
    }
  }

  lemma TwoSexts(p: Role, c: Role)
    requires ValidRole(p) && ValidRole(c) && Considered(p, c) && p.op.Sext? && c.op.Sext?
    ensures Classify(p, c) == None && Foldable(p, c) <==> LeftAlone(p, c)
  {
    hide Then, Apply, OneMask;
    SextsTaken(p, c);
    if c.op.field > p.width {
      forall v: set<nat> | v <= Low(64) ensures Apply(p.op, p.width, v) == Then(p, c, v) {
        forall j: nat ensures j in Apply(p.op, p.width, v) <==> j in Then(p, c, v) {
          ThenBit(p, c, v, j);
          ThenBit(p, c, v, c.op.field - 1);
        }
      }
      OneOpNames(p.op, p.width, p, c);
    }
  }

  lemma SextsTaken(p: Role, c: Role)
    requires ValidRole(p) && ValidRole(c) && Considered(p, c) && p.op.Sext? && c.op.Sext?
    ensures Classify(p, c) == None <==> c.op.field > p.width
  {
    hide DeadSext;
    var pf, cf := p.op.field, c.op.field;
    MeetIsSubset(Low(cf), Low(pf));
    assert Low(cf) * Low(c.width) == Low(cf);
    assert cf > pf ==> pf in Low(cf) && pf !in Low(pf);
  }

  /** Of the pairs the classifier considers, those it leaves alone although one
      instruction computes them are exactly the four families. */
  lemma LeftAloneIff(p: Role, c: Role)
    requires ValidRole(p) && ValidRole(c) && Considered(p, c)
    ensures Classify(p, c) == None && Foldable(p, c) <==> LeftAlone(p, c)
  {
    hide ValidRole, Considered, Classify, Foldable, OneMask;
    match (p.op, c.op)
    case (And(_), And(_)) => TwoMasks(p, c);
    case (And(_), Sext(_)) => MaskThenSext(p, c);
    case (Sext(_), And(_)) => SextThenMask(p, c);
    case (Sext(_), Sext(_)) => TwoSexts(p, c);
  }

  /** Bits 7..0, and the same again N up. */
  function Bytes(n: nat): set<nat> {
    Low(8) + Shl(Low(8), n)
  }

  lemma ByteEncodes()
    ensures OneMask(Low(8))
  {
    hide Pattern;
    assert Pattern(32, 8, 0, 32) == Low(8);
    assert ValidShape(32, 8, 0, 32);
    EncodableIffPattern(Low(8), 32);
  }

  /** Of real words, only MOV Wd, Wm masks its whole width. */
  lemma NeverWhole(x: Word)
    requires MaskRole(x).Some? && MaskRole(x).value.spelling != Mov && MaskRole(x).value.op.And?
    ensures MaskRole(x).value.op.mask != Low(MaskRole(x).value.width)
  {
    hide Decode, Low, Class, Opc, NBit, Sf, Immr, Imms, Rd, Rn, Rm, Width, IsMovW;
    if LogimmValue(x).Some? {
      NotWhole(x);
    }
    LowsDiffer();
  }

  lemma NotWhole(x: Word)
    requires LogimmValue(x).Some?
    ensures LogimmValue(x).value != Low(Width(x))
  {
    hide Decode, Pattern;
    DecodeIsPattern(NBit(x), Immr(x), Imms(x), Width(x));
    EncodableIffPattern(LogimmValue(x).value, Width(x));
    NeverEmptyNorFull(LogimmValue(x).value, Width(x));
  }

  lemma LowsDiffer()
    ensures forall a: nat, b: nat | a < b :: Low(a) != Low(b)
  {
    forall a: nat, b: nat | a < b ensures Low(a) != Low(b) {
      assert a in Low(b) && a !in Low(a);
    }
  }

  // Each family has members.

  /** AND W #0x00FF00FF under SXTH. */
  lemma ClearedSignMet()
    ensures var p, c := Role(And(Bytes(16)), 32, 1, 0, AndImm), Role(Sext(16), 32, 2, 1, Sbfm);
            Considered(p, c) && LeftAlone(p, c)
  {
    hide OneMask;
    ByteEncodes();
    var low: set<nat> := Low(8);
    assert Bytes(16) * Low(15) == low && 16 in Bytes(16);
  }

  /** SXTB X under AND X #0xFFFFFFFF. */
  lemma LowWordMet()
    ensures var p, c := Role(Sext(8), 64, 1, 0, Sbfm), Role(And(Low(32)), 64, 2, 1, AndImm);
            Considered(p, c) && LeftAlone(p, c)
  {
    hide OneMask, Low;
    HighBits();
    DifferenceEmpty(Low(64), Low(32));
  }

  lemma HighBits()
    ensures 63 in Low(64) && 63 !in Low(32) && 8 in Low(32) && 8 in Low(64)
  {}

  lemma TwoBytes()
    ensures var far := Bytes(32);
            far * Low(8) == Low(8) && 32 in far && (forall j | 8 <= j < 32 :: j !in far) && 32 !in Low(8)
  {
    var low: set<nat> := Low(8);
    assert Bytes(32) * Low(8) == low;
  }

  lemma FarApart(d: nat, n: nat)
    requires d != n
    ensures forall c :: !DeadSext(Role(Sext(8), 32, d, n, Sbfm), c)
  {
    hide IsLowMask;
  }

  /** SXTB W under AND X #0x000000FF000000FF. */
  lemma MissedSignMet()
    ensures var p, c := Role(Sext(8), 32, 1, 0, Sbfm), Role(And(Bytes(32)), 64, 2, 1, AndImm);
            Considered(p, c) && LeftAlone(p, c)
  {
    hide OneMask, Low, Bytes, DeadSext;
    ByteEncodes();
    HighBits();
    TwoBytes();
    FarApart(1, 0);
    DifferenceEmpty(Low(32), Bytes(32));
  }

  /** SXTB W under SBFX X #0, #40. */
  lemma WiderSextMet()
    ensures var p, c := Role(Sext(8), 32, 1, 0, Sbfm), Role(Sext(40), 64, 2, 1, Sbfm);
            Considered(p, c) && LeftAlone(p, c)
  {
    hide OneMask;
  }
}
