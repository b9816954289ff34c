/**
 Which mask pairs of tools/net11scan.py are taken at all, and which of those
 that end in a flag-setting AND one flag-setting AND could replace.
 */
module MaskFlags {
  import opened Options
  import opened Bits
  import opened LogicalImmediate
  import opened MaskChain
  import opened MaskChainMissed

  /** What every pair taken has: the second reads what the first wrote, which is
      a register as is the source; the first sets no flags; and the second is no
      move, no dead end, no no-op in place. */
  lemma TakenPairs(p: Role, c: Role)
    requires ValidRole(p) && ValidRole(c) && Classify(p, c).Some?
    ensures c.n == p.d && p.d != 31 && p.n != 31
    ensures p.spelling != AndsImm && c.spelling != Mov && (c.d == 31 ==> c.spelling == AndsImm)
    ensures c.d == p.d && c.spelling != AndsImm ==> !IsNoop(p, c)
    ensures !DeadSext(p, c)
  {
    hide Encodable;
  }

  /** The second word is ANDS with an immediate, and nothing about registers or
      the first word stands in the way. */
  ghost predicate EndsInAnds(p: Role, c: Role) {
    && p.spelling != AndsImm && p.d != 31 && p.n != 31 && c.n == p.d
    && c.spelling == AndsImm && c.op.And? && IsEncodable(c.op.mask, c.width)
  }

  /** One ANDS at the second's width sets the same flags: it keeps the same bits
      of the source, whatever that holds. */
  ghost predicate OneAnds(p: Role, c: Role) {
    exists m: set<nat> :: IsEncodable(m, c.width) && IsMask(p, c, m)
  }

  /** A mask of an extension that misses every copy of the sign, but has bits in
      the half a W form clears. */
  predicate MissesSign(p: Role, c: Role)
    requires p.op.Sext? && c.op.And?
  {
    !(c.op.mask <= Low(p.op.field)) && forall j | p.op.field <= j < p.width :: j !in c.op.mask
  }

  lemma MaskIsUnique(p: Role, c: Role, m: set<nat>, k: set<nat>)
    requires IsMask(p, c, m) && IsMask(p, c, k)
    ensures m == k
  {
    hide Then;
    var all := Low(64);
    assert Then(p, c, all) == all * m == all * k;
    assert all * m == m && all * k == k;
  }

  lemma MaskThenAnds(p: Role, c: Role)
    requires ValidRole(p) && ValidRole(c) && EndsInAnds(p, c) && p.op.And?
    ensures Classify(p, c).Some? <==> IsEncodable(p.op.mask * c.op.mask, c.width)
  {
    hide IsEncodable, Low;
    var pm, cm := p.op.mask, c.op.mask;
    NeverEmptyNorFull(cm, c.width);
    assert cm * Low(c.width) == cm;
    MeetIsSubset(cm, pm);
    assert pm * cm * Low(c.width) == pm * cm;
    if cm <= pm {
      assert pm * cm == cm;
    }
    if pm * cm == {} && IsEncodable(pm * cm, c.width) {
      NeverEmptyNorFull(pm * cm, c.width);
    }
  }

  lemma SextThenAnds(p: Role, c: Role)
    requires ValidRole(p) && ValidRole(c) && EndsInAnds(p, c) && p.op.Sext?
    ensures Classify(p, c).Some? <==> c.op.mask <= Low(p.op.field)
  {
    hide IsEncodable, DeadSext;
    var pf, cm := p.op.field, c.op.mask;
    assert !DeadSext(p, c) by {
      AndsIsNotDead(p, c);
    }
    assert cm * Low(c.width) == cm;
    MeetIsSubset(cm, Low(pf));
    DifferenceEmpty(Low(p.width), cm);
    assert pf in Low(p.width) && pf !in Low(pf);
  }

  lemma AndsIsNotDead(p: Role, c: Role)
    requires c.spelling == AndsImm
    ensures !DeadSext(p, c)
  {}

  /** A copy of the sign that is kept makes the pair no mask. */
  lemma SignCopied(p: Role, c: Role, j: nat, m: set<nat>)
    requires ValidRole(p) && ValidRole(c) && p.op.Sext? && c.op.And?
    requires p.op.field <= j < p.width && j in c.op.mask
    ensures !IsMask(p, c, m)
  {
    hide Then;
    var sign: set<nat> := {p.op.field - 1};
    ThenBit(p, c, sign, j);
    assert sign <= Low(64) && j !in sign * m;
  }

  /** Of those pairs the classifier takes exactly the ones that one ANDS
      replaces, but for masks that miss the sign. */
  lemma AndsTakenIff(p: Role, c: Role)
    requires ValidRole(p) && ValidRole(c) && EndsInAnds(p, c)
    ensures Classify(p, c).Some? <==> OneAnds(p, c) && !(p.op.Sext? && MissesSign(p, c))
  {
    hide IsEncodable, Classify, IsMask, Low;
    if p.op.And? {
      MaskThenAnds(p, c);
      MaskOfBoth(p, c);
      var m := p.op.mask * c.op.mask;
      if k: set<nat> :| IsEncodable(k, c.width) && IsMask(p, c, k) {
        MaskIsUnique(p, c, k, m);
      }
    } else {
      SextThenAnds(p, c);
      SextsAsMasks(p, c);
    }
  }

  lemma SextsAsMasks(p: Role, c: Role)
    requires ValidRole(p) && ValidRole(c) && EndsInAnds(p, c) && p.op.Sext?
    ensures c.op.mask <= Low(p.op.field) ==> OneAnds(p, c)
    ensures OneAnds(p, c) && !(c.op.mask <= Low(p.op.field)) ==> MissesSign(p, c)
  {
    hide IsEncodable, Then;
    var pf, cm := p.op.field, c.op.mask;
    if cm <= Low(pf) {
      SignMissed(p, c);
      assert cm * Low(pf) == cm;
    } else if m: set<nat> :| IsEncodable(m, c.width) && IsMask(p, c, m) {
      forall j | pf <= j < p.width ensures j !in cm {
        if j in cm {
          SignCopied(p, c, j, m);
        }
      }
    }
  }
}
