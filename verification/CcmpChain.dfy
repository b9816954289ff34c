/**
 The decision procedure of tools/net11scan.py for CMP + CCMP chains: is a
 chain of conditional compares of one register, read under one condition,
 decided by a single compare with an immediate?
 */
module CcmpChain {
  import opened Arithmetic
  import opened Nzcv

  /** One link. The chain's first link is a plain CMP or CMN and has no use
      for the last two fields. */
  datatype Link = Link(k: nat, cmn: bool, nzcv: nat, cond: nat)

  ghost predicate ValidChain(links: seq<Link>)
  {
    && |links| > 0
    && forall i :: 0 <= i < |links| ==> links[i].cond < 16
  }

  /** The flags a failed CCMP loads: bits 3..0 of its immediate. */
  function Literal(nzcv: nat): Flags
  {
    Flags(nzcv / 8 % 2 == 1, nzcv / 4 % 2 == 1, nzcv / 2 % 2 == 1, nzcv % 2 == 1)
  }

  /** One CCMP or CCMN executed with flags F set. */
  function Ccmp(link: Link, f: Flags, x: int, w: nat): Flags
    requires w >= 1 && link.cond < 16
  {
    if CondHolds(link.cond, f) then Compare(x, link.k, w, link.cmn) else Literal(link.nzcv)
  }

  /** The flags after the whole chain, last instruction outermost. */
  function Chain(links: seq<Link>, x: int, w: nat): Flags
    requires w >= 1
    requires |links| > 0 && forall i :: 0 <= i < |links| ==> links[i].cond < 16
  {
    var last := links[|links| - 1];
    if |links| == 1 then Compare(x, last.k, w, last.cmn)
    else Ccmp(last, Chain(links[..|links| - 1], x, w), x, w)
  }

  method ChainFlags(links: seq<Link>, x: int, w: nat) returns (f: Flags)
    requires w >= 1 && ValidChain(links)
    ensures f == Chain(links, x, w)
  {
    f := Compare(x, links[0].k, w, links[0].cmn);
    assert links[..1][0] == links[0];
    for i := 1 to |links|
      invariant f == Chain(links[..i], x, w)
    {
      assert links[..i + 1][..i] == links[..i];
      var link := links[i];
      if CondHolds(link.cond, f) {
        f := Compare(x, link.k, w, link.cmn);
      } else {
        f := Literal(link.nzcv);
      }
    }
    assert links[..|links|] == links;
  }

  /** A failed CCMP loads N, Z, C and V from bits 3 to 0 of its immediate. */
  lemma LiteralBits(nzcv: nat)
    requires nzcv < 16
    ensures Nibble(Literal(nzcv)) == nzcv
  {
    assert nzcv == 8 * (nzcv / 8 % 2) + 4 * (nzcv / 4 % 2) + 2 * (nzcv / 2 % 2) + nzcv % 2;
  }

  /** What the last link of a chain does: where the flags before it meet its
      condition it compares, with the flags AddWithCarry gives; else the flags
      are the immediate. */
  lemma LastLink(links: seq<Link>, x: int, w: nat)
    requires w >= 1 && ValidChain(links) && |links| > 1 && 0 <= x < Pow2(w)
    ensures var last := links[|links| - 1];
            if CondHolds(last.cond, Chain(links[..|links| - 1], x, w)) then
              last.k < Pow2(w) ==>
                Chain(links, x, w) == if last.cmn then AddWithCarry(x, last.k, 0, w)
                                      else AddWithCarry(x, Pow2(w) - 1 - last.k, 1, w)
            else last.nzcv < 16 ==> Nibble(Chain(links, x, w)) == last.nzcv
  {
    hide Compare, CondHolds, AddWithCarry, Literal;
    var last := links[|links| - 1];
    if last.k < Pow2(w) {
      CompareIsAddWithCarry(x, last.k, w, last.cmn);
    }
    if last.nzcv < 16 {
      LiteralBits(last.nzcv);
    }
  }

  /** CMP Rn, #5 ; CCMP Rn, #9, #2, HS under HS: below 5 the immediate sets C,
      so the chain holds outside 5 to 8. */
  lemma ImmediateCarry(x: int, w: nat)
    requires w >= 4 && 0 <= x < Pow2(w)
    ensures CondHolds(2, Chain([Link(5, false, 0, 0), Link(9, false, 2, 2)], x, w)) <==> x < 5 || x >= 9
  {
    var links := [Link(5, false, 0, 0), Link(9, false, 2, 2)];
    assert links[..1] == [links[0]];
    Pow2Grows(4, w);
    assert Pow2(4) == 16;
    ConditionMeaning(x, 5, w);
    ConditionMeaning(x, 9, w);
  }

  // --- What is asked ---

  /** CMP/CMN X, #K under C decides, for every register value, what the chain
      decides under COND. */
  ghost predicate Decides(k: int, cmn: bool, c: nat, links: seq<Link>, cond: nat, w: nat)
    requires w >= 1 && ValidChain(links) && c < 16 && cond < 16
  {
    forall x :: 0 <= x < Pow2(w) ==>
      CondHolds(c, Compare(x, k, w, cmn)) == CondHolds(cond, Chain(links, x, w))
  }

  /** The value a compare's flags turn on: K for CMP, -K for CMN. */
  function Pivot(k: int, cmn: bool, w: nat): int
  {
    if cmn then -k % Pow2(w) else k
  }

  ghost predicate IsConst(links: seq<Link>, w: nat, e: int)
  {
    exists i :: 0 <= i < |links| && e == Pivot(links[i].k, links[i].cmn, w)
  }

  ghost predicate IsCandidate(links: seq<Link>, w: nat, k: int)
  {
    exists e, d :: IsConst(links, w, e) && -2 <= d <= 2 && k == Near(e, d, w)
  }

  function Near(e: int, d: int, w: nat): int
  {
    (e + d) % Pow2(w)
  }

  /** The immediate that spells candidate K as a CMP or as a CMN. */
  function Immediate(k: int, cmn: bool, w: nat): int
  {
    if cmn then -k % Pow2(w) else k
  }

  ghost predicate Tried(links: seq<Link>, w: nat, k: int, cmn: bool, c: nat)
  {
    IsCandidate(links, w, k) && Immediate(k, cmn, w) <= 4095 && c < 14
  }

  /** What the procedure answers: one of the compares it tries decides the
      chain on the whole register range. */
  ghost predicate TriedDecides(links: seq<Link>, cond: nat, w: nat)
    requires w >= 1 && ValidChain(links) && cond < 16
  {
    exists k, cmn, c :: Tried(links, w, k, cmn, c)
      && Decides(Immediate(k, cmn, w), cmn, c, links, cond, w)
  }

  /** What its documentation asks: some compare with an immediate of at most
      4095 decides the chain. */
  ghost predicate SomeDecides(links: seq<Link>, cond: nat, w: nat)
    requires w >= 1 && ValidChain(links) && cond < 16
  {
    exists k, cmn, c :: 0 <= k <= 4095 && 0 <= c < 14 && Decides(k, cmn, c, links, cond, w)
  }

  // --- Flags are constant between breakpoints ---

  /** X is where some flag of a compare turning on E may change. */
  predicate Break(x: int, e: int, w: nat)
    requires w >= 1
  {
    x == 0 || x == Pow2(w - 1) || x == e % Pow2(w) || x == Near(e, 1, w)
    || x == Near(e, Pow2(w - 1), w)
  }

  predicate LinkBreak(x: int, link: Link, w: nat)
    requires w >= 1
  {
    Break(x, Pivot(link.k, link.cmn, w), w)
  }

  lemma CompareConstant(p: int, x: int, k: int, w: nat, cmn: bool)
    requires w >= 1 && 0 <= p <= x < Pow2(w)
    requires forall b | p < b <= x :: !Break(b, Pivot(k, cmn, w), w)
    ensures Compare(p, k, w, cmn) == Compare(x, k, w, cmn)
  {
    hide Compare, Reduced, Break, Pivot;
    CompareReduced(p, k, w, cmn);
    CompareReduced(x, k, w, cmn);
    ModOnce(p, Pow2(w));
    ModOnce(x, Pow2(w));
    NoBreakBetween(p, x, k, w, cmn);
    ReducedConstant(p, x, k % Pow2(w), w, cmn);
  }

  lemma NoBreakBetween(p: int, x: int, k: int, w: nat, cmn: bool)
    requires w >= 1 && 0 <= p <= x < Pow2(w)
    requires forall b | p < b <= x :: !Break(b, Pivot(k, cmn, w), w)
    ensures var r, half := k % Pow2(w), Pow2(w - 1);
            var q := if !cmn || r == 0 then r else Pow2(w) - r;
            && !(p < half <= x) && !(p < q <= x) && !(p < q + 1 <= x)
            && !(p < q + half <= x) && !(p < q - half <= x)
  {
    hide Break, Pivot;
    BreakReduced(k, cmn, w);
    var m, half, e := Pow2(w), Pow2(w - 1), Pivot(k, cmn, w);
    var q := if !cmn || k % m == 0 then k % m else m - k % m;
    assert Break(half, e, w);
    assert q < m ==> Break(q, e, w);
    assert q + 1 < m ==> Break(q + 1, e, w);
    assert q + half < m ==> Break(q + half, e, w);
    assert q - half >= 0 ==> Break(q - half, e, w);
  }

  lemma ReducedConstant(p: nat, x: nat, r: nat, w: nat, cmn: bool)
    requires w >= 1 && 0 <= p <= x < Pow2(w) && r < Pow2(w)
    requires !(p < Pow2(w - 1) <= x)
    requires var q := if !cmn || r == 0 then r else Pow2(w) - r;
             var half := Pow2(w - 1);
             && !(p < q <= x) && !(p < q + 1 <= x)
             && !(p < q + half <= x) && !(p < q - half <= x)
    ensures Reduced(p, r, w, cmn) == Reduced(x, r, w, cmn)
  {
  }

  /** The breakpoints of a compare in range: its pivot reduced, the next
      value, and the value half the range away. */
  lemma BreakReduced(k: int, cmn: bool, w: nat)
    requires w >= 1
    ensures var r := k % Pow2(w);
            var q := if !cmn || r == 0 then r else Pow2(w) - r;
            var half := Pow2(w - 1);
            forall b | 0 <= b < Pow2(w) :: Break(b, Pivot(k, cmn, w), w)
              <==> b == 0 || b == half || b == q || b == q + 1 || b == q + half || b == q - half
  {
    var m, half, e := Pow2(w), Pow2(w - 1), Pivot(k, cmn, w);
    PivotMod(k, cmn, w);
    NearMod(e, 1, w);
    NearMod(e, half, w);
    ModOnce(e % m + 1, m);
    ModOnce(e % m + half, m);
  }

  lemma PivotMod(k: int, cmn: bool, w: nat)
    ensures var r := k % Pow2(w);
            Pivot(k, cmn, w) % Pow2(w) == if !cmn || r == 0 then r else Pow2(w) - r
  {
    ModNeg(k, Pow2(w));
    if cmn {
      ModOnce(Pivot(k, cmn, w), Pow2(w));
    }
  }

  lemma NearMod(e: int, d: int, w: nat)
    ensures Near(e, d, w) == Near(e % Pow2(w), d, w)
  {
    ModPlus(e, d, Pow2(w));
  }

  /** The chain's flags change only at a breakpoint of one of its links. */
  lemma {:induction false} ChainConstant(links: seq<Link>, p: int, x: int, w: nat)
    requires w >= 1 && ValidChain(links) && 0 <= p <= x < Pow2(w)
    requires forall i, b | 0 <= i < |links| && p < b <= x ::
               !LinkBreak(b, links[i], w)
    ensures Chain(links, p, w) == Chain(links, x, w)
  {
    var n := |links| - 1;
    forall b | p < b <= x ensures !Break(b, Pivot(links[n].k, links[n].cmn, w), w) {
      assert !LinkBreak(b, links[n], w);
    }
    CompareConstant(p, x, links[n].k, w, links[n].cmn);
    if n > 0 {
      ChainConstant(links[..n], p, x, w);
    }
  }

  // --- The samples are enough ---

  ghost predicate AgreesAt(x: int, k: int, cmn: bool, c: nat, links: seq<Link>, cond: nat, w: nat)
    requires w >= 1 && ValidChain(links) && c < 16 && cond < 16
  {
    CondHolds(c, Compare(x, k, w, cmn)) == CondHolds(cond, Chain(links, x, w))
  }

  /** The samples hold every breakpoint of every link and of the compare K. */
  ghost predicate Samples(pts: set<int>, k: int, cmn: bool, links: seq<Link>, w: nat)
    requires w >= 1
  {
    && 0 in pts
    && forall b | 0 <= b < Pow2(w) && b !in pts ::
         !Break(b, Pivot(k, cmn, w), w) && forall i | 0 <= i < |links| :: !LinkBreak(b, links[i], w)
  }

  lemma FloorSample(pts: set<int>, x: nat) returns (p: int)
    requires 0 in pts
    ensures p in pts && 0 <= p <= x && forall b | p < b <= x :: b !in pts
  {
    if x in pts {
      p := x;
    } else {
      p := FloorSample(pts, x - 1);
    }
  }

  /** Agreement on the samples is agreement on every register value. */
  lemma SamplesDecide(pts: set<int>, k: int, cmn: bool, c: nat, links: seq<Link>, cond: nat, w: nat)
    requires w >= 1 && ValidChain(links) && c < 16 && cond < 16
    requires Samples(pts, k, cmn, links, w)
    requires forall p | p in pts :: AgreesAt(p, k, cmn, c, links, cond, w)
    ensures Decides(k, cmn, c, links, cond, w)
  {
    forall x | 0 <= x < Pow2(w) ensures AgreesAt(x, k, cmn, c, links, cond, w) {
      var p := FloorSample(pts, x);
      SampleCarries(pts, p, x, k, cmn, c, links, cond, w);
    }
    forall x | 0 <= x < Pow2(w)
      ensures CondHolds(c, Compare(x, k, w, cmn)) == CondHolds(cond, Chain(links, x, w))
    {
      assert AgreesAt(x, k, cmn, c, links, cond, w);
    }
  }

  /** Agreement at a sample carries to every value up to the next sample. */
  lemma SampleCarries(pts: set<int>, p: int, x: int, k: int, cmn: bool, c: nat,
                      links: seq<Link>, cond: nat, w: nat)
    requires w >= 1 && ValidChain(links) && c < 16 && cond < 16
    requires Samples(pts, k, cmn, links, w)
    requires 0 <= p <= x < Pow2(w) && forall b | p < b <= x :: b !in pts
    requires AgreesAt(p, k, cmn, c, links, cond, w)
    ensures AgreesAt(x, k, cmn, c, links, cond, w)
  {
    hide Compare, Chain, Break;
    CompareConstant(p, x, k, w, cmn);
    forall i, b | 0 <= i < |links| && p < b <= x ensures !LinkBreak(b, links[i], w) {
      assert b !in pts;
    }
    ChainConstant(links, p, x, w);
  }

  method Pick<T>(s: set<T>) returns (x: T)
    requires s != {}
    ensures x in s
  {
    x :| x in s;
  }

  method Listed(s: set<int>) returns (q: seq<int>)
    ensures forall x :: x in q <==> x in s
  {
    q := [];
    var rest := s;
    while rest != {}
      invariant forall x :: x in s <==> x in rest || x in q
      decreases rest
    {
      var x := Pick(rest);
      q := q + [x];
      rest := rest - {x};
    }
  }

  /** The value D from E and the value D from E's opposite are samples. */
  ghost predicate SampledAt(pts: set<int>, e: int, d: int, w: nat)
    requires w >= 1
  {
    Near(e, d, w) in pts && Near(e, Pow2(w - 1) + d, w) in pts
  }

  ghost predicate Surrounded(pts: set<int>, e: int, w: nat)
    requires w >= 1
  {
    forall d | -1 <= d <= 1 :: SampledAt(pts, e, d, w)
  }

  method SamplePoints(consts: set<int>, cands: set<int>, w: nat) returns (pts: set<int>)
    requires w >= 2
    ensures forall p | p in pts :: 0 <= p < Pow2(w)
    ensures 0 in pts && Pow2(w - 1) in pts
    ensures forall e | e in consts + cands :: Surrounded(pts, e, w)
  {
    var mask, half := Pow2(w) - 1, Pow2(w - 1);
    assert half == 2 * Pow2(w - 2);
    pts := {0, 1, 2, mask, half - 1, half, half + 1};
    var rest := consts + cands;
    while rest != {}
      invariant rest <= consts + cands
      invariant forall p | p in pts :: 0 <= p < Pow2(w)
      invariant 0 in pts && half in pts
      invariant forall e | e in consts + cands - rest :: Surrounded(pts, e, w)
      decreases rest
    {
      var e := Pick(rest);
      ghost var before := pts;
      for d := -1 to 2
        invariant before <= pts
        invariant forall p | p in pts :: 0 <= p < Pow2(w)
        invariant forall j | -1 <= j < d :: SampledAt(pts, e, j, w)
      {
        ghost var previous := pts;
        pts := pts + {Near(e, d, w), Near(e, half + d, w)};
        forall j | -1 <= j < d + 1 ensures SampledAt(pts, e, j, w) {
          assert j < d ==> SampledAt(previous, e, j, w);
        }
      }
      forall f | f in consts + cands - (rest - {e}) ensures Surrounded(pts, f, w) {
        if f != e {
          assert Surrounded(before, f, w);
          forall j | -1 <= j <= 1 ensures SampledAt(pts, f, j, w) {
            assert SampledAt(before, f, j, w);
          }
        }
      }
      rest := rest - {e};
    }
  }

  lemma CandidatePivot(k: int, cmn: bool, w: nat)
    requires 0 <= k < Pow2(w)
    ensures Pivot(Immediate(k, cmn, w), cmn, w) == k
  {
    ModOnce(k, Pow2(w));
    if cmn {
      ModNeg(k, Pow2(w));
      ModNeg(-k % Pow2(w), Pow2(w));
      if k != 0 {
        ModOnce(Pow2(w) - k, Pow2(w));
      }
    }
  }

  lemma SurroundedBreaks(pts: set<int>, e: int, b: int, w: nat)
    requires w >= 1 && Surrounded(pts, e, w) && 0 in pts && Pow2(w - 1) in pts
    requires Break(b, e, w)
    ensures b in pts
  {
    assert Near(e, 0, w) == e % Pow2(w);
    assert SampledAt(pts, e, 0, w) && SampledAt(pts, e, 1, w);
  }

  /** Samples around every link constant and every candidate are samples for
      every compare the procedure tries. */
  lemma SurroundedSamples(pts: set<int>, consts: set<int>, k: int, cmn: bool, links: seq<Link>, w: nat)
    requires w >= 1 && 0 in pts && Pow2(w - 1) in pts
    requires 0 <= k < Pow2(w) && Surrounded(pts, k, w)
    requires forall e | e in consts :: Surrounded(pts, e, w)
    requires forall i | 0 <= i < |links| :: Pivot(links[i].k, links[i].cmn, w) in consts
    ensures Samples(pts, Immediate(k, cmn, w), cmn, links, w)
  {
    CandidatePivot(k, cmn, w);
    forall b | 0 <= b < Pow2(w) && b !in pts
      ensures !Break(b, k, w) && forall i | 0 <= i < |links| :: !LinkBreak(b, links[i], w)
    {
      if Break(b, k, w) {
        SurroundedBreaks(pts, k, b, w);
      }
      forall i | 0 <= i < |links| ensures !LinkBreak(b, links[i], w) {
        if LinkBreak(b, links[i], w) {
          SurroundedBreaks(pts, Pivot(links[i].k, links[i].cmn, w), b, w);
        }
      }
    }
  }

  // --- The procedure ---

  /** Does compare K under C agree with the wanted answers on every sample? */
  method AgreesOnAll(pts: seq<int>, want: seq<bool>, k: int, cmn: bool, c: nat, w: nat)
    returns (all: bool)
    requires w >= 1 && c < 16 && |pts| == |want|
    ensures all <==> forall j | 0 <= j < |pts| :: CondHolds(c, Compare(pts[j], k, w, cmn)) == want[j]
  {
    for j := 0 to |pts|
      invariant forall i | 0 <= i < j :: CondHolds(c, Compare(pts[i], k, w, cmn)) == want[i]
    {
      if CondHolds(c, Compare(pts[j], k, w, cmn)) != want[j] {
        return false;
      }
    }
    return true;
  }

  method Wanted(links: seq<Link>, cond: nat, pts: seq<int>, w: nat) returns (want: seq<bool>)
    requires w >= 1 && ValidChain(links) && cond < 16
    ensures |want| == |pts|
    ensures forall j | 0 <= j < |pts| :: want[j] == CondHolds(cond, Chain(links, pts[j], w))
  {
    want := [];
    for i := 0 to |pts|
      invariant |want| == i
      invariant forall j | 0 <= j < i :: want[j] == CondHolds(cond, Chain(links, pts[j], w))
    {
      var f := ChainFlags(links, pts[i], w);
      want := want + [CondHolds(cond, f)];
    }
  }

  lemma DecidesEverywhere(pts: seq<int>, k: int, cmn: bool, c: nat, links: seq<Link>, cond: nat, w: nat)
    requires w >= 1 && ValidChain(links) && c < 16 && cond < 16
    requires forall p | p in pts :: 0 <= p < Pow2(w)
    requires Decides(k, cmn, c, links, cond, w)
    ensures forall j | 0 <= j < |pts| ::
              CondHolds(c, Compare(pts[j], k, w, cmn)) == CondHolds(cond, Chain(links, pts[j], w))
  {
    hide Compare, Chain;
    forall j | 0 <= j < |pts|
      ensures CondHolds(c, Compare(pts[j], k, w, cmn)) == CondHolds(cond, Chain(links, pts[j], w))
    {
      assert pts[j] in pts;
    }
  }

  /** One spelling of candidate K under each of the fourteen conditions. */
  method TrySpelling(links: seq<Link>, cond: nat, w: nat, ghost sample: set<int>, pts: seq<int>,
                     want: seq<bool>, k: int, cmn: bool)
    returns (found: bool)
    requires w >= 1 && ValidChain(links) && cond < 16
    requires IsCandidate(links, w, k) && 0 <= k < Pow2(w)
    requires Samples(sample, Immediate(k, cmn, w), cmn, links, w)
    requires forall p | p in sample :: 0 <= p < Pow2(w)
    requires forall p :: p in pts <==> p in sample
    requires |want| == |pts|
    requires forall j | 0 <= j < |pts| :: want[j] == CondHolds(cond, Chain(links, pts[j], w))
    ensures found <==> exists c | Tried(links, w, k, cmn, c) ::
                         Decides(Immediate(k, cmn, w), cmn, c, links, cond, w)
  {
    var kk := Immediate(k, cmn, w);
    if kk > 4095 {
      return false;
    }
    for c := 0 to 14
      invariant forall d | 0 <= d < c :: !Decides(kk, cmn, d, links, cond, w)
    {
      var all := AgreesOnAll(pts, want, kk, cmn, c, w);
      if all {
        forall p | p in sample ensures AgreesAt(p, kk, cmn, c, links, cond, w) {
          var j :| 0 <= j < |pts| && pts[j] == p;
        }
        SamplesDecide(sample, kk, cmn, c, links, cond, w);
        assert Tried(links, w, k, cmn, c);
        return true;
      }
      if Decides(kk, cmn, c, links, cond, w) {
        DecidesEverywhere(pts, kk, cmn, c, links, cond, w);
        assert false;
      }
    }
    return false;
  }

  /** The search: exact over the whole register range although it only ever
      evaluates the samples. */
  method SingleCompareEquivalent(links: seq<Link>, cond: nat, w: nat) returns (found: bool)
    requires w >= 2 && ValidChain(links) && cond < 16
    ensures found <==> TriedDecides(links, cond, w)
  {
    var consts := set i | 0 <= i < |links| :: Pivot(links[i].k, links[i].cmn, w);
    var cands := set e, d | e in consts && -2 <= d <= 2 :: Near(e, d, w);
    var sample := SamplePoints(consts, cands, w);
    var pts := Listed(sample);
    var want := Wanted(links, cond, pts, w);
    var rest := cands;
    while rest != {}
      invariant rest <= cands
      invariant forall k, cmn, c | k in cands - rest && Tried(links, w, k, cmn, c) ::
                  !Decides(Immediate(k, cmn, w), cmn, c, links, cond, w)
      decreases rest
    {
      var k := Pick(rest);
      assert IsCandidate(links, w, k) by {
        var e, d :| e in consts && -2 <= d <= 2 && k == Near(e, d, w);
        assert IsConst(links, w, e);
      }
      SurroundedSamples(sample, consts, k, false, links, w);
      SurroundedSamples(sample, consts, k, true, links, w);
      found := TrySpelling(links, cond, w, sample, pts, want, k, false);
      if found {
        return;
      }
      found := TrySpelling(links, cond, w, sample, pts, want, k, true);
      if found {
        return;
      }
      rest := rest - {k};
    }
    assert forall k | IsCandidate(links, w, k) :: k in cands;
    return false;
  }

  // --- How far the search is from what its documentation asks ---
  //
  // The documentation asks for any compare with an immediate of at most
  // 4095; the search only tries constants within two of a link's. The two
  // part exactly on chains that decide nothing but the sign of the register
  // (or nothing at all) and have no link near zero.

  /** The chain's decision is constant on each half of the register range. */
  ghost predicate SignOnly(links: seq<Link>, cond: nat, w: nat)
    requires w >= 1 && ValidChain(links) && cond < 16
  {
    forall x, y | 0 <= x < y < Pow2(w) && (x < Pow2(w - 1) <==> y < Pow2(w - 1)) ::
      CondHolds(cond, Chain(links, x, w)) == CondHolds(cond, Chain(links, y, w))
  }

  /** Some link compares with 0, 1 or 2, or with -3, -2 or -1. */
  predicate SmallLink(links: seq<Link>)
  {
    exists i | 0 <= i < |links| :: links[i].k <= if links[i].cmn then 3 else 2
  }

  /** Every constant fits twelve bits. This admits more chains than have an
      encoding, since a CCMP's own constant has five. */
  ghost predicate TwelveBitChain(links: seq<Link>)
  {
    ValidChain(links) && forall i | 0 <= i < |links| :: links[i].k <= 4095
  }

  /** The chains there are words for: a twelve-bit CMP or CMN, then CCMPs and
      CCMNs of five bits and a four-bit flag literal. */
  ghost predicate EncodableChain(links: seq<Link>)
  {
    && ValidChain(links) && links[0].k <= 4095
    && forall i | 0 < i < |links| :: links[i].k <= 31 && links[i].nzcv < 16
  }

  /** Where the chain's flags may change: finitely many register values. */
  function Breaks(links: seq<Link>, w: nat): (pts: set<int>)
    requires w >= 1
    ensures 0 in pts && Pow2(w - 1) in pts
    ensures forall i, b | 0 <= i < |links| && LinkBreak(b, links[i], w) :: b in pts
    ensures forall p | p in pts :: 0 <= p < Pow2(w)
  {
    {0, Pow2(w - 1)}
    + (set i | 0 <= i < |links| :: Near(Pivot(links[i].k, links[i].cmn, w), 0, w))
    + (set i | 0 <= i < |links| :: Near(Pivot(links[i].k, links[i].cmn, w), 1, w))
    + (set i | 0 <= i < |links| :: Near(Pivot(links[i].k, links[i].cmn, w), Pow2(w - 1), w))
  }

  /** The chain decides the same at every sampled value of each half. */
  predicate SignOnlyAt(pts: set<int>, links: seq<Link>, cond: nat, w: nat)
    requires w >= 1 && cond < 16 && |links| > 0 && forall i :: 0 <= i < |links| ==> links[i].cond < 16
  {
    var half := Pow2(w - 1);
    var low, high := CondHolds(cond, Chain(links, 0, w)), CondHolds(cond, Chain(links, half, w));
    forall p | p in pts :: CondHolds(cond, Chain(links, p, w)) == if p < half then low else high
  }

  /** Any sample with zero, the least negative value and every breakpoint of
      the links tells whether the chain is sign-only. */
  lemma SignOnlyIff(pts: set<int>, links: seq<Link>, cond: nat, w: nat)
    requires w >= 1 && ValidChain(links) && cond < 16
    requires 0 in pts && Pow2(w - 1) in pts && forall p | p in pts :: 0 <= p < Pow2(w)
    requires forall i, b | 0 <= i < |links| && 0 <= b < Pow2(w) && LinkBreak(b, links[i], w) :: b in pts
    ensures SignOnly(links, cond, w) <==> SignOnlyAt(pts, links, cond, w)
  {
    hide Chain, CondHolds, LinkBreak;
    var half := Pow2(w - 1);
    assert Pow2(w) == 2 * half;
    var low, high := CondHolds(cond, Chain(links, 0, w)), CondHolds(cond, Chain(links, half, w));
    if SignOnlyAt(pts, links, cond, w) {
      forall x | 0 <= x < Pow2(w)
        ensures CondHolds(cond, Chain(links, x, w)) == if x < half then low else high
      {
        var p := FloorSample(pts, x);
        assert half <= x ==> half <= p;
        forall i, b | 0 <= i < |links| && p < b <= x ensures !LinkBreak(b, links[i], w) {
          assert b !in pts;
        }
        ChainConstant(links, p, x, w);
      }
    } else {
      var p :| p in pts && CondHolds(cond, Chain(links, p, w)) != if p < half then low else high;
      assert p != if p < half then 0 else half;
    }
  }

  lemma Pow2AtLeast(w: nat)
    requires w >= 16
    ensures Pow2(w) == 2 * Pow2(w - 1) && Pow2(w - 1) >= 32768
  {
    if w > 16 {
      Pow2AtLeast(w - 1);
    } else {
      assert Pow2(4) == 16 && Pow2(8) == 256 && Pow2(12) == 4096;
    }
  }

  lemma ImmediatePivot(k: int, cmn: bool, w: nat)
    requires 0 <= k < Pow2(w)
    ensures Pivot(k, cmn, w) == if !cmn || k == 0 then k else Pow2(w) - k
    ensures Immediate(Pivot(k, cmn, w), cmn, w) == k
  {
    CandidatePivot(k, cmn, w);
    ModOnce(-k, Pow2(w));
  }

  lemma DecisionMoves(links: seq<Link>, cond: nat, x: int, y: int, w: nat) returns (b: int)
    requires w >= 1 && ValidChain(links) && cond < 16
    requires 0 <= x < y < Pow2(w)
    requires CondHolds(cond, Chain(links, x, w)) != CondHolds(cond, Chain(links, y, w))
    ensures x < b <= y
    ensures CondHolds(cond, Chain(links, b - 1, w)) != CondHolds(cond, Chain(links, b, w))
  {
    hide Chain, CondHolds;
    b := x + 1;
    while CondHolds(cond, Chain(links, b - 1, w)) == CondHolds(cond, Chain(links, b, w))
      invariant x < b <= y
      invariant CondHolds(cond, Chain(links, b - 1, w)) == CondHolds(cond, Chain(links, x, w))
      decreases y - b
    {
      b := b + 1;
    }
  }

  /** Where the decision moves strictly inside a half, a compare that decides
      the chain and one of the links both have a breakpoint. */
  lemma SharedBreak(links: seq<Link>, cond: nat, k: int, cmn: bool, c: nat, b: int, w: nat) returns (i: nat)
    requires w >= 1 && ValidChain(links) && cond < 16 && c < 16
    requires Decides(k, cmn, c, links, cond, w)
    requires 0 < b < Pow2(w)
    requires CondHolds(cond, Chain(links, b - 1, w)) != CondHolds(cond, Chain(links, b, w))
    ensures i < |links| && LinkBreak(b, links[i], w) && Break(b, Pivot(k, cmn, w), w)
  {
    hide Compare, Chain, Break;
    assert AgreesAt(b - 1, k, cmn, c, links, cond, w) && AgreesAt(b, k, cmn, c, links, cond, w);
    if !Break(b, Pivot(k, cmn, w), w) {
      CompareConstant(b - 1, b, k, w, cmn);
    }
    if forall j | 0 <= j < |links| :: !LinkBreak(b, links[j], w) {
      ChainConstant(links, b - 1, b, w);
    }
    i :| 0 <= i < |links| && LinkBreak(b, links[i], w);
  }

  /** Two small compares that share a breakpoint inside a half turn on
      neighbouring values. */
  lemma SharedBreakNear(k: nat, cmn: bool, link: Link, b: int, w: nat)
    requires w >= 16 && k <= 4095 && link.k <= 4095
    requires 0 < b < Pow2(w) && b != Pow2(w - 1)
    requires Break(b, Pivot(k, cmn, w), w) && LinkBreak(b, link, w)
    ensures -1 <= Pivot(k, cmn, w) - Pivot(link.k, link.cmn, w) <= 1
    ensures 0 <= Pivot(k, cmn, w) < Pow2(w)
  {
    hide Break, Pivot, Pow2;
    Pow2AtLeast(w);
    SmallBreak(k, cmn, b, w);
    SmallBreak(link.k, link.cmn, b, w);
  }

  /** A breakpoint of a small compare inside a half is its pivot, the next
      value or the value half the range away. */
  lemma SmallBreak(k: nat, cmn: bool, b: int, w: nat)
    requires w >= 16 && k <= 4095 && 0 < b < Pow2(w) && b != Pow2(w - 1)
    requires Break(b, Pivot(k, cmn, w), w)
    ensures var q, half := Pivot(k, cmn, w), Pow2(w - 1);
            && q == (if !cmn || k == 0 then k else Pow2(w) - k)
            && (b == q || b == q + 1 || b == q + half || b == q - half)
  {
    hide Break, Pivot, Pow2;
    Pow2AtLeast(w);
    ImmediatePivot(k, cmn, w);
    ModOnce(k, Pow2(w));
    BreakReduced(k, cmn, w);
  }

  lemma CandidateFound(links: seq<Link>, i: nat, w: nat, p: int)
    requires i < |links| && 0 <= p < Pow2(w)
    requires -2 <= p - Pivot(links[i].k, links[i].cmn, w) <= 2
    ensures IsCandidate(links, w, p)
  {
    var e := Pivot(links[i].k, links[i].cmn, w);
    assert IsConst(links, w, e);
    ModOnce(p, Pow2(w));
    assert p == Near(e, p - e, w);
  }

  lemma TriedIsSome(links: seq<Link>, cond: nat, w: nat)
    requires w >= 1 && ValidChain(links) && cond < 16
    requires TriedDecides(links, cond, w)
    ensures SomeDecides(links, cond, w)
  {
    hide Decides;
    var k, cmn, c :| Tried(links, w, k, cmn, c)
      && Decides(Immediate(k, cmn, w), cmn, c, links, cond, w);
    assert 0 <= Immediate(k, cmn, w);
  }

  /** A chain that decides more than the sign: every compare that does the
      same is among those tried. */
  lemma VaryingIsTried(links: seq<Link>, cond: nat, w: nat)
    requires w >= 16 && TwelveBitChain(links) && cond < 16
    requires SomeDecides(links, cond, w) && !SignOnly(links, cond, w)
    ensures TriedDecides(links, cond, w)
  {
    hide Decides, Chain, CondHolds, Break;
    Pow2AtLeast(w);
    var k, cmn, c :| 0 <= k <= 4095 && 0 <= c < 14 && Decides(k, cmn, c, links, cond, w);
    var x, y :| 0 <= x < y < Pow2(w) && (x < Pow2(w - 1) <==> y < Pow2(w - 1))
      && CondHolds(cond, Chain(links, x, w)) != CondHolds(cond, Chain(links, y, w));
    var b := DecisionMoves(links, cond, x, y, w);
    var i := SharedBreak(links, cond, k, cmn, c, b, w);
    SharedBreakNear(k, cmn, links[i], b, w);
    CandidateFound(links, i, w, Pivot(k, cmn, w));
    ImmediatePivot(k, cmn, w);
    assert Tried(links, w, Pivot(k, cmn, w), cmn, c);
  }

  // The sign tests and constants among the compares.

  /** The four compares with 0 that decide at most the sign. */
  lemma ZeroCompares(x: int, w: nat)
    requires w >= 2 && 0 <= x < Pow2(w)
    ensures var f := Compare(x, 0, w, false);
            && CondHolds(2, f) && !CondHolds(3, f)
            && (CondHolds(4, f) <==> x >= Pow2(w - 1)) && (CondHolds(5, f) <==> x < Pow2(w - 1))
    ensures var f := Compare(x, 1, w, true);
            && CondHolds(9, f) && !CondHolds(8, f)
            && (CondHolds(13, f) <==> x >= Pow2(w - 1)) && (CondHolds(12, f) <==> x < Pow2(w - 1))
  {
    CompareInRange(x, 0, w, false);
    CompareInRange(x, 1, w, true);
  }

  lemma SignDecides(links: seq<Link>, cond: nat, w: nat) returns (c0: nat, c1: nat)
    requires w >= 2 && ValidChain(links) && cond < 16 && SignOnly(links, cond, w)
    ensures c0 < 14 && Decides(0, false, c0, links, cond, w)
    ensures c1 < 14 && Decides(1, true, c1, links, cond, w)
  {
    var half := Pow2(w - 1);
    var low, high := CondHolds(cond, Chain(links, 0, w)), CondHolds(cond, Chain(links, half, w));
    c0 := if low && high then 2 else if low then 5 else if high then 4 else 3;
    c1 := if low && high then 9 else if low then 12 else if high then 13 else 8;
    forall x | 0 <= x < Pow2(w)
      ensures CondHolds(cond, Chain(links, x, w)) == if x < half then low else high
      ensures CondHolds(c0, Compare(x, 0, w, false)) == CondHolds(cond, Chain(links, x, w))
      ensures CondHolds(c1, Compare(x, 1, w, true)) == CondHolds(cond, Chain(links, x, w))
    {
      hide Chain, Compare, CondHolds;
      ZeroCompares(x, w);
    }
  }

  lemma SmallLinkIsTried(links: seq<Link>, cond: nat, w: nat)
    requires w >= 16 && TwelveBitChain(links) && cond < 16
    requires SmallLink(links) && SignOnly(links, cond, w)
    ensures TriedDecides(links, cond, w)
  {
    hide Decides, SignOnly;
    Pow2AtLeast(w);
    var c0, c1 := SignDecides(links, cond, w);
    var i :| 0 <= i < |links| && links[i].k <= if links[i].cmn then 3 else 2;
    ImmediatePivot(links[i].k, links[i].cmn, w);
    ImmediatePivot(0, false, w);
    ImmediatePivot(1, true, w);
    if links[i].cmn && links[i].k > 0 {
      CandidateFound(links, i, w, Pow2(w) - 1);
      assert Tried(links, w, Pow2(w) - 1, true, c1);
    } else {
      CandidateFound(links, i, w, 0);
      assert Tried(links, w, 0, false, c0);
    }
  }

  /** Every other small compare, under every condition, separates two
      neighbours of the same sign. */
  lemma OtherComparesVary(k: nat, cmn: bool, c: nat, w: nat) returns (b: int)
    requires w >= 16 && 1 <= k <= 4095 && c < 14 && !(cmn && k == 1)
    ensures 0 < b < Pow2(w) && b != Pow2(w - 1)
    ensures CondHolds(c, Compare(b - 1, k, w, cmn)) != CondHolds(c, Compare(b, k, w, cmn))
  {
    Pow2AtLeast(w);
    var m, half := Pow2(w), Pow2(w - 1);
    var e := if cmn then m - k else k;
    b := if c == 6 || c == 7 then (if cmn then half - k else half + k)
         else if c == 8 || c == 9 || c == 12 || c == 13 then e + 1
         else e;
    CompareInRange(b - 1, k, w, cmn);
    CompareInRange(b, k, w, cmn);
  }

  lemma NoSmallLinkNoEdge(links: seq<Link>, w: nat)
    requires w >= 16 && TwelveBitChain(links) && !SmallLink(links)
    ensures !IsCandidate(links, w, 0) && !IsCandidate(links, w, Pow2(w) - 1)
  {
    Pow2AtLeast(w);
    forall e, d | IsConst(links, w, e) && -2 <= d <= 2
      ensures Near(e, d, w) != 0 && Near(e, d, w) != Pow2(w) - 1
    {
      var i :| 0 <= i < |links| && e == Pivot(links[i].k, links[i].cmn, w);
      ImmediatePivot(links[i].k, links[i].cmn, w);
      ModOnce(e + d, Pow2(w));
    }
  }

  lemma SignOnlyMissed(links: seq<Link>, cond: nat, w: nat)
    requires w >= 16 && TwelveBitChain(links) && cond < 16
    requires SignOnly(links, cond, w) && !SmallLink(links)
    ensures !TriedDecides(links, cond, w)
  {
    hide Chain, CondHolds, Compare, SmallLink;
    Pow2AtLeast(w);
    NoSmallLinkNoEdge(links, w);
    forall k, cmn, c | Tried(links, w, k, cmn, c)
      ensures !Decides(Immediate(k, cmn, w), cmn, c, links, cond, w)
    {
      var kk := Immediate(k, cmn, w);
      CandidateInRange(links, w, k);
      CandidatePivot(k, cmn, w);
      ImmediatePivot(kk, cmn, w);
      var b := OtherComparesVary(kk, cmn, c, w);
      if Decides(kk, cmn, c, links, cond, w) {
        SignOnlyIsFlat(links, cond, kk, cmn, c, b, w);
      }
    }
  }

  /** A compare that decides a sign-only chain is constant inside a half. */
  lemma SignOnlyIsFlat(links: seq<Link>, cond: nat, k: int, cmn: bool, c: nat, b: int, w: nat)
    requires w >= 16 && ValidChain(links) && cond < 16 && c < 16
    requires SignOnly(links, cond, w) && Decides(k, cmn, c, links, cond, w)
    requires 0 < b < Pow2(w) && b != Pow2(w - 1)
    ensures CondHolds(c, Compare(b - 1, k, w, cmn)) == CondHolds(c, Compare(b, k, w, cmn))
  {
    hide Chain, CondHolds, Compare;
  }

  lemma CandidateInRange(links: seq<Link>, w: nat, k: int)
    requires IsCandidate(links, w, k)
    ensures 0 <= k < Pow2(w)
  {
  }

  /** The search answers what its documentation asks if and only if some link
      compares with 0, 1, 2, -1, -2 or -3, or the chain decides more than the
      sign of the register. Both are settled by the links alone: the second by
      evaluating the chain at their breakpoints. */
  lemma SearchIsExactIff(links: seq<Link>, cond: nat, w: nat)
    requires w >= 16 && TwelveBitChain(links) && cond < 16
    ensures (TriedDecides(links, cond, w) <==> SomeDecides(links, cond, w))
            <==> SmallLink(links) || !SignOnlyAt(Breaks(links, w), links, cond, w)
  {
    hide TriedDecides, SomeDecides, SignOnly, SignOnlyAt, SmallLink, Breaks;
    SignOnlyIff(Breaks(links, w), links, cond, w);
    if TriedDecides(links, cond, w) {
      TriedIsSome(links, cond, w);
    }
    if !SignOnly(links, cond, w) {
      if SomeDecides(links, cond, w) {
        VaryingIsTried(links, cond, w);
      }
    } else {
      var c0, c1 := SignDecides(links, cond, w);
      ZeroIsSome(links, cond, c0, w);
      if SmallLink(links) {
        SmallLinkIsTried(links, cond, w);
      } else {
        SignOnlyMissed(links, cond, w);
      }
    }
  }

  lemma ZeroIsSome(links: seq<Link>, cond: nat, c: nat, w: nat)
    requires w >= 1 && ValidChain(links) && cond < 16 && c < 14
    requires Decides(0, false, c, links, cond, w)
    ensures SomeDecides(links, cond, w)
  {
    hide Decides;
  }

  /** A link compared again under NE, then read under EQ, never holds. */
  lemma NeverBoth(x: int, w: nat)
    requires w >= 16 && 0 <= x < Pow2(w)
    ensures !CondHolds(0, Chain([Link(20, false, 0, 0), Link(20, false, 0, 1)], x, w))
  {
    hide Compare;
    var links := [Link(20, false, 0, 0), Link(20, false, 0, 1)];
    assert links[..1] == [links[0]];
    Pow2AtLeast(w);
    ConditionMeaning(x, 20, w);
  }

  /** A chain on which they differ, at either register width: CMP Rn, #20 ;
      CCMP Rn, #20, #0, NE read under EQ never holds, which CMP Rn, #0 under
      LO decides too, and the search misses it. */
  lemma SearchMisses(w: nat)
    requires w == 32 || w == 64
    ensures var links := [Link(20, false, 0, 0), Link(20, false, 0, 1)];
            EncodableChain(links) && SomeDecides(links, 0, w) && !TriedDecides(links, 0, w)
  {
    hide Chain, CondHolds, SomeDecides, TriedDecides;
    var links := [Link(20, false, 0, 0), Link(20, false, 0, 1)];
    forall x | 0 <= x < Pow2(w) ensures !CondHolds(0, Chain(links, x, w)) {
      NeverBoth(x, w);
    }
    assert SignOnly(links, 0, w);
    var c0, c1 := SignDecides(links, 0, w);
    ZeroIsSome(links, 0, c0, w);
    SignOnlyMissed(links, 0, w);
  }
}
