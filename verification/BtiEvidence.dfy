/**
 The BTI audit of an ELF file in main.c: evidence that addresses are indirect
 branch targets, sorted and deduplicated, checked for landing pads, and
 summed up in a verdict.
 */
module BtiEvidence {

  /** Kinds of evidence, strongest first; the last only shows that an address
      is taken. */
  const ADDR := 7

  datatype Evidence = Evidence(va: nat, sym: nat, kind: nat)

  predicate ValidEvidence(ev: seq<Evidence>) {
    forall t | 0 <= t < |ev| :: ev[t].kind <= ADDR
  }

  /** The order of the sort: address, then strength; symbols do not count. */
  predicate InOrder(a: Evidence, b: Evidence) {
    a.va < b.va || (a.va == b.va && a.kind <= b.kind)
  }

  ghost predicate Sorted(ev: seq<Evidence>) {
    forall i, j | 0 <= i < j < |ev| :: InOrder(ev[i], ev[j])
  }

  // --- Sorted lookup ---

  ghost predicate SortedNumbers(v: seq<nat>) {
    forall i, j | 0 <= i < j < |v| :: v[i] <= v[j]
  }

  /** Binary search. */
  method U64Contains(v: seq<nat>, x: nat) returns (found: bool)
    requires SortedNumbers(v)
    ensures found <==> x in v
  {
    var lo, hi := 0, |v|;
    while lo < hi
      invariant 0 <= lo <= hi <= |v|
      invariant forall i | 0 <= i < lo :: v[i] < x
      invariant forall i | hi <= i < |v| :: v[i] >= x
    {
      var mid := lo + (hi - lo) / 2;
      if v[mid] < x {
        lo := mid + 1;
      } else {
        hi := mid;
      }
    }
    found := lo < |v| && v[lo] == x;
    if x in v {
      var i :| 0 <= i < |v| && v[i] == x;
      assert lo <= i && v[lo] <= v[i];
    }
  }

  // --- Executable sections and landing pads ---

  /** A section; EXEC when it is executable and its bytes were read. */
  datatype Section = Section(addr: nat, size: nat, exec: bool)

  /** What a target begins with: whether it admits a call, and whether it is a
      pad at all. */
  datatype Pad = Pad(call: bool, any: bool)

  predicate Holds(s: Section, va: nat) {
    s.exec && va >= s.addr && va - s.addr < s.size
  }

  /** The first section holding VA, or their number. */
  function SectionOf(secs: seq<Section>, va: nat): (i: nat)
    ensures i <= |secs|
    ensures i < |secs| ==> Holds(secs[i], va)
    ensures forall j | 0 <= j < i :: !Holds(secs[j], va)
  {
    if secs == [] then 0
    else if Holds(secs[0], va) then 0
    else
      var r := SectionOf(secs[1..], va);
      assert forall j | 1 <= j < 1 + r :: secs[j] == secs[1..][j - 1];
      1 + r
  }

  // --- What the audit counts ---

  datatype File = File(secs: seq<Section>, fentry: set<nat>, pad: (nat, nat) -> Pad)

  function PadAt(f: File, va: nat): Pad
    requires SectionOf(f.secs, va) < |f.secs|
  {
    var i := SectionOf(f.secs, va);
    f.pad(i, va - f.secs[i].addr)
  }

  /** Evidence of this kind names the address. */
  ghost predicate Has(ev: seq<Evidence>, va: nat, kind: nat) {
    exists i :: 0 <= i < |ev| && ev[i].va == va && ev[i].kind == kind
  }

  ghost predicate Named(ev: seq<Evidence>, va: nat) {
    exists kind: nat :: Has(ev, va, kind)
  }

  /** Some evidence proves the address is branched to, or it is taken and is a
      known function entry. */
  ghost predicate Proven(ev: seq<Evidence>, f: File, va: nat) {
    (exists kind: nat :: kind != ADDR && Has(ev, va, kind)) || va in f.fentry
  }

  ghost predicate IsChecked(ev: seq<Evidence>, f: File, va: nat) {
    Named(ev, va) && Proven(ev, f, va) && SectionOf(f.secs, va) < |f.secs|
  }

  ghost predicate IsMiss(ev: seq<Evidence>, f: File, va: nat) {
    IsChecked(ev, f, va) && !PadAt(f, va).call
  }

  ghost predicate IsWrong(ev: seq<Evidence>, f: File, va: nat) {
    IsMiss(ev, f, va) && PadAt(f, va).any
  }

  ghost function Addresses(ev: seq<Evidence>): set<nat> {
    set i | 0 <= i < |ev| :: ev[i].va
  }

  ghost function CheckedIn(vas: set<nat>, ev: seq<Evidence>, f: File): set<nat> {
    set va | va in vas && IsChecked(ev, f, va)
  }

  ghost function MissesIn(vas: set<nat>, ev: seq<Evidence>, f: File): set<nat> {
    set va | va in vas && IsMiss(ev, f, va)
  }

  ghost function WrongIn(vas: set<nat>, ev: seq<Evidence>, f: File): set<nat> {
    set va | va in vas && IsWrong(ev, f, va)
  }

  /** The strongest evidence for an address. */
  ghost predicate Strongest(ev: seq<Evidence>, va: nat, kind: nat) {
    Has(ev, va, kind) && forall k: nat | Has(ev, va, k) :: kind <= k
  }

  datatype Report = Report(checked: nat, misses: nat, wrong: nat, listed: seq<(nat, nat)>)

  /** The report of a set of evidence: each count the size of a set of
      addresses, each missing pad listed once, ascending, under the strongest
      evidence for it. */
  ghost predicate Reports(r: Report, ev: seq<Evidence>, f: File) {
    && r.checked == |CheckedIn(Addresses(ev), ev, f)|
    && r.misses == |MissesIn(Addresses(ev), ev, f)|
    && r.wrong == |WrongIn(Addresses(ev), ev, f)|
    && (forall i, j | 0 <= i < j < |r.listed| :: r.listed[i].0 < r.listed[j].0)
    && (forall i | 0 <= i < |r.listed| ::
          IsMiss(ev, f, r.listed[i].0) && Strongest(ev, r.listed[i].0, r.listed[i].1))
    && (forall va | IsMiss(ev, f, va) :: exists i :: 0 <= i < |r.listed| && r.listed[i].0 == va)
  }

  // --- The loop ---

  /** The addresses of the first N entries. */
  ghost function Seen(ev: seq<Evidence>, n: nat): set<nat>
    requires n <= |ev|
  {
    if n == 0 then {} else Seen(ev, n - 1) + {ev[n - 1].va}
  }

  lemma {:induction false} SeenMembers(ev: seq<Evidence>, n: nat, va: nat)
    requires n <= |ev|
    ensures va in Seen(ev, n) <==> exists i :: 0 <= i < n && ev[i].va == va
  {
    if n > 0 {
      SeenMembers(ev, n - 1, va);
      if exists i :: 0 <= i < n - 1 && ev[i].va == va {
        var i :| 0 <= i < n - 1 && ev[i].va == va;
        assert 0 <= i < n;
      }
    }
  }

  lemma SeenIsAddresses(ev: seq<Evidence>)
    ensures Seen(ev, |ev|) == Addresses(ev)
  {
    forall va: nat ensures va in Seen(ev, |ev|) <==> va in Addresses(ev) {
      SeenMembers(ev, |ev|, va);
    }
  }

  /** In the sorted order an address has been seen exactly when the previous
      entry has it, and the first entry of an address is its strongest. */
  lemma FirstOfAddress(ev: seq<Evidence>, t: nat)
    requires Sorted(ev) && ValidEvidence(ev) && t < |ev|
    ensures ev[t].va in Seen(ev, t) <==> t > 0 && ev[t - 1].va == ev[t].va
    ensures ev[t].va !in Seen(ev, t) ==> Strongest(ev, ev[t].va, ev[t].kind)
  {
    SeenMembers(ev, t, ev[t].va);
    if t > 0 && ev[t - 1].va == ev[t].va {
      assert 0 <= t - 1 < t;
    }
    if exists i :: 0 <= i < t && ev[i].va == ev[t].va {
      var i :| 0 <= i < t && ev[i].va == ev[t].va;
      assert InOrder(ev[t - 1], ev[t]);
      assert i < t - 1 ==> InOrder(ev[i], ev[t - 1]);
    } else {
      assert Has(ev, ev[t].va, ev[t].kind);
      forall k: nat | Has(ev, ev[t].va, k) ensures ev[t].kind <= k {
        var j :| 0 <= j < |ev| && ev[j].va == ev[t].va && ev[j].kind == k;
        if j > t {
          assert InOrder(ev[t], ev[j]);
        }
      }
    }
  }

  /** The strongest evidence settles whether an address is proven. */
  lemma StrongestProves(ev: seq<Evidence>, f: File, va: nat, kind: nat)
    requires ValidEvidence(ev) && Strongest(ev, va, kind)
    ensures Proven(ev, f, va) <==> !(kind == ADDR && va !in f.fentry)
    ensures Named(ev, va)
  {
    forall k: nat | Has(ev, va, k) ensures k <= ADDR {
      var j :| 0 <= j < |ev| && ev[j].va == va && ev[j].kind == k;
    }
  }

  lemma CountNext(vas: set<nat>, va: nat, ev: seq<Evidence>, f: File)
    requires va !in vas
    ensures CheckedIn(vas + {va}, ev, f)
            == if IsChecked(ev, f, va) then CheckedIn(vas, ev, f) + {va} else CheckedIn(vas, ev, f)
    ensures MissesIn(vas + {va}, ev, f)
            == if IsMiss(ev, f, va) then MissesIn(vas, ev, f) + {va} else MissesIn(vas, ev, f)
    ensures WrongIn(vas + {va}, ev, f)
            == if IsWrong(ev, f, va) then WrongIn(vas, ev, f) + {va} else WrongIn(vas, ev, f)
    ensures va !in CheckedIn(vas, ev, f) && va !in MissesIn(vas, ev, f) && va !in WrongIn(vas, ev, f)
  {
    hide IsChecked, IsMiss, IsWrong;
  }

  method FindSection(secs: seq<Section>, va: nat) returns (sec: nat)
    ensures sec == SectionOf(secs, va)
  {
    sec := |secs|;
    for i := 0 to |secs|
      invariant sec == |secs| && forall j | 0 <= j < i :: !Holds(secs[j], va)
    {
      if Holds(secs[i], va) {
        return i;
      }
    }
  }

  /** The counts and the list so far describe the addresses VAS. */
  ghost predicate SoFar(r: Report, vas: set<nat>, ev: seq<Evidence>, f: File) {
    && r.checked == |CheckedIn(vas, ev, f)|
    && r.misses == |MissesIn(vas, ev, f)|
    && r.wrong == |WrongIn(vas, ev, f)|
    && (forall i, j | 0 <= i < j < |r.listed| :: r.listed[i].0 < r.listed[j].0)
    && (forall i | 0 <= i < |r.listed| ::
          IsMiss(ev, f, r.listed[i].0) && Strongest(ev, r.listed[i].0, r.listed[i].1))
    && (forall i | 0 <= i < |r.listed| :: r.listed[i].0 in vas)
    && (forall va | va in vas && IsMiss(ev, f, va) :: exists i :: 0 <= i < |r.listed| && r.listed[i].0 == va)
  }

  lemma SizesNext(vas: set<nat>, va: nat, ev: seq<Evidence>, f: File)
    requires va !in vas
    ensures |CheckedIn(vas + {va}, ev, f)| == |CheckedIn(vas, ev, f)| + if IsChecked(ev, f, va) then 1 else 0
    ensures |MissesIn(vas + {va}, ev, f)| == |MissesIn(vas, ev, f)| + if IsMiss(ev, f, va) then 1 else 0
    ensures |WrongIn(vas + {va}, ev, f)| == |WrongIn(vas, ev, f)| + if IsWrong(ev, f, va) then 1 else 0
  {
    hide IsChecked, IsMiss, IsWrong, CheckedIn, MissesIn, WrongIn;
    CountNext(vas, va, ev, f);
  }

  lemma SoFarNext(r: Report, vas: set<nat>, va: nat, kind: nat, ev: seq<Evidence>, f: File, after: Report)
    requires SoFar(r, vas, ev, f) && va !in vas && Strongest(ev, va, kind)
    requires forall x | x in vas :: x < va
    requires after == if !IsChecked(ev, f, va) then r
                      else if !IsMiss(ev, f, va) then r.(checked := r.checked + 1)
                      else Report(r.checked + 1, r.misses + 1, if IsWrong(ev, f, va) then r.wrong + 1 else r.wrong,
                                  r.listed + [(va, kind)])
    ensures SoFar(after, vas + {va}, ev, f)
  {
    hide IsChecked, IsMiss, IsWrong, Strongest, CheckedIn, MissesIn, WrongIn;
    MissesAreChecked(ev, f, va);
    SizesNext(vas, va, ev, f);
    ListedNext(r.listed, after.listed, vas, va, ev, f);
    AscendingNext(r.listed, va, kind);
  }

  lemma MissesAreChecked(ev: seq<Evidence>, f: File, va: nat)
    ensures IsWrong(ev, f, va) ==> IsMiss(ev, f, va)
    ensures IsMiss(ev, f, va) ==> IsChecked(ev, f, va)
  {}

  lemma AscendingNext(listed: seq<(nat, nat)>, va: nat, kind: nat)
    requires forall i, j | 0 <= i < j < |listed| :: listed[i].0 < listed[j].0
    requires forall i | 0 <= i < |listed| :: listed[i].0 < va
    ensures var after := listed + [(va, kind)];
            forall i, j | 0 <= i < j < |after| :: after[i].0 < after[j].0
  {}

  lemma ListedNext(listed: seq<(nat, nat)>, after: seq<(nat, nat)>, vas: set<nat>, va: nat, ev: seq<Evidence>, f: File)
    requires forall x | x in vas && IsMiss(ev, f, x) :: exists i :: 0 <= i < |listed| && listed[i].0 == x
    requires listed <= after && (IsMiss(ev, f, va) ==> |after| == |listed| + 1 && after[|listed|].0 == va)
    ensures forall x | x in vas + {va} && IsMiss(ev, f, x) :: exists i :: 0 <= i < |after| && after[i].0 == x
  {
    hide IsMiss;
    forall x | x in vas + {va} && IsMiss(ev, f, x)
      ensures exists i :: 0 <= i < |after| && after[i].0 == x
    {
      if x in vas {
        var i :| 0 <= i < |listed| && listed[i].0 == x;
        assert after[i].0 == x;
      } else {
        assert after[|listed|].0 == x;
      }
    }
  }

  /** One pass over the sorted evidence with a one-address memory. FENTRY is
      the sorted list of function entries. */
  method CheckTargets(ev: seq<Evidence>, f: File, fentry: seq<nat>) returns (r: Report)
    requires Sorted(ev) && ValidEvidence(ev)
    requires SortedNumbers(fentry) && f.fentry == set x | x in fentry
    ensures Reports(r, ev, f)
  {
    hide Strongest, PadAt, Proven, SoFar;
    r := Report(0, 0, 0, []);
    var prevVa, havePrev := 0, false;
    assert SoFar(r, {}, ev, f) by {
      SoFarStart(ev, f);
    }
    for t := 0 to |ev|
      invariant havePrev == (t > 0) && (t > 0 ==> prevVa == ev[t - 1].va)
      invariant SoFar(r, Seen(ev, t), ev, f)
    {
      var va := ev[t].va;
      FirstOfAddress(ev, t);
      ghost var vas := Seen(ev, t);
      assert Seen(ev, t + 1) == vas + {va};
      if havePrev && va == prevVa {
        assert vas + {va} == vas;
        continue;
      }
      prevVa, havePrev := va, true;
      ghost var before := r;
      SeenBelow(ev, t);
      StrongestProves(ev, f, va, ev[t].kind);
      var known := U64Contains(fentry, va);
      if ev[t].kind == ADDR && !known {
        SoFarNext(before, vas, va, ev[t].kind, ev, f, r);
        continue;
      }
      var sec := FindSection(f.secs, va);
      if sec == |f.secs| {
        SoFarNext(before, vas, va, ev[t].kind, ev, f, r);
        continue;
      }
      r := r.(checked := r.checked + 1);
      var pad := f.pad(sec, va - f.secs[sec].addr);
      assert pad == PadAt(f, va) by {
        PadIs(f, va, sec);
      }
      if pad.call {
        SoFarNext(before, vas, va, ev[t].kind, ev, f, r);
        continue;
      }
      r := r.(misses := r.misses + 1, wrong := r.wrong + if pad.any then 1 else 0);
      r := r.(listed := r.listed + [(va, ev[t].kind)]);
      SoFarNext(before, vas, va, ev[t].kind, ev, f, r);
    }
    SeenIsAddresses(ev);
    AllSoFar(r, ev, f);
  }

  lemma PadIs(f: File, va: nat, sec: nat)
    requires sec == SectionOf(f.secs, va) < |f.secs|
    ensures PadAt(f, va) == f.pad(sec, va - f.secs[sec].addr)
  {
  }

  lemma SoFarStart(ev: seq<Evidence>, f: File)
    ensures SoFar(Report(0, 0, 0, []), {}, ev, f)
  {
    assert CheckedIn({}, ev, f) == {} && MissesIn({}, ev, f) == {} && WrongIn({}, ev, f) == {};
  }

  lemma SeenBelow(ev: seq<Evidence>, t: nat)
    requires Sorted(ev) && t < |ev| && ev[t].va !in Seen(ev, t)
    ensures forall x | x in Seen(ev, t) :: x < ev[t].va
  {
    forall x | x in Seen(ev, t) ensures x < ev[t].va {
      SeenMembers(ev, t, x);
      var i :| 0 <= i < t && ev[i].va == x;
      assert InOrder(ev[i], ev[t]);
    }
  }

  lemma AllSoFar(r: Report, ev: seq<Evidence>, f: File)
    requires SoFar(r, Addresses(ev), ev, f)
    ensures Reports(r, ev, f)
  {
    hide PadAt, Proven, Strongest;
  }

  // --- Only the set of evidence matters ---

  ghost predicate SameEvidence(a: seq<Evidence>, b: seq<Evidence>) {
    forall va: nat, kind: nat :: Has(a, va, kind) <==> Has(b, va, kind)
  }

  lemma SameChecked(a: seq<Evidence>, b: seq<Evidence>, f: File, va: nat)
    requires SameEvidence(a, b)
    ensures IsChecked(a, f, va) <==> IsChecked(b, f, va)
    ensures IsMiss(a, f, va) <==> IsMiss(b, f, va)
    ensures IsWrong(a, f, va) <==> IsWrong(b, f, va)
    ensures forall kind: nat :: Strongest(a, va, kind) <==> Strongest(b, va, kind)
  {
    hide Has, PadAt;
    assert Named(a, va) <==> Named(b, va);
    assert Proven(a, f, va) <==> Proven(b, f, va);
  }

  lemma CheckedIsNamed(ev: seq<Evidence>, f: File, va: nat)
    requires IsChecked(ev, f, va)
    ensures va in Addresses(ev)
  {
    var kind: nat :| Has(ev, va, kind);
    var i :| 0 <= i < |ev| && ev[i].va == va && ev[i].kind == kind;
  }

  lemma SameCounts(a: seq<Evidence>, b: seq<Evidence>, f: File)
    requires SameEvidence(a, b)
    ensures CheckedIn(Addresses(a), a, f) == CheckedIn(Addresses(b), b, f)
    ensures MissesIn(Addresses(a), a, f) == MissesIn(Addresses(b), b, f)
    ensures WrongIn(Addresses(a), a, f) == WrongIn(Addresses(b), b, f)
  {
    forall va: nat
      ensures IsChecked(a, f, va) <==> IsChecked(b, f, va)
      ensures IsMiss(a, f, va) <==> IsMiss(b, f, va)
      ensures IsWrong(a, f, va) <==> IsWrong(b, f, va)
      ensures IsChecked(a, f, va) ==> va in Addresses(a) && va in Addresses(b)
    {
      hide SameEvidence, Addresses, IsChecked, IsMiss, IsWrong;
      SameChecked(a, b, f, va);
      if IsChecked(a, f, va) {
        CheckedIsNamed(a, f, va);
        CheckedIsNamed(b, f, va);
      }
    }
    hide Addresses, IsChecked, PadAt, SameEvidence;
  }

  /** Push order, duplicates and symbols do not change the report. */
  lemma ReportIsOfTheSet(a: seq<Evidence>, b: seq<Evidence>, f: File, r: Report, s: Report)
    requires SameEvidence(a, b) && Reports(r, a, f) && Reports(s, b, f)
    ensures r == s
  {
    hide SameEvidence, Addresses, IsMiss, CheckedIn, MissesIn, WrongIn, Strongest;
    SameCounts(a, b, f);
    SameSymmetric(a, b);
    SameList(r.listed, s.listed, a, b, f, |r.listed|);
    SameList(s.listed, r.listed, b, a, f, |s.listed|);
  }

  lemma SameSymmetric(a: seq<Evidence>, b: seq<Evidence>)
    requires SameEvidence(a, b)
    ensures SameEvidence(b, a)
  {
    hide Has;
  }

  lemma StrongestUnique(ev: seq<Evidence>, va: nat, k: nat, l: nat)
    requires Strongest(ev, va, k) && Strongest(ev, va, l)
    ensures k == l
  {
  }

  ghost predicate ListsMisses(listed: seq<(nat, nat)>, ev: seq<Evidence>, f: File) {
    && (forall i, j | 0 <= i < j < |listed| :: listed[i].0 < listed[j].0)
    && (forall i | 0 <= i < |listed| :: IsMiss(ev, f, listed[i].0) && Strongest(ev, listed[i].0, listed[i].1))
    && (forall va | IsMiss(ev, f, va) :: exists i :: 0 <= i < |listed| && listed[i].0 == va)
  }

  lemma {:induction false} SameList(x: seq<(nat, nat)>, y: seq<(nat, nat)>, a: seq<Evidence>, b: seq<Evidence>,
                                    f: File, n: nat)
    requires SameEvidence(a, b) && ListsMisses(x, a, f) && ListsMisses(y, b, f) && n <= |x|
    ensures n <= |y| && x[..n] == y[..n]
  {
    hide SameEvidence, Strongest, IsMiss;
    if n > 0 {
      SameList(x, y, a, b, f, n - 1);
      SameNext(x, y, a, b, f, n - 1);
      assert x[..n] == x[..n - 1] + [x[n - 1]] && y[..n] == y[..n - 1] + [y[n - 1]];
    }
  }

  /** The next entries of two such lists agree. */
  lemma SameNext(x: seq<(nat, nat)>, y: seq<(nat, nat)>, a: seq<Evidence>, b: seq<Evidence>, f: File, n: nat)
    requires SameEvidence(a, b) && ListsMisses(x, a, f) && ListsMisses(y, b, f)
    requires n < |x| && n <= |y| && x[..n] == y[..n]
    ensures n < |y| && x[n] == y[n]
  {
    hide SameEvidence, Strongest, IsMiss;
    SameChecked(a, b, f, x[n].0);
    PlaceAfter(x, y, a, b, f, n);
    SameChecked(a, b, f, y[n].0);
    SameSymmetric(a, b);
    PlaceAfter(y, x, b, a, f, n);
    StrongestUnique(b, y[n].0, x[n].1, y[n].1);
  }

  /** The N-th address listed for one set of evidence is listed for the other,
      and not among the first N that agree. */
  lemma PlaceAfter(x: seq<(nat, nat)>, y: seq<(nat, nat)>, a: seq<Evidence>, b: seq<Evidence>, f: File, n: nat)
    requires SameEvidence(a, b) && ListsMisses(x, a, f) && ListsMisses(y, b, f)
    requires n < |x| && n <= |y| && x[..n] == y[..n]
    ensures n < |y| && y[n].0 <= x[n].0
  {
    hide SameEvidence, Strongest, IsMiss;
    SameChecked(a, b, f, x[n].0);
    forall k | 0 <= k < n ensures x[k] == y[k] {
      assert x[..n][k] == y[..n][k];
    }
    assert exists i :: 0 <= i < |y| && y[i].0 == x[n].0;
  }

  /** The exit status: the misses of a file that claims BTI, misses and one of
      a file that seems to have lost its claim, else 0. */
  function Verdict(r: Report, bti: bool): nat {
    if r.checked == 0 then 0
    else if bti then r.misses
    else if r.misses < r.checked then r.misses + 1
    else 0
  }

  /** A claiming file passes exactly when every proven target in an executable
      section admits a call; a silent one, when none does. */
  lemma VerdictZeroIff(r: Report, ev: seq<Evidence>, f: File)
    requires Reports(r, ev, f)
    ensures Verdict(r, true) == 0 <==> forall va | IsChecked(ev, f, va) :: PadAt(f, va).call
    ensures Verdict(r, false) == 0 <==> forall va | IsChecked(ev, f, va) :: !PadAt(f, va).call
  {
    hide PadAt, Named, Proven, Strongest, Addresses;
    var vas := Addresses(ev);
    var checked, misses := CheckedIn(vas, ev, f), MissesIn(vas, ev, f);
    forall va | IsChecked(ev, f, va) ensures va in checked && (va in misses <==> !PadAt(f, va).call) {
      CheckedIsNamed(ev, f, va);
    }
    Smaller(misses, checked);
    Smaller({}, misses);
    assert misses == {} <==> forall va | IsChecked(ev, f, va) :: PadAt(f, va).call;
    assert misses == checked <==> forall va | IsChecked(ev, f, va) :: !PadAt(f, va).call;
  }

  /** Otherwise a claiming file's status is how many proven targets lack a call
      pad; a silent one's, with some that have one, one more than that. */
  lemma VerdictCounts(r: Report, ev: seq<Evidence>, f: File, lacking: set<nat>)
    requires Reports(r, ev, f)
    requires forall va :: va in lacking <==> IsChecked(ev, f, va) && !PadAt(f, va).call
    ensures Verdict(r, true) == |lacking|
    ensures (exists va :: IsChecked(ev, f, va) && PadAt(f, va).call) ==> Verdict(r, false) == |lacking| + 1
  {
    VerdictZeroIff(r, ev, f);
    hide PadAt, Named, Proven, Strongest, Addresses;
    var misses := MissesIn(Addresses(ev), ev, f);
    forall va ensures va in misses <==> va in lacking {
      if IsChecked(ev, f, va) {
        CheckedIsNamed(ev, f, va);
      }
    }
    assert misses == lacking;
    Smaller(misses, CheckedIn(Addresses(ev), ev, f));
  }

  lemma Smaller(a: set<nat>, b: set<nat>)
    requires a <= b
    ensures |a| <= |b| && (|a| == |b| ==> a == b)
  {
    assert b == a + (b - a);
    assert |b| == |a| + |b - a|;
  }
}
