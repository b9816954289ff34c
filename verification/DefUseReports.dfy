/**
 Everything the scan of tools/defuse.c reports about a section, and nothing
 else: each kind of report by what the run must hold for it.
 */
module DefUseReports {
  import opened Options
  import opened Insns
  import opened DefUseRuns
  import opened DefUseMeaning

  /** A write of S finds a def that R describes. */
  ghost predicate Overwrites(t: Trace, e: Event, s: nat, r: Report)
    requires Runs(e)
  {
    match r
    case Dead(kind, detail, xbr) => exists i: nat :: DiesUnread(t, e, Start(s, kind, detail, true), i, xbr)
    case Sole(kind, detail, use, xbr, dist) =>
      exists pure: bool, i: nat, f: nat ::
        DiesReadOnce(t, e, Start(s, kind, detail, pure), i, f, use, xbr) && dist == f - i
    case Multi(kind, detail) => exists pure: bool, i: nat :: DiesReadOften(t, e, Start(s, kind, detail, pure), i)
    case _ => false
  }

  /** Event E, after the run T, calls for the report. */
  ghost predicate Earned(t: Trace, e: Event, r: Report) {
    Runs(e)
    && match r
       case Cmp0(_, _) => ComparesAlu(t, e, r)
       case Reload(_, _, _) => LoadsAgain(t, e, r)
       case Remat(_) => MovesAgain(t, e, r)
       case _ => exists s :: s in WriteSlots(e.insn) && Overwrites(t, e, s, r)
  }

  lemma FinalIff(t: Trace, e: Event, s: nat, r: Report)
    requires Runs(e)
    ensures r in Final(DefUsed(t, e, s)) <==> Overwrites(t, e, s, r)
  {
    hide DefUsed, DiesUnread, DiesReadOnce, DiesReadOften;
    match r
    case Dead(kind, detail, xbr) => DeadIff(t, e, s, kind, detail, xbr);
    case Sole(kind, detail, use, xbr, dist) => SoleIff(t, e, s, kind, detail, use, xbr, dist);
    case Multi(kind, detail) => MultiIff(t, e, s, kind, detail);
    case _ =>
  }

  // --- How often ---

  /** How many of the reports are of the sort P: one report, all of one key, or
      those of a key in one distance bucket. */
  function Times(reports: seq<Report>, p: Report -> bool): nat {
    if reports == [] then 0
    else Times(reports[..|reports| - 1], p) + if p(reports[|reports| - 1]) then 1 else 0
  }

  lemma {:induction false} TimesJoin(a: seq<Report>, b: seq<Report>, p: Report -> bool)
    ensures Times(a + b, p) == Times(a, p) + Times(b, p)
    decreases |b|
  {
    if b == [] {
      assert a + b == a;
    } else {
      var n := |b| - 1;
      assert (a + b)[..|a| + n] == a + b[..n] && (a + b)[|a| + n] == b[n];
      TimesJoin(a, b[..n], p);
    }
  }

  lemma TimesOne(reports: seq<Report>, p: Report -> bool)
    requires |reports| <= 1
    ensures Times(reports, p) == if exists r :: r in reports && p(r) then 1 else 0
  {
    if |reports| == 1 {
      assert reports[..0] == [] && reports[0] in reports;
    }
  }

  /** The slots among SLOTS whose write calls for such a report. */
  ghost function Overwritten(t: Trace, e: Event, slots: seq<nat>, p: Report -> bool): set<nat>
    requires Runs(e)
  {
    set s | s in slots && OverwritesSome(t, e, s, p)
  }

  ghost predicate OverwritesSome(t: Trace, e: Event, s: nat, p: Report -> bool)
    requires Runs(e)
  {
    exists r :: Overwrites(t, e, s, r) && p(r)
  }

  /** How often event E, after the run T, calls for such a report: as a compare,
      as a load, as a constant, and once for each slot it writes. */
  ghost function TimesEarned(t: Trace, e: Event, p: Report -> bool): nat {
    if !Runs(e) then 0
    else
      (if exists r :: ComparesAlu(t, e, r) && p(r) then 1 else 0)
      + (if exists r :: LoadsAgain(t, e, r) && p(r) then 1 else 0)
      + (if exists r :: MovesAgain(t, e, r) && p(r) then 1 else 0)
      + |Overwritten(t, e, WriteSlots(e.insn), p)|
  }

  /** How often a whole run does. */
  ghost function TimesOver(t: Trace, p: Report -> bool): nat {
    if t == [] then 0
    else TimesOver(t[..|t| - 1], p) + TimesEarned(t[..|t| - 1], t[|t| - 1], p)
  }

  lemma FinalOnce(t: Trace, e: Event, s: nat, p: Report -> bool)
    requires Runs(e)
    ensures Times(Final(DefUsed(t, e, s)), p) == if OverwritesSome(t, e, s, p) then 1 else 0
  {
    hide DefUsed, Overwrites, Times;
    var final := Final(DefUsed(t, e, s));
    TimesOne(final, p);
    forall r ensures r in final <==> Overwrites(t, e, s, r) {
      FinalIff(t, e, s, r);
    }
  }

  lemma FinalsNext(t: Trace, e: Event, n: nat, p: Report -> bool)
    requires Runs(e) && n < |WriteSlots(e.insn)|
    ensures var s := WriteSlots(e.insn)[n];
            Times(FinalReports(t, e, n + 1), p) == Times(FinalReports(t, e, n), p)
            + if s !in WriteSlots(e.insn)[..n] && OverwritesSome(t, e, s, p) then 1 else 0
  {
    hide DefUsed, OverwritesSome, WriteSlots, Final, Times;
    var slots := WriteSlots(e.insn);
    FinalOnce(t, e, slots[n], p);
    TimesOne([], p);
    TimesJoin(FinalReports(t, e, n), if slots[n] in slots[..n] then [] else Final(DefUsed(t, e, slots[n])), p);
  }

  lemma OverwrittenGrows(t: Trace, e: Event, slots: seq<nat>, s: nat, p: Report -> bool)
    requires Runs(e)
    ensures |Overwritten(t, e, slots + [s], p)|
            == |Overwritten(t, e, slots, p)| + if s !in slots && OverwritesSome(t, e, s, p) then 1 else 0
  {
    hide OverwritesSome;
    var before := Overwritten(t, e, slots, p);
    if OverwritesSome(t, e, s, p) {
      assert Overwritten(t, e, slots + [s], p) == before + {s};
      assert s in slots ==> before + {s} == before;
    } else {
      assert Overwritten(t, e, slots + [s], p) == before;
    }
  }

  lemma NoneOverwritten(t: Trace, e: Event, slots: seq<nat>, p: Report -> bool)
    requires Runs(e) && slots == []
    ensures |Overwritten(t, e, slots, p)| == 0
  {
    hide OverwritesSome;
    assert forall s :: s !in Overwritten(t, e, slots, p);
  }

  lemma {:induction false} FinalsCount(t: Trace, e: Event, n: nat, p: Report -> bool)
    requires Runs(e) && n <= |WriteSlots(e.insn)|
    ensures Times(FinalReports(t, e, n), p) == |Overwritten(t, e, WriteSlots(e.insn)[..n], p)|
  {
    hide WriteSlots, Overwritten, Times;
    var slots := WriteSlots(e.insn);
    if n == 0 {
      TimesOne([], p);
      NoneOverwritten(t, e, slots[..0], p);
    } else {
      hide FinalReports;
      FinalsCount(t, e, n - 1, p);
      FinalsNext(t, e, n - 1, p);
      OverwrittenGrows(t, e, slots[..n - 1], slots[n - 1], p);
      assert slots[..n] == slots[..n - 1] + [slots[n - 1]];
    }
  }

  lemma Single(t: Trace, e: Event, p: Report -> bool)
    requires Runs(e)
    ensures Times(Cmp0Report(t, e), p) == if exists r :: ComparesAlu(t, e, r) && p(r) then 1 else 0
    ensures Times(ReloadReport(t, e), p) == if exists r :: LoadsAgain(t, e, r) && p(r) then 1 else 0
    ensures Times(RematReport(t, e), p) == if exists r :: MovesAgain(t, e, r) && p(r) then 1 else 0
  {
    AtMostOne(t, e);
    hide ComparesAlu, LoadsAgain, MovesAgain, Times, Cmp0Report, ReloadReport, RematReport;
    TimesOne(Cmp0Report(t, e), p);
    TimesOne(ReloadReport(t, e), p);
    TimesOne(RematReport(t, e), p);
    forall r
      ensures ComparesAlu(t, e, r) <==> r in Cmp0Report(t, e)
      ensures LoadsAgain(t, e, r) <==> r in ReloadReport(t, e)
      ensures MovesAgain(t, e, r) <==> r in RematReport(t, e)
    {
      Cmp0Iff(t, e, r);
      ReloadIff(t, e, r);
      RematIff(t, e, r);
    }
  }

  lemma AtMostOne(t: Trace, e: Event)
    requires Runs(e)
    ensures |Cmp0Report(t, e)| <= 1 && |ReloadReport(t, e)| <= 1 && |RematReport(t, e)| <= 1
  {
    hide FlagsBefore, LoadBefore, Oldest, KeyOf, ZeroCompared, MovImm, Idx;
  }

  /** An event makes reports of any sort as often as it earns them. */
  lemma ReportsEarned(t: Trace, e: Event, p: Report -> bool)
    ensures Times(ReportsAt(t, e), p) == TimesEarned(t, e, p)
  {
    hide WriteSlots, FinalReports, Overwritten, ComparesAlu, LoadsAgain, MovesAgain, Times;
    TimesOne([], p);
    if Runs(e) {
      hide Runs, Cmp0Report, ReloadReport, RematReport;
      var slots := WriteSlots(e.insn);
      assert slots[..|slots|] == slots;
      FinalsCount(t, e, |slots|, p);
      Single(t, e, p);
      FourParts(Cmp0Report(t, e), ReloadReport(t, e), FinalReports(t, e, |slots|), RematReport(t, e), p);
    }
  }

  lemma FourParts(a: seq<Report>, b: seq<Report>, c: seq<Report>, d: seq<Report>, p: Report -> bool)
    ensures Times(a + b + c + d, p) == Times(a, p) + Times(b, p) + Times(c, p) + Times(d, p)
  {
    hide Times;
    TimesJoin(a, b, p);
    TimesJoin(a + b, c, p);
    TimesJoin(a + b + c, d, p);
  }

  /** A scan makes reports of any sort exactly as often as the events of the
      section, and the slots they write, earn them. */
  lemma {:induction false} ScanCounts(t: Trace, p: Report -> bool)
    ensures Times(Reports(t), p) == TimesOver(t, p)
  {
    hide ReportsAt, TimesEarned, Times;
    if t == [] {
      TimesOne([], p);
    } else {
      var prev, e := t[..|t| - 1], t[|t| - 1];
      ScanCounts(prev, p);
      ReportsEarned(prev, e, p);
      TimesJoin(Reports(prev), ReportsAt(prev, e), p);
    }
  }

  // --- The printed table ---

  /** The line a report is counted on: all of it but the distance. */
  function Line(r: Report): Report {
    match r
    case Cmp0(mnemonic, _) => Cmp0(mnemonic, 0)
    case Reload(place, size, _) => Reload(place, size, 0)
    case Sole(kind, detail, use, xbr, _) => Sole(kind, detail, use, xbr, 0)
    case Remat(_) => Remat(0)
    case _ => r
  }

  /** The distance filed with it, none for dead and multiple uses. */
  function Dist(r: Report): Option<int> {
    match r
    case Cmp0(_, d) => Some(d)
    case Reload(_, _, d) => Some(d)
    case Sole(_, _, _, _, d) => Some(d)
    case Remat(d) => Some(d)
    case _ => None
  }

  /** 1, 2, 3, 4 to 7, 8 to 15, and more. */
  function Bucket(d: int): nat {
    if d <= 1 then 0 else if d == 2 then 1 else if d == 3 then 2 else if d <= 7 then 3 else if d <= 15 then 4 else 5
  }

  /** One entry: the line's total and its six distance buckets. */
  datatype Entry = Entry(n: nat, c: seq<nat>)

  const NO_ENTRY := Entry(0, [0, 0, 0, 0, 0, 0])

  /** The counting half of bump. */
  function Bumped(entry: Entry, d: Option<int>): (after: Entry)
    requires |entry.c| == 6
    ensures |after.c| == 6
  {
    if d.None? || d.value < 0 then entry.(n := entry.n + 1)
    else Entry(entry.n + 1, entry.c[Bucket(d.value) := entry.c[Bucket(d.value)] + 1])
  }

  /** The entry of LINE after these reports. */
  function EntryOf(reports: seq<Report>, line: Report): (entry: Entry)
    ensures |entry.c| == 6
  {
    if reports == [] then NO_ENTRY
    else
      var r, before := reports[|reports| - 1], EntryOf(reports[..|reports| - 1], line);
      if Line(r) == line then Bumped(before, Dist(r)) else before
  }

  /** Where each bucket but the first starts. */
  const STARTS := [0, 2, 3, 4, 8, 16]

  /** The distance is at least the bucket's start and below the next one's. */
  predicate InBucket(r: Report, b: nat) {
    && Dist(r).Some? && Dist(r).value >= 0 && b < 6
    && STARTS[b] <= Dist(r).value && (b < 5 ==> Dist(r).value < STARTS[b + 1])
  }

  lemma {:induction false} EntryCounts(reports: seq<Report>, line: Report, b: nat)
    requires b < 6
    ensures EntryOf(reports, line).n == Times(reports, r => Line(r) == line)
    ensures EntryOf(reports, line).c[b] == Times(reports, r => Line(r) == line && InBucket(r, b))
  {
    if reports != [] {
      EntryCounts(reports[..|reports| - 1], line, b);
    }
  }

  /** What the table prints for a line, its total and each of its distance
      buckets, is how often the section earns such a report. */
  lemma PrintedCounts(t: Trace, line: Report, b: nat)
    requires b < 6
    ensures EntryOf(Reports(t), line).n == TimesOver(t, r => Line(r) == line)
    ensures EntryOf(Reports(t), line).c[b] == TimesOver(t, r => Line(r) == line && InBucket(r, b))
  {
    hide Times, TimesOver, EntryOf, Reports;
    EntryCounts(Reports(t), line, b);
    ScanCounts(t, r => Line(r) == line);
    ScanCounts(t, r => Line(r) == line && InBucket(r, b));
  }

  // --- Whether at all ---

  lemma {:induction false} TimesSome(reports: seq<Report>, p: Report -> bool)
    ensures Times(reports, p) > 0 <==> exists r :: r in reports && p(r)
  {
    if reports != [] {
      var n := |reports| - 1;
      TimesSome(reports[..n], p);
      assert reports == reports[..n] + [reports[n]];
    }
  }

  /** So nothing is reported without cause, and nothing earned is passed over. */
  lemma ScanReports(t: Trace, r: Report)
    ensures r in Reports(t) <==> exists k: nat :: k < |t| && Earned(t[..k], t[k], r)
  {
    hide Reports, Earned, TimesEarned, TimesOver, Times;
    var p := (x: Report) => x == r;
    ScanCounts(t, p);
    TimesSome(Reports(t), p);
    SomeTime(t, r, p);
  }

  lemma {:induction false} SomeTime(t: Trace, r: Report, p: Report -> bool)
    requires forall x :: p(x) <==> x == r
    ensures TimesOver(t, p) > 0 <==> exists k: nat :: k < |t| && Earned(t[..k], t[k], r)
  {
    hide Earned, TimesEarned;
    if t != [] {
      var prev, e := t[..|t| - 1], t[|t| - 1];
      SomeTime(prev, r, p);
      EarnedSome(prev, e, r, p);
      assert forall k: nat | k < |prev| :: prev[..k] == t[..k] && prev[k] == t[k];
    }
  }

  lemma EarnedSome(t: Trace, e: Event, r: Report, p: Report -> bool)
    requires forall x :: p(x) <==> x == r
    ensures TimesEarned(t, e, p) > 0 <==> Earned(t, e, r)
  {
    hide WriteSlots, Overwrites;
    if Runs(e) {
      KindsApart(t, e, r);
      hide ComparesAlu, LoadsAgain, MovesAgain;
      var slots := WriteSlots(e.insn);
      if s :| s in slots && Overwrites(t, e, s, r) {
        assert s in Overwritten(t, e, slots, p);
      }
      if |Overwritten(t, e, slots, p)| > 0 {
        var s :| s in Overwritten(t, e, slots, p);
        assert Overwrites(t, e, s, r);
      }
    }
  }

  lemma KindsApart(t: Trace, e: Event, r: Report)
    requires Runs(e)
    ensures ComparesAlu(t, e, r) ==> r.Cmp0?
    ensures LoadsAgain(t, e, r) ==> r.Reload?
    ensures MovesAgain(t, e, r) ==> r.Remat?
    ensures forall s :: Overwrites(t, e, s, r) ==> !r.Cmp0? && !r.Reload? && !r.Remat?
  {
    hide Since, DiesUnread, DiesReadOnce, DiesReadOften, Elsewhere;
  }
}
