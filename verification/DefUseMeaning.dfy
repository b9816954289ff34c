/**
 What a report of tools/defuse.c says about the instructions before it. Each
 result goes both ways: the scan still knows something exactly when some
 instruction of the run established it and none since has ended it.
 */
module DefUseMeaning {
  import opened Options
  import opened Insns
  import opened InsnMeaning
  import opened DefUseRuns

  type Establishes = (Trace, Event) -> bool
  type Keeping = Event -> bool

  /** Some event established it, given the run before, and every later event
      kept it. */
  ghost predicate Since(t: Trace, start: Establishes, keep: Keeping) {
    exists j: nat :: SinceAt(t, start, keep, j)
  }

  ghost predicate SinceAt(t: Trace, start: Establishes, keep: Keeping, j: nat) {
    j < |t| && start(t[..j], t[j]) && forall k | j < k < |t| :: keep(t[k])
  }

  lemma SinceNext(t: Trace, e: Event, start: Establishes, keep: Keeping)
    ensures Since(t + [e], start, keep) <==> start(t, e) || (keep(e) && Since(t, start, keep))
  {
    var u := t + [e];
    assert u[..|t|] == t && u[|t|] == e;
    if start(t, e) {
      assert SinceAt(u, start, keep, |t|);
    }
    if keep(e) && Since(t, start, keep) {
      var j: nat :| SinceAt(t, start, keep, j);
      assert u[..j] == t[..j];
      assert SinceAt(u, start, keep, j);
    }
    if j: nat :| SinceAt(u, start, keep, j) && j < |t| {
      assert u[..j] == t[..j];
      assert forall k | j < k < |t| :: u[k] == t[k];
      assert SinceAt(t, start, keep, j);
    }
  }

  /** E neither begins nor ends a region. */
  predicate Inside(e: Event) {
    Runs(e) && !e.target && !EndsRegion(e.insn)
  }

  lemma DefinersStay(e: Event)
    requires Runs(e)
    ensures AluSlot(e.insn).Some? || StartOf(e.insn).Some? || MovImm(e.insn).Some? || KeyOf(e.insn).Some? ==>
              !EndsRegion(e.insn) && !IsCondBranch(e.insn)
    ensures KeyOf(e.insn).Some? ==> !Clobbers(e.insn.id)
  {}

  // --- Compare with zero ---

  /** D is this flag-capable definition. */
  function SetsFlags(d: Flags): Establishes {
    (t: Trace, e: Event) =>
      Runs(e) && AluSlot(e.insn).Some? && d == Flags(AluSlot(e.insn).value, Idx(t) + 1, e.insn.mnemonic)
  }

  /** No write of the flags or of S, and no later flag-capable definition. */
  function KeepsFlags(s: nat): Keeping {
    (e: Event) => Inside(e) && !WritesFlags(e.insn) && s !in WriteSlots(e.insn) && AluSlot(e.insn).None?
  }

  lemma FlagsGoOn(t: Trace, e: Event)
    ensures FlagsOf(t + [e])
            == if !Runs(e) || EndsRegion(e.insn) then None
               else if AluSlot(e.insn).Some? then Some(Flags(AluSlot(e.insn).value, Idx(t) + 1, e.insn.mnemonic))
               else if e.target || FlagsOf(t).None? || WritesFlags(e.insn)
                       || FlagsOf(t).value.slot in WriteSlots(e.insn)
               then None else FlagsOf(t)
  {
    hide Idx, WriteSlots, AluSlot, WritesFlags, EndsRegion, Traps, FlagsOf, Reports, ReportsAt, Loads, LoadsAfter,
      Consts, ConstsAfter;
    Unfold(t, e);
    if Runs(e) {
      assert FlagsBefore(t, e) == if e.target then None else FlagsOf(t);
    }
  }

  lemma FlagsNext(prev: Trace, e: Event, d: Flags)
    requires FlagsOf(prev) == Some(d) <==> Since(prev, SetsFlags(d), KeepsFlags(d.slot))
    ensures FlagsOf(prev + [e]) == Some(d) <==> Since(prev + [e], SetsFlags(d), KeepsFlags(d.slot))
  {
    hide Since, Idx, WriteSlots, AluSlot, WritesFlags, EndsRegion, Traps, FlagsOf;
    SinceNext(prev, e, SetsFlags(d), KeepsFlags(d.slot));
    FlagsGoOn(prev, e);
    if Runs(e) {
      DefinersStay(e);
    }
  }

  lemma {:induction false} FlagsMeaning(t: Trace, d: Flags)
    ensures FlagsOf(t) == Some(d) <==> Since(t, SetsFlags(d), KeepsFlags(d.slot))
  {
    if t != [] {
      var prev, e := t[..|t| - 1], t[|t| - 1];
      assert t == prev + [e];
      FlagsMeaning(prev, d);
      FlagsNext(prev, e, d);
    }
  }

  /** E compares with zero a slot whose value still comes from a flag-capable
      definition, with no flag writer in between. */
  ghost predicate ComparesAlu(t: Trace, e: Event, r: Report)
    requires Runs(e)
  {
    exists d: Flags ::
      && Since(t, SetsFlags(d), KeepsFlags(d.slot)) && !e.target && ZeroCompared(e.insn) == Some(d.slot)
      && r == Cmp0(d.mnemonic, Idx(t) + 1 - d.idx)
  }

  lemma Cmp0Iff(t: Trace, e: Event, r: Report)
    requires Runs(e)
    ensures Cmp0Report(t, e) == [r] <==> ComparesAlu(t, e, r)
  {
    hide Since, Idx, FlagsOf, ZeroCompared;
    forall d: Flags {
      FlagsMeaning(t, d);
    }
    if Cmp0Report(t, e) == [r] {
      var d := FlagsBefore(t, e).value;
      assert FlagsOf(t) == Some(d);
      assert Since(t, SetsFlags(d), KeepsFlags(d.slot));
    }
  }

  // --- Redundant reloads ---

  /** This instruction loads KEY and leaves its base alone. */
  function LoadsKey(key: Key): Establishes {
    (t: Trace, e: Event) => Runs(e) && KeyOf(e.insn) == Some(key) && key.base !in WriteSlots(e.insn)
  }

  /** So does this one, the I-th, ... */
  function LoadsKeyAt(key: Key, i: nat): Establishes {
    (t: Trace, e: Event) =>
      Runs(e) && KeyOf(e.insn) == Some(key) && key.base !in WriteSlots(e.insn) && Idx(t) + 1 == i
  }

  /** ... and this one, with room in the table. */
  function LoadsKeyWithRoom(key: Key): Establishes {
    (t: Trace, e: Event) =>
      Runs(e) && KeyOf(e.insn) == Some(key) && key.base !in WriteSlots(e.insn) && LoadsBefore(t, e) < MAX_LOADS
  }

  /** No listed store, call or barrier, and no write of the base. */
  function KeepsLoad(key: Key): Keeping {
    (e: Event) => Inside(e) && !Clobbers(e.insn.id) && key.base !in WriteSlots(e.insn)
  }

  function KeepsLatest(key: Key): Keeping {
    (e: Event) =>
      Inside(e) && !Clobbers(e.insn.id) && key.base !in WriteSlots(e.insn) && KeyOf(e.insn) != Some(key)
  }

  lemma LoadNext(prev: Trace, e: Event, key: Key, i: nat)
    requires LoadOf(prev, key).Some? <==> Since(prev, LoadsKeyWithRoom(key), KeepsLoad(key))
    requires LoadOf(prev, key) == Some(i) <==>
            LoadOf(prev, key).Some? && Since(prev, LoadsKeyAt(key, i), KeepsLatest(key))
    ensures LoadOf(prev + [e], key).Some? <==> Since(prev + [e], LoadsKeyWithRoom(key), KeepsLoad(key))
    ensures LoadOf(prev + [e], key) == Some(i) <==>
            LoadOf(prev + [e], key).Some? && Since(prev + [e], LoadsKeyAt(key, i), KeepsLatest(key))
  {
    hide Since, Idx, WriteSlots, KeyOf, EndsRegion, Traps, Clobbers, LoadsBefore;
    SinceNext(prev, e, LoadsKeyWithRoom(key), KeepsLoad(key));
    SinceNext(prev, e, LoadsKeyAt(key, i), KeepsLatest(key));
    UnfoldLoad(prev, e, key);
    if Runs(e) {
      DefinersStay(e);
    }
  }

  lemma {:induction false} LoadMeaning(t: Trace, key: Key, i: nat)
    ensures LoadOf(t, key).Some? <==> Since(t, LoadsKeyWithRoom(key), KeepsLoad(key))
    ensures LoadOf(t, key) == Some(i) <==>
            LoadOf(t, key).Some? && Since(t, LoadsKeyAt(key, i), KeepsLatest(key))
  {
    if t != [] {
      var prev, e := t[..|t| - 1], t[|t| - 1];
      assert t == prev + [e];
      LoadMeaning(prev, key, i);
      LoadNext(prev, e, key, i);
    }
  }

  /** E loads a key that was loaded before, in the same region, into a table
      with room, and since then no listed store, call or barrier ran and the
      base was not written. The distance is to the latest such load. */
  ghost predicate LoadsAgain(t: Trace, e: Event, r: Report)
    requires Runs(e)
  {
    exists key: Key, i: nat ::
      && KeyOf(e.insn) == Some(key) && !e.target
      && Since(t, LoadsKeyWithRoom(key), KeepsLoad(key)) && Since(t, LoadsKeyAt(key, i), KeepsLatest(key))
      && r == Reload(Place(key.base), key.size, Idx(t) + 1 - i)
  }

  lemma ReloadIff(t: Trace, e: Event, r: Report)
    requires Runs(e)
    ensures ReloadReport(t, e) == [r] <==> LoadsAgain(t, e, r)
  {
    hide Since, Idx, LoadOf, KeyOf, Place, Clobbers;
    forall key: Key, i: nat {
      LoadMeaning(t, key, i);
    }
    DefinersStay(e);
    if ReloadReport(t, e) == [r] {
      var key := KeyOf(e.insn).value;
      var i := LoadOf(t, key).value;
      assert Since(t, LoadsKeyWithRoom(key), KeepsLoad(key)) && Since(t, LoadsKeyAt(key, i), KeepsLatest(key));
    }
  }

  /** The plain loads since the table was last emptied, recorded or not. */
  function Pressure(t: Trace): nat {
    if t == [] then 0
    else
      var e := t[|t| - 1];
      if !Runs(e) || EndsRegion(e.insn) then 0
      else
        (if e.target || Clobbers(e.insn.id) then 0 else Pressure(t[..|t| - 1]))
        + if KeyOf(e.insn).Some? then 1 else 0
  }

  lemma {:induction false} LoadsUnderPressure(t: Trace)
    ensures Loads(t) <= Pressure(t)
  {
    if t != [] {
      hide KeyOf, Clobbers, EndsRegion, Traps, Reports, ReportsAt, FlagsAfter, ConstsAfter;
      var prev, e := t[..|t| - 1], t[|t| - 1];
      assert t == prev + [e];
      LoadsUnderPressure(prev);
      Unfold(prev, e);
    }
  }

  lemma {:induction false} RoomUnderPressure(t: Trace, key: Key)
    requires Pressure(t) <= MAX_LOADS
    ensures Since(t, LoadsKey(key), KeepsLoad(key)) <==> Since(t, LoadsKeyWithRoom(key), KeepsLoad(key))
  {
    if t != [] {
      hide Since, WriteSlots, KeyOf, EndsRegion, Traps, Clobbers;
      var prev, e := t[..|t| - 1], t[|t| - 1];
      assert t == prev + [e];
      SinceNext(prev, e, LoadsKey(key), KeepsLoad(key));
      SinceNext(prev, e, LoadsKeyWithRoom(key), KeepsLoad(key));
      LoadsUnderPressure(prev);
      if Inside(e) && !Clobbers(e.insn.id) {
        RoomUnderPressure(prev, key);
      }
      if Runs(e) {
        DefinersStay(e);
      }
    }
  }

  /** With no more than 64 plain loads since the last emptying, the table's
      capacity plays no part. */
  lemma ReloadComplete(t: Trace, e: Event)
    requires Runs(e) && Pressure(t) <= MAX_LOADS
    ensures ReloadReport(t, e) != [] <==>
            KeyOf(e.insn).Some? && !e.target
            && Since(t, LoadsKey(KeyOf(e.insn).value), KeepsLoad(KeyOf(e.insn).value))
  {
    hide Since, KeyOf, Clobbers, LoadOf;
    DefinersStay(e);
    if KeyOf(e.insn).Some? {
      LoadMeaning(t, KeyOf(e.insn).value, 0);
      RoomUnderPressure(t, KeyOf(e.insn).value);
    }
  }

  /** LDR W1, [X0, #DISP]. */
  function PlainLoad(disp: int): Event {
    Decoded(false, Insn(LDR, "ldr", [Register(W(1)), Memory(X(0), None, disp)], false, false, Absent, [X(0)], [W(1)]))
  }

  function LoadRun(n: nat): (t: Trace)
    ensures |t| == n
  {
    if n == 0 then [] else LoadRun(n - 1) + [PlainLoad(n - 1)]
  }

  lemma PlainLoadFacts(disp: int)
    ensures var e := PlainLoad(disp);
            && Inside(e) && KeyOf(e.insn) == Some(Key(0, disp, 4)) && WriteSlots(e.insn) == [1] && !Clobbers(e.insn.id)
  {
    var i := PlainLoad(disp).insn;
    assert i.regsWritten[..0] == [];
    assert Slots(i.regsWritten) == Slots(i.regsWritten[..0]) + [1];
  }

  lemma PlainLoadNext(t: Trace, disp: int, k: int)
    ensures Loads(t + [PlainLoad(disp)])
            == Loads(t) + if LoadOf(t, Key(0, disp, 4)).None? && Loads(t) < MAX_LOADS then 1 else 0
    ensures LoadOf(t + [PlainLoad(disp)], Key(0, k, 4)).Some? <==>
            LoadOf(t, Key(0, k, 4)).Some? || (k == disp && Loads(t) < MAX_LOADS)
  {
    hide KeyOf, WriteSlots, Clobbers, PlainLoad, Idx, LoadOf, Loads, EndsRegion, Traps, Reports, ReportsAt, FlagsAfter,
      ConstsAfter;
    PlainLoadFacts(disp);
    Unfold(t, PlainLoad(disp));
    UnfoldLoad(t, PlainLoad(disp), Key(0, k, 4));
  }

  lemma {:induction false} LoadRunHolds(n: nat, k: int)
    ensures Loads(LoadRun(n)) == (if n < 64 then n else 64)
    ensures LoadOf(LoadRun(n), Key(0, k, 4)).Some? <==> 0 <= k < n && k < 64
  {
    hide LoadOf, Loads, PlainLoad;
    if n == 0 {
      NothingLoaded();
    } else {
      var prev := LoadRun(n - 1);
      LoadRunHolds(n - 1, k);
      LoadRunHolds(n - 1, n - 1);
      PlainLoadNext(prev, n - 1, k);
      assert LoadRun(n) == prev + [PlainLoad(n - 1)];
    }
  }

  /** Past the capacity a reload is missed: 65 loads of different words, then
      the last one again. */
  lemma ReloadMissed()
    ensures var t, e := LoadRun(65), PlainLoad(64);
            var key := Key(0, 64, 4);
            && KeyOf(e.insn) == Some(key) && Since(t, LoadsKey(key), KeepsLoad(key))
            && ReloadReport(t, e) == []
  {
    hide KeyOf, WriteSlots, Clobbers, PlainLoad, Idx, Since;
    var prev, e := LoadRun(MAX_LOADS), PlainLoad(MAX_LOADS);
    PlainLoadFacts(MAX_LOADS);
    LoadRunHolds(MAX_LOADS + 1, MAX_LOADS);
    SinceNext(prev, e, LoadsKey(Key(0, MAX_LOADS, 4)), KeepsLoad(Key(0, MAX_LOADS, 4)));
  }

  /** LDR D0, [X0]. */
  function WideLoad(): Event {
    var ops := [Register(Fp(D, 0)), Memory(X(0), None, 0)];
    Decoded(false, Insn(LDR, "ldr", ops, false, false, Absent, [X(0)], [Fp(D, 0)]))
  }

  lemma WideLoadFacts()
    ensures var e := WideLoad();
            Inside(e) && KeyOf(e.insn) == Some(Key(0, 0, 4)) && WriteSlots(e.insn) == [64] && !Clobbers(e.insn.id)
  {
    var i := WideLoad().insn;
    assert i.regsWritten[..0] == [];
    assert Slots(i.regsWritten) == Slots(i.regsWritten[..0]) + [64];
  }

  lemma FirstLoad(e: Event, key: Key)
    requires Inside(e) && KeyOf(e.insn) == Some(key) && key.base !in WriteSlots(e.insn) && !Clobbers(e.insn.id)
    ensures Idx([e]) == 1 && LoadOf([e], key) == Some(1)
  {
    hide KeyOf, WriteSlots, Clobbers, LoadOf, Loads, EndsRegion, Traps, Idx, Reports, ReportsAt, FlagsAfter,
      ConstsAfter;
    assert [] + [e] == [e];
    NothingLoaded();
    assert LoadBefore([], e, key) == None && LoadsBefore([], e) == 0;
    UnfoldLoad([], e, key);
    Unfold([], e);
  }

  /** So LDR D0, [X0] followed by LDR W1, [X0] is reported as a reload, though
      the two read different bytes. */
  lemma OtherBytesReported()
    ensures LoadBytes(WideLoad().insn) == 8 && LoadBytes(PlainLoad(0).insn) == 4
    ensures ReloadReport([WideLoad()], PlainLoad(0)) == [Reload("heap", 4, 1)]
  {
    hide KeyOf, WriteSlots, Clobbers, LoadOf, Loads, EndsRegion, Traps, Idx;
    PlainLoadFacts(0);
    WideLoadFacts();
    FirstLoad(WideLoad(), Key(0, 0, 4));
  }

  /** E is reported as a reload of what event J, the latest load of its key,
      read. */
  ghost predicate Rereads(t: Trace, e: Event, key: Key, j: nat)
    requires Runs(e)
  {
    && ReloadReport(t, e) != [] && j < |t| && Runs(t[j])
    && SinceAt(t, LoadsKey(key), KeepsLatest(key), j)
  }

  /** LDR of the base and offset E loads from, into another register. */
  function OtherLoad(e: Event, r: Reg): Event
    requires Runs(e) && |e.insn.ops| == 2
  {
    Decoded(false, Insn(LDR, "ldr", [Register(r), e.insn.ops[1]], false, false, Absent, [], [r]))
  }

  /** A register of another width than E's, which is not the base. */
  function SpareReg(e: Event, key: Key): Reg
    requires Runs(e)
  {
    if LoadBytes(e.insn) == 4 then Fp(D, if key.base == 64 then 1 else 0)
    else W(if key.base == 0 then 1 else 0)
  }

  lemma OtherLoadFacts(e: Event, key: Key)
    requires Runs(e) && KeyOf(e.insn) == Some(key) && key.size == 4
    ensures var w := OtherLoad(e, SpareReg(e, key));
            && Inside(w) && KeyOf(w.insn) == Some(key) && key.base !in WriteSlots(w.insn) && !Clobbers(w.insn.id)
            && LoadBytes(w.insn) != LoadBytes(e.insn)
  {
    var r := SpareReg(e, key);
    var i := OtherLoad(e, r).insn;
    assert i.regsWritten[..0] == [];
    assert Slots(i.regsWritten) == Slots(i.regsWritten[..0]) + [RegSlot(r)];
  }

  lemma OtherLoadReread(e: Event, key: Key, w: Event)
    requires Runs(e) && !e.target && KeyOf(e.insn) == Some(key)
    requires Inside(w) && KeyOf(w.insn) == Some(key) && key.base !in WriteSlots(w.insn) && !Clobbers(w.insn.id)
    ensures Rereads([w], e, key, 0)
  {
    hide KeyOf, WriteSlots, Clobbers, LoadOf, Loads, EndsRegion, Traps, Idx;
    DefinersStay(e);
    FirstLoad(w, key);
  }

  lemma SizedAlike(i: Insn, i': Insn, key: Key)
    requires KeyOf(i) == KeyOf(i') == Some(key) && key.size != 4
    ensures LoadBytes(i) == LoadBytes(i') == key.size
  {}

  /** Every report that E re-reads an earlier load's bytes is right about how
      many they are if and only if E is not filed under 4 bytes: only there do
      loads of different widths share a size. */
  lemma SameBytesIff(e: Event, key: Key)
    requires Runs(e) && !e.target && KeyOf(e.insn) == Some(key)
    ensures (forall t: Trace, j: nat | Rereads(t, e, key, j) :: LoadBytes(t[j].insn) == LoadBytes(e.insn))
            <==> key.size != 4
  {
    hide WriteSlots, LoadBytes, ReloadReport, Clobbers, OtherLoad, SpareReg;
    if key.size == 4 {
      var w := OtherLoad(e, SpareReg(e, key));
      hide KeyOf;
      OtherLoadFacts(e, key);
      OtherLoadReread(e, key, w);
      assert Rereads([w], e, key, 0) && [w][0] == w;
    } else {
      forall t: Trace, j: nat | Rereads(t, e, key, j) ensures LoadBytes(t[j].insn) == LoadBytes(e.insn) {
        SizedAlike(t[j].insn, e.insn, key);
      }
    }
  }

  lemma NothingLoaded()
    ensures Loads([]) == Idx([]) == 0 && forall key :: LoadOf([], key) == None
  {}

  // --- Definitions ---

  /** This instruction is the I-th and starts the def. */
  function Starts(start: Start, i: nat): Establishes {
    (t: Trace, e: Event) => Runs(e) && StartOf(e.insn) == Some(start) && Idx(t) + 1 == i
  }

  function KeepsDef(s: nat): Keeping {
    (e: Event) => Inside(e) && s !in WriteSlots(e.insn)
  }

  function KeepsUnread(s: nat): Keeping {
    (e: Event) => Inside(e) && s !in WriteSlots(e.insn) && Reads(e.insn, s) == 0
  }

  /** The def stood unread, and the F-th instruction reads it once. */
  ghost function ReadsOnce(start: Start, i: nat, f: nat, use: Text): Establishes {
    (t: Trace, e: Event) =>
      && Inside(e) && start.slot !in WriteSlots(e.insn) && Reads(e.insn, start.slot) == 1
      && Idx(t) + 1 == f && use == UseClass(e.insn.id) && Since(t, Starts(start, i), KeepsUnread(start.slot))
  }

  /** The def stands, and this is a conditional branch. */
  ghost function BranchesPast(start: Start, i: nat): Establishes {
    (t: Trace, e: Event) =>
      && Inside(e) && start.slot !in WriteSlots(e.insn) && IsCondBranch(e.insn)
      && Since(t, Starts(start, i), KeepsDef(start.slot))
  }

  predicate From(d: Option<Def>, start: Start, i: nat) {
    && d.Some? && d.value.idx == i
    && d.value.kind == start.kind && d.value.detail == start.detail && d.value.pure == start.pure
  }

  /** A def that E starts is START exactly when it agrees in every part. */
  lemma SameStart(e: Event, start: Start)
    requires Runs(e)
    ensures StartOf(e.insn) == Some(start) <==>
            && StartOf(e.insn).Some? && StartOf(e.insn).value.slot == start.slot
            && StartOf(e.insn).value.kind == start.kind && StartOf(e.insn).value.detail == start.detail
            && StartOf(e.insn).value.pure == start.pure
  {
    hide StartOf;
  }

  /** What E makes of the def of S. */
  function Onward(d: Option<Def>, e: Event, i: nat, s: nat): Option<Def>
    requires Runs(e)
  {
    var written :=
      if StartOf(e.insn).Some? && StartOf(e.insn).value.slot == s then Some(NewDef(StartOf(e.insn).value, i))
      else if s in WriteSlots(e.insn) then None
      else Used(if e.target then None else d, Reads(e.insn, s), i, UseClass(e.insn.id));
    if IsCondBranch(e.insn) then Tainted(written) else written
  }

  lemma DefGoesOn(t: Trace, e: Event, s: nat)
    ensures DefOf(t + [e], s)
            == if !Runs(e) || EndsRegion(e.insn) then None else Onward(DefOf(t, s), e, Idx(t) + 1, s)
  {
    hide DefOf, WriteSlots, Reads, UseClass, StartOf, EndsRegion, Traps, IsCondBranch, Idx;
    UnfoldSlot(t, e, s);
    if Runs(e) {
      assert DefWritten(t, e, s)
             == if StartOf(e.insn).Some? && StartOf(e.insn).value.slot == s
                then Some(NewDef(StartOf(e.insn).value, Idx(t) + 1))
                else if s in WriteSlots(e.insn) then None else DefUsed(t, e, s);
    }
  }

  lemma FromOnward(d: Option<Def>, e: Event, now: nat, start: Start, i: nat)
    requires Runs(e) && !EndsRegion(e.insn)
    ensures From(Onward(d, e, now, start.slot), start, i) <==>
            || (StartOf(e.insn) == Some(start) && now == i)
            || (!e.target && start.slot !in WriteSlots(e.insn) && From(d, start, i))
  {
    hide WriteSlots, Reads, UseClass, StartOf, EndsRegion, IsCondBranch;
    DefinersStay(e);
    SameStart(e, start);
  }

  lemma DefNext(prev: Trace, e: Event, start: Start, i: nat)
    requires From(DefOf(prev, start.slot), start, i) <==> Since(prev, Starts(start, i), KeepsDef(start.slot))
    ensures From(DefOf(prev + [e], start.slot), start, i) <==> Since(prev + [e], Starts(start, i), KeepsDef(start.slot))
  {
    hide Since, DefOf, Onward, Idx, WriteSlots, StartOf, EndsRegion, Traps;
    SinceNext(prev, e, Starts(start, i), KeepsDef(start.slot));
    DefGoesOn(prev, e, start.slot);
    if Runs(e) {
      DefinersStay(e);
      if !EndsRegion(e.insn) {
        FromOnward(DefOf(prev, start.slot), e, Idx(prev) + 1, start, i);
      }
    }
  }

  /** A def is followed from the instruction that starts it until its slot is
      written or the region ends. */
  lemma {:induction false} DefMeaning(t: Trace, start: Start, i: nat)
    ensures From(DefOf(t, start.slot), start, i) <==> Since(t, Starts(start, i), KeepsDef(start.slot))
  {
    if t != [] {
      var prev, e := t[..|t| - 1], t[|t| - 1];
      assert t == prev + [e];
      DefMeaning(prev, start, i);
      DefNext(prev, e, start, i);
    }
  }

  predicate Unused(d: Option<Def>, start: Start, i: nat) {
    From(d, start, i) && d.value.uses == 0
  }

  lemma UnusedOnward(d: Option<Def>, e: Event, now: nat, start: Start, i: nat)
    requires Runs(e) && !EndsRegion(e.insn)
    ensures Unused(Onward(d, e, now, start.slot), start, i) <==>
            || (StartOf(e.insn) == Some(start) && now == i)
            || (!e.target && start.slot !in WriteSlots(e.insn) && Reads(e.insn, start.slot) == 0 && Unused(d, start, i))
  {
    hide WriteSlots, Reads, UseClass, StartOf, EndsRegion, IsCondBranch;
    DefinersStay(e);
    SameStart(e, start);
  }

  lemma UnusedNext(prev: Trace, e: Event, start: Start, i: nat)
    requires Unused(DefOf(prev, start.slot), start, i) <==> Since(prev, Starts(start, i), KeepsUnread(start.slot))
    ensures Unused(DefOf(prev + [e], start.slot), start, i) <==>
            Since(prev + [e], Starts(start, i), KeepsUnread(start.slot))
  {
    hide Since, DefOf, Onward, Idx, WriteSlots, Reads, StartOf, EndsRegion, Traps;
    SinceNext(prev, e, Starts(start, i), KeepsUnread(start.slot));
    DefGoesOn(prev, e, start.slot);
    if Runs(e) {
      DefinersStay(e);
      if !EndsRegion(e.insn) {
        UnusedOnward(DefOf(prev, start.slot), e, Idx(prev) + 1, start, i);
      }
    }
  }

  /** Its use count is 0 exactly while nothing has read it. */
  lemma {:induction false} UnusedMeaning(t: Trace, start: Start, i: nat)
    ensures Unused(DefOf(t, start.slot), start, i) <==> Since(t, Starts(start, i), KeepsUnread(start.slot))
  {
    if t != [] {
      var prev, e := t[..|t| - 1], t[|t| - 1];
      assert t == prev + [e];
      UnusedMeaning(prev, start, i);
      UnusedNext(prev, e, start, i);
    }
  }

  predicate Once(d: Option<Def>, start: Start, i: nat, f: nat, use: Text) {
    From(d, start, i) && d.value.uses == 1 && d.value.firstUse == f && d.value.firstClass == use
  }

  lemma OnceOnward(d: Option<Def>, e: Event, now: nat, start: Start, i: nat, f: nat, use: Text)
    requires Runs(e) && !EndsRegion(e.insn)
    ensures Once(Onward(d, e, now, start.slot), start, i, f, use) <==>
            && !e.target && start.slot !in WriteSlots(e.insn)
            && (if Reads(e.insn, start.slot) == 0 then Once(d, start, i, f, use)
                else Reads(e.insn, start.slot) == 1 && Unused(d, start, i) && f == now && use == UseClass(e.insn.id))
  {
    hide WriteSlots, Reads, UseClass, StartOf, EndsRegion, IsCondBranch;
  }

  lemma OnceNext(prev: Trace, e: Event, start: Start, i: nat, f: nat, use: Text)
    requires Once(DefOf(prev, start.slot), start, i, f, use) <==>
            Since(prev, ReadsOnce(start, i, f, use), KeepsUnread(start.slot))
    ensures Once(DefOf(prev + [e], start.slot), start, i, f, use) <==>
            Since(prev + [e], ReadsOnce(start, i, f, use), KeepsUnread(start.slot))
  {
    hide Since, DefOf, Onward, Idx, WriteSlots, Reads, UseClass, EndsRegion, Traps;
    UnusedMeaning(prev, start, i);
    SinceNext(prev, e, ReadsOnce(start, i, f, use), KeepsUnread(start.slot));
    DefGoesOn(prev, e, start.slot);
    if Runs(e) && !EndsRegion(e.insn) {
      OnceOnward(DefOf(prev, start.slot), e, Idx(prev) + 1, start, i, f, use);
    }
  }

  /** It is 1 exactly after one read, whose place and class it holds. */
  lemma {:induction false} OnceMeaning(t: Trace, start: Start, i: nat, f: nat, use: Text)
    ensures Once(DefOf(t, start.slot), start, i, f, use) <==>
            Since(t, ReadsOnce(start, i, f, use), KeepsUnread(start.slot))
  {
    if t != [] {
      var prev, e := t[..|t| - 1], t[|t| - 1];
      assert t == prev + [e];
      OnceMeaning(prev, start, i, f, use);
      OnceNext(prev, e, start, i, f, use);
    }
  }

  predicate Past(d: Option<Def>, start: Start, i: nat) {
    From(d, start, i) && d.value.xbr
  }

  lemma PastOnward(d: Option<Def>, e: Event, now: nat, start: Start, i: nat)
    requires Runs(e) && !EndsRegion(e.insn)
    ensures Past(Onward(d, e, now, start.slot), start, i) <==>
            && !e.target && start.slot !in WriteSlots(e.insn)
            && (Past(d, start, i) || (IsCondBranch(e.insn) && From(d, start, i)))
  {
    hide WriteSlots, Reads, UseClass, StartOf, EndsRegion, IsCondBranch;
    DefinersStay(e);
  }

  lemma TaintNext(prev: Trace, e: Event, start: Start, i: nat)
    requires Past(DefOf(prev, start.slot), start, i) <==> Since(prev, BranchesPast(start, i), KeepsDef(start.slot))
    ensures Past(DefOf(prev + [e], start.slot), start, i) <==>
            Since(prev + [e], BranchesPast(start, i), KeepsDef(start.slot))
  {
    hide Since, DefOf, Onward, Idx, WriteSlots, StartOf, EndsRegion, Traps, IsCondBranch;
    DefMeaning(prev, start, i);
    SinceNext(prev, e, BranchesPast(start, i), KeepsDef(start.slot));
    DefGoesOn(prev, e, start.slot);
    if Runs(e) && !EndsRegion(e.insn) {
      PastOnward(DefOf(prev, start.slot), e, Idx(prev) + 1, start, i);
    }
  }

  /** It is tagged exactly after a conditional branch. */
  lemma {:induction false} TaintMeaning(t: Trace, start: Start, i: nat)
    ensures Past(DefOf(t, start.slot), start, i) <==> Since(t, BranchesPast(start, i), KeepsDef(start.slot))
  {
    if t != [] {
      var prev, e := t[..|t| - 1], t[|t| - 1];
      assert t == prev + [e];
      TaintMeaning(prev, start, i);
      TaintNext(prev, e, start, i);
    }
  }

  /** A write of S reports a dead def exactly when a pure def of S in the same
      region has had no read up to and including the writing instruction. */
  lemma DeadIff(t: Trace, e: Event, s: nat, kind: char, detail: Text, xbr: bool)
    requires Runs(e)
    ensures Final(DefUsed(t, e, s)) == [Dead(kind, detail, xbr)] <==>
            exists i: nat :: DiesUnread(t, e, Start(s, kind, detail, true), i, xbr)
  {
    hide DefUsed, DiesUnread;
    var start := Start(s, kind, detail, true);
    forall i: nat ensures DiesUnread(t, e, start, i, xbr) <==>
                          Unused(DefUsed(t, e, s), start, i) && DefUsed(t, e, s).value.xbr == xbr
    {
      UnreadIs(t, e, start, i, xbr);
    }
    if Final(DefUsed(t, e, s)) == [Dead(kind, detail, xbr)] {
      assert DiesUnread(t, e, start, DefUsed(t, e, s).value.idx, xbr);
    }
  }

  /** The def the I-th instruction starts has met no read, E's included; XBR
      says whether it has met a conditional branch. */
  ghost predicate DiesUnread(t: Trace, e: Event, start: Start, i: nat, xbr: bool)
    requires Runs(e)
  {
    && !e.target && Reads(e.insn, start.slot) == 0 && Since(t, Starts(start, i), KeepsUnread(start.slot))
    && (xbr <==> Since(t, BranchesPast(start, i), KeepsDef(start.slot)))
  }

  /** The def has met one read, by the F-th instruction, which may be E. */
  ghost predicate DiesReadOnce(t: Trace, e: Event, start: Start, i: nat, f: nat, use: Text, xbr: bool)
    requires Runs(e)
  {
    && !e.target
    && (if Reads(e.insn, start.slot) == 0 then Since(t, ReadsOnce(start, i, f, use), KeepsUnread(start.slot))
        else && Reads(e.insn, start.slot) == 1 && Since(t, Starts(start, i), KeepsUnread(start.slot))
             && f == Idx(t) + 1 && use == UseClass(e.insn.id))
    && (xbr <==> Since(t, BranchesPast(start, i), KeepsDef(start.slot)))
  }

  /** A write of S reports a sole use exactly when one instruction, this one
      included, has read the def, once; DIST is how far it is from the def. */
  lemma SoleIff(t: Trace, e: Event, s: nat, kind: char, detail: Text, use: Text, xbr: bool, dist: int)
    requires Runs(e)
    ensures Final(DefUsed(t, e, s)) == [Sole(kind, detail, use, xbr, dist)] <==>
            exists pure: bool, i: nat, f: nat ::
              DiesReadOnce(t, e, Start(s, kind, detail, pure), i, f, use, xbr) && dist == f - i
  {
    hide DefUsed, DiesReadOnce;
    forall pure: bool, i: nat, f: nat
      ensures DiesReadOnce(t, e, Start(s, kind, detail, pure), i, f, use, xbr) <==>
              Once(DefUsed(t, e, s), Start(s, kind, detail, pure), i, f, use) && DefUsed(t, e, s).value.xbr == xbr
    {
      ReadOnceIs(t, e, Start(s, kind, detail, pure), i, f, use, xbr);
    }
    if Final(DefUsed(t, e, s)) == [Sole(kind, detail, use, xbr, dist)] {
      var d := DefUsed(t, e, s).value;
      assert DiesReadOnce(t, e, Start(s, kind, detail, d.pure), d.idx, d.firstUse, use, xbr);
    }
  }

  /** The def has met two reads or more: it stands, and neither of the above. */
  ghost predicate DiesReadOften(t: Trace, e: Event, start: Start, i: nat)
    requires Runs(e)
  {
    && !e.target && Since(t, Starts(start, i), KeepsDef(start.slot))
    && (forall xbr :: !DiesUnread(t, e, start, i, xbr))
    && (forall f: nat, use: Text, xbr :: !DiesReadOnce(t, e, start, i, f, use, xbr))
  }

  lemma UnreadIs(t: Trace, e: Event, start: Start, i: nat, xbr: bool)
    requires Runs(e)
    ensures DiesUnread(t, e, start, i, xbr) <==>
            Unused(DefUsed(t, e, start.slot), start, i) && DefUsed(t, e, start.slot).value.xbr == xbr
  {
    hide Since, DefOf, Count, ReadSlots, Idx, UseClass, Starts, KeepsUnread, BranchesPast, KeepsDef;
    UnusedMeaning(t, start, i);
    TaintMeaning(t, start, i);
  }

  lemma ReadOnceIs(t: Trace, e: Event, start: Start, i: nat, f: nat, use: Text, xbr: bool)
    requires Runs(e)
    ensures DiesReadOnce(t, e, start, i, f, use, xbr) <==>
            Once(DefUsed(t, e, start.slot), start, i, f, use) && DefUsed(t, e, start.slot).value.xbr == xbr
  {
    hide Since, DefOf, Count, ReadSlots, Idx, UseClass, Starts, KeepsUnread, BranchesPast, KeepsDef, ReadsOnce;
    UnusedMeaning(t, start, i);
    OnceMeaning(t, start, i, f, use);
    TaintMeaning(t, start, i);
  }

  lemma ReadOftenIs(t: Trace, e: Event, start: Start, i: nat)
    requires Runs(e)
    ensures DiesReadOften(t, e, start, i) <==>
            From(DefUsed(t, e, start.slot), start, i) && DefUsed(t, e, start.slot).value.uses > 1
  {
    hide Since, DefOf, Reads, Idx, UseClass, Starts, KeepsDef, DiesUnread, DiesReadOnce;
    DefMeaning(t, start, i);
    var u := DefUsed(t, e, start.slot);
    forall xbr ensures DiesUnread(t, e, start, i, xbr) <==> Unused(u, start, i) && u.value.xbr == xbr {
      UnreadIs(t, e, start, i, xbr);
    }
    forall f: nat, use: Text, xbr
      ensures DiesReadOnce(t, e, start, i, f, use, xbr) <==> Once(u, start, i, f, use) && u.value.xbr == xbr
    {
      ReadOnceIs(t, e, start, i, f, use, xbr);
    }
    if From(u, start, i) {
      assert DiesUnread(t, e, start, i, u.value.xbr) <==> u.value.uses == 0;
      assert DiesReadOnce(t, e, start, i, u.value.firstUse, u.value.firstClass, u.value.xbr) <==> u.value.uses == 1;
    }
  }

  /** A write of S reports several uses exactly when the def has met two reads
      or more. */
  lemma MultiIff(t: Trace, e: Event, s: nat, kind: char, detail: Text)
    requires Runs(e)
    ensures Final(DefUsed(t, e, s)) == [Multi(kind, detail)] <==>
            exists pure: bool, i: nat :: DiesReadOften(t, e, Start(s, kind, detail, pure), i)
  {
    hide DefUsed, DiesReadOften;
    forall pure: bool, i: nat
      ensures DiesReadOften(t, e, Start(s, kind, detail, pure), i) <==>
              From(DefUsed(t, e, s), Start(s, kind, detail, pure), i) && DefUsed(t, e, s).value.uses > 1
    {
      ReadOftenIs(t, e, Start(s, kind, detail, pure), i);
    }
    if Final(DefUsed(t, e, s)) == [Multi(kind, detail)] {
      var d := DefUsed(t, e, s).value;
      assert DiesReadOften(t, e, Start(s, kind, detail, d.pure), d.idx);
    }
  }

  /** E is inside the region and has S among neither the registers it writes nor
      those it reads, as an operand of a compare or as listed. */
  ghost predicate LeavesAlone(e: Event, s: nat) {
    Inside(e) && !WritesRegister(e.insn, s) && !ReadsRegister(e.insn, s)
  }

  /** The def that event J starts has been left alone since. */
  ghost predicate StandsUnread(t: Trace, j: nat, start: Start) {
    && j < |t| && Runs(t[j]) && StartOf(t[j].insn) == Some(start)
    && forall k | j < k < |t| :: LeavesAlone(t[k], start.slot)
  }

  lemma LeavesAloneIff(e: Event, s: nat)
    ensures KeepsUnread(s)(e) <==> LeavesAlone(e, s)
  {
    hide WriteSlots, Reads, ReadsRegister, WritesRegister;
    if Inside(e) {
      ReadsIff(e.insn, s);
      WritesIff(e.insn, s);
    }
  }

  lemma StandsUnreadSince(t: Trace, start: Start)
    ensures (exists i: nat :: Since(t, Starts(start, i), KeepsUnread(start.slot)))
            <==> exists j: nat :: StandsUnread(t, j, start)
  {
    hide KeepsUnread, LeavesAlone, Idx, StartOf;
    forall k | 0 <= k < |t| ensures KeepsUnread(start.slot)(t[k]) <==> LeavesAlone(t[k], start.slot) {
      LeavesAloneIff(t[k], start.slot);
    }
    if i: nat :| Since(t, Starts(start, i), KeepsUnread(start.slot)) {
      var j: nat :| SinceAt(t, Starts(start, i), KeepsUnread(start.slot), j);
      assert StandsUnread(t, j, start);
    }
    if j: nat :| StandsUnread(t, j, start) {
      assert SinceAt(t, Starts(start, Idx(t[..j]) + 1), KeepsUnread(start.slot), j);
      assert Since(t, Starts(start, Idx(t[..j]) + 1), KeepsUnread(start.slot));
    }
  }

  /** Dead definitions in terms of operands: a dead def is reported exactly when
      between it and the overwriting instruction, that included, no compare has
      the register as an operand and no other instruction is listed to read it. */
  lemma DeadOnOperands(t: Trace, e: Event, s: nat, kind: char, detail: Text)
    requires Runs(e)
    ensures (exists xbr :: Final(DefUsed(t, e, s)) == [Dead(kind, detail, xbr)])
            <==> && !e.target && !ReadsRegister(e.insn, s)
                 && exists j: nat :: StandsUnread(t, j, Start(s, kind, detail, true))
  {
    hide Since, DefUsed, Final, StandsUnread, ReadsRegister, Reads, Starts, KeepsUnread;
    var start := Start(s, kind, detail, true);
    ReadsIff(e.insn, s);
    StandsUnreadSince(t, start);
    if xbr :| Final(DefUsed(t, e, s)) == [Dead(kind, detail, xbr)] {
      DeadIff(t, e, s, kind, detail, xbr);
      var i: nat :| DiesUnread(t, e, start, i, xbr);
      assert Since(t, Starts(start, i), KeepsUnread(start.slot));
    }
    if i: nat :| Since(t, Starts(start, i), KeepsUnread(start.slot)) && !e.target && Reads(e.insn, s) == 0 {
      var xbr := Since(t, BranchesPast(start, i), KeepsDef(start.slot));
      assert DiesUnread(t, e, start, i, xbr);
      DeadIff(t, e, s, kind, detail, xbr);
      assert Final(DefUsed(t, e, s)) == [Dead(kind, detail, xbr)];
    }
  }

  // --- Constants materialized again ---

  function SetsConst(s: nat, v: int, i: nat): Establishes {
    (t: Trace, e: Event) =>
      Runs(e) && MovImm(e.insn) == Some((s, v)) && ConstsBefore(t, e) < MAX_CONSTS && Idx(t) + 1 == i
  }

  function KeepsConst(s: nat): Keeping {
    (e: Event) => Inside(e) && s !in WriteSlots(e.insn)
  }

  lemma ConstNext(prev: Trace, e: Event, s: nat, v: int, i: nat)
    requires ConstOf(prev, s) == Some(Const(v, i)) <==> Since(prev, SetsConst(s, v, i), KeepsConst(s))
    ensures ConstOf(prev + [e], s) == Some(Const(v, i)) <==> Since(prev + [e], SetsConst(s, v, i), KeepsConst(s))
  {
    hide Since, Idx, WriteSlots, MovImm, EndsRegion, Traps, ConstsBefore;
    SinceNext(prev, e, SetsConst(s, v, i), KeepsConst(s));
    UnfoldSlot(prev, e, s);
    if Runs(e) {
      DefinersStay(e);
    }
  }

  lemma {:induction false} ConstMeaning(t: Trace, s: nat, v: int, i: nat)
    ensures ConstOf(t, s) == Some(Const(v, i)) <==> Since(t, SetsConst(s, v, i), KeepsConst(s))
  {
    if t != [] {
      var prev, e := t[..|t| - 1], t[|t| - 1];
      assert t == prev + [e];
      ConstMeaning(prev, s, v, i);
      ConstNext(prev, e, s, v, i);
    }
  }

  /** The value V, recorded by the I-th instruction, still stands in a slot
      other than D that E does not write. */
  ghost predicate Elsewhere(t: Trace, e: Event, d: nat, v: int, i: nat)
    requires Runs(e)
  {
    exists s: nat :: s != d && s !in WriteSlots(e.insn) && Since(t, SetsConst(s, v, i), KeepsConst(s))
  }

  /** The slots the scan still knows the value of are those where it stands. */
  lemma ElsewhereHeld(t: Trace, e: Event, d: nat, v: int, i: nat)
    requires Runs(e) && !e.target
    ensures Elsewhere(t, e, d, v, i) <==>
            exists s: nat :: s < NSLOT && s != d && ConstLeft(t, e, s) == Some(Const(v, i))
  {
    hide ConstOf, Since, SetsConst, KeepsConst, WriteSlots;
    if s: nat :| s != d && s !in WriteSlots(e.insn) && Since(t, SetsConst(s, v, i), KeepsConst(s)) {
      ConstMeaning(t, s, v, i);
      ConstSlot(t, s);
      assert ConstLeft(t, e, s) == Some(Const(v, i));
    }
    if s: nat :| s < NSLOT && s != d && ConstLeft(t, e, s) == Some(Const(v, i)) {
      ConstMeaning(t, s, v, i);
    }
  }

  /** E materializes a constant whose value still stands in another slot; the
      distance is to the oldest such. */
  ghost predicate MovesAgain(t: Trace, e: Event, r: Report)
    requires Runs(e)
  {
    exists d: nat, v: int, i: nat ::
      && MovImm(e.insn) == Some((d, v)) && !e.target
      && Elsewhere(t, e, d, v, i) && (forall j: nat | Elsewhere(t, e, d, v, j) :: i <= j)
      && r == Remat(Idx(t) + 1 - i)
  }

  lemma RematIff(t: Trace, e: Event, r: Report)
    requires Runs(e)
    ensures RematReport(t, e) == [r] <==> MovesAgain(t, e, r)
  {
    hide ConstLeft, MovImm, Idx, Oldest, Elsewhere;
    if MovImm(e.insn).Some? {
      var (d, v) := MovImm(e.insn).value;
      OldestIs(t, e, d, v, NSLOT);
      if e.target {
        NothingLeft(t, e);
      } else {
        forall i: nat ensures Elsewhere(t, e, d, v, i) <==>
                              exists s: nat :: s < NSLOT && s != d && ConstLeft(t, e, s) == Some(Const(v, i))
        {
          ElsewhereHeld(t, e, d, v, i);
        }
      }
    }
  }

  lemma NothingLeft(t: Trace, e: Event)
    requires Runs(e) && e.target
    ensures forall s: nat :: ConstLeft(t, e, s) == None
  {}

  /** The constants materialized in the region so far, recorded or not. */
  function ConstPressure(t: Trace): nat {
    if t == [] then 0
    else
      var e := t[|t| - 1];
      if !Runs(e) || EndsRegion(e.insn) then 0
      else (if e.target then 0 else ConstPressure(t[..|t| - 1])) + if MovImm(e.insn).Some? then 1 else 0
  }

  lemma {:induction false} ConstsUnderPressure(t: Trace)
    ensures Consts(t) <= ConstPressure(t)
  {
    if t != [] {
      hide MovImm, EndsRegion, Traps, Reports, ReportsAt, FlagsAfter, LoadsAfter;
      var prev, e := t[..|t| - 1], t[|t| - 1];
      assert t == prev + [e];
      ConstsUnderPressure(prev);
      Unfold(prev, e);
    }
  }

  /** The I-th instruction puts V into S, whether or not there is room. */
  function Materializes(s: nat, v: int, i: nat): Establishes {
    (t: Trace, e: Event) => Runs(e) && MovImm(e.insn) == Some((s, v)) && Idx(t) + 1 == i
  }

  lemma ConstRoomNext(prev: Trace, e: Event, s: nat, v: int, i: nat)
    requires ConstPressure(prev + [e]) <= MAX_CONSTS
    requires Inside(e) ==>
               (Since(prev, Materializes(s, v, i), KeepsConst(s)) <==> Since(prev, SetsConst(s, v, i), KeepsConst(s)))
    ensures Since(prev + [e], Materializes(s, v, i), KeepsConst(s))
            <==> Since(prev + [e], SetsConst(s, v, i), KeepsConst(s))
  {
    hide Since, Idx, WriteSlots, MovImm, EndsRegion, Traps;
    SinceNext(prev, e, Materializes(s, v, i), KeepsConst(s));
    SinceNext(prev, e, SetsConst(s, v, i), KeepsConst(s));
    ConstsUnderPressure(prev);
    assert (prev + [e])[..|prev|] == prev;
    if Runs(e) {
      DefinersStay(e);
    }
  }

  lemma {:induction false} ConstRoom(t: Trace, s: nat, v: int, i: nat)
    requires ConstPressure(t) <= MAX_CONSTS
    ensures Since(t, Materializes(s, v, i), KeepsConst(s)) <==> Since(t, SetsConst(s, v, i), KeepsConst(s))
  {
    if t != [] {
      var prev, e := t[..|t| - 1], t[|t| - 1];
      assert t == prev + [e];
      if Inside(e) {
        hide Since;
        ConstRoom(prev, s, v, i);
      }
      ConstRoomNext(prev, e, s, v, i);
    }
  }

  /** V stands in a slot other than D that E does not write, recorded or not. */
  ghost predicate StandsElsewhere(t: Trace, e: Event, d: nat, v: int)
    requires Runs(e)
  {
    exists s: nat, i: nat :: s != d && s !in WriteSlots(e.insn) && Since(t, Materializes(s, v, i), KeepsConst(s))
  }

  /** With no more than 48 constants in the region so far, every one that stands
      elsewhere is reported. */
  lemma RematComplete(t: Trace, e: Event, d: nat, v: int)
    requires Runs(e) && !e.target && MovImm(e.insn) == Some((d, v)) && ConstPressure(t) <= MAX_CONSTS
    ensures RematReport(t, e) != [] <==> StandsElsewhere(t, e, d, v)
  {
    hide Since, SetsConst, Materializes, KeepsConst, WriteSlots, MovImm, ConstLeft, Oldest;
    OldestIs(t, e, d, v, NSLOT);
    if s: nat, i: nat :| s != d && s !in WriteSlots(e.insn) && Since(t, Materializes(s, v, i), KeepsConst(s)) {
      ConstRoom(t, s, v, i);
      ElsewhereHeld(t, e, d, v, i);
    }
    var o := Oldest(t, e, d, v, NSLOT);
    if o.Some? {
      ElsewhereHeld(t, e, d, v, o.value);
      var s: nat :| s != d && s !in WriteSlots(e.insn) && Since(t, SetsConst(s, v, o.value), KeepsConst(s));
      ConstRoom(t, s, v, o.value);
    }
  }

  /** MOV Wn, #V. */
  function PlainMov(n: GprNumber, v: int): Event {
    Decoded(false, Insn(MOV, "mov", [Register(W(n)), Immediate(v)], false, false, Absent, [], [W(n)]))
  }

  function MovRun(n: nat): (t: Trace)
    ensures |t| == n
  {
    if n == 0 then [] else MovRun(n - 1) + [PlainMov(0, n - 1)]
  }

  lemma PlainMovFacts(n: GprNumber, v: int)
    ensures var e := PlainMov(n, v);
            Inside(e) && MovImm(e.insn) == Some((n, v)) && WriteSlots(e.insn) == [n]
  {
    var i := PlainMov(n, v).insn;
    assert i.regsWritten[..0] == [];
    assert Slots(i.regsWritten) == Slots(i.regsWritten[..0]) + [n];
  }

  lemma PlainMovNext(t: Trace, v: int, s: nat)
    ensures var u := t + [PlainMov(0, v)];
            && Consts(u) == Consts(t) + (if Consts(t) < MAX_CONSTS then 1 else 0)
            && (ConstOf(u, s).Some? <==> if s == 0 then Consts(t) < MAX_CONSTS else ConstOf(t, s).Some?)
  {
    hide MovImm, WriteSlots, PlainMov, Idx, EndsRegion, Traps, Reports, ReportsAt, FlagsAfter, LoadsAfter, DefTainted,
      ConstOf, Consts;
    var e := PlainMov(0, v);
    PlainMovFacts(0, v);
    Unfold(t, e);
    UnfoldSlot(t, e, s);
    assert ConstLeft(t, e, s) == if s == 0 then None else ConstOf(t, s);
    assert ConstsBefore(t, e) == Consts(t);
  }

  lemma NothingMoved(s: nat)
    ensures Consts([]) == 0 && ConstOf([], s) == None
  {}

  lemma {:induction false} MovRunHolds(n: nat, s: nat)
    ensures Consts(MovRun(n)) == (if n < 48 then n else 48)
    ensures ConstOf(MovRun(n), s).Some? <==> s == 0 && 1 <= n <= 48
  {
    hide PlainMov, ConstOf, Consts;
    if n == 0 {
      NothingMoved(s);
    } else {
      MovRunHolds(n - 1, s);
      PlainMovNext(MovRun(n - 1), n - 1, s);
      assert MovRun(n) == MovRun(n - 1) + [PlainMov(0, n - 1)];
    }
  }

  /** Past the capacity one is missed: 49 moves into W0, then the last value
      into W1 while W0 still holds it. */
  lemma RematMissed()
    ensures var t, e := MovRun(49), PlainMov(1, 48);
            && MovImm(e.insn) == Some((1, 48)) && Inside(e)
            && StandsElsewhere(t, e, 1, 48) && RematReport(t, e) == []
  {
    hide MovImm, WriteSlots, PlainMov, Idx, Since, ConstOf, Oldest, EndsRegion, Traps;
    var prev, last, e := MovRun(MAX_CONSTS), PlainMov(0, MAX_CONSTS), PlainMov(1, MAX_CONSTS);
    var t := MovRun(MAX_CONSTS + 1);
    PlainMovFacts(0, MAX_CONSTS);
    PlainMovFacts(1, MAX_CONSTS);
    SinceNext(prev, last, Materializes(0, MAX_CONSTS, Idx(prev) + 1), KeepsConst(0));
    assert t == prev + [last];
    OldestIs(t, e, 1, MAX_CONSTS, NSLOT);
    forall s: nat ensures ConstLeft(t, e, s) == None {
      MovRunHolds(MAX_CONSTS + 1, s);
    }
  }
}
