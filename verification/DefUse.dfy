/**
 The block-local scan of tools/defuse.c: fixed tables updated instruction by
 instruction, and the reports it makes on the way.
 */
module DefUse {
  import opened Options
  import opened Widths
  import opened Sequences
  import opened Insns
  import opened DefUseRuns
  import opened BranchTargets

  datatype LoadRec = LoadRec(key: Key, idx: nat)

  datatype ConstRec = ConstRec(slot: nat, value: int, idx: nat)

  /** Record R is live in the table: dead records are None and stay in place. */
  predicate Live<T(==)>(table: seq<Option<T>>, r: T) {
    Some(r) in table
  }

  /** At most one live load per key. */
  predicate UniqueLoads(table: seq<Option<LoadRec>>) {
    forall a, b | 0 <= a < b < |table| && table[a].Some? && table[b].Some? ::
      table[a].value.key != table[b].value.key
  }

  /** Constants stand in the order they were recorded. */
  predicate OrderedConsts(table: seq<Option<ConstRec>>) {
    forall a, b | 0 <= a < b < |table| && table[a].Some? && table[b].Some? ::
      table[a].value.idx <= table[b].value.idx
  }

  class Machine {
    const defs: array<Option<Def>>
    const loads: array<Option<LoadRec>>
    var nloads: nat
    const consts: array<Option<ConstRec>>
    var nconsts: nat
    var flags: Option<Flags>
    var idx: nat
    var out: seq<Report>
    ghost var trace: Trace

    ghost predicate Shape()
      reads this
    {
      && defs.Length == NSLOT && loads.Length == MAX_LOADS && consts.Length == MAX_CONSTS
      && nloads <= MAX_LOADS && nconsts <= MAX_CONSTS
      && (var d: object, l: object, c: object := defs, loads, consts; d != l && d != c && l != c)
    }

    /** The tables are what the run so far calls for. */
    ghost predicate Valid()
      reads this, defs, loads, consts
    {
      && Shape() && idx == Idx(trace) && out == Reports(trace)
      && flags == FlagsOf(trace) && nloads == Loads(trace) && nconsts == Consts(trace)
      && (forall s | 0 <= s < NSLOT :: defs[s] == DefOf(trace, s))
      && (forall k: Key, i: nat :: Live(loads[..nloads], LoadRec(k, i)) <==> LoadOf(trace, k) == Some(i))
      && (forall s: nat, v: int, i: nat :: Live(consts[..nconsts], ConstRec(s, v, i)) <==>
                                           ConstOf(trace, s) == Some(Const(v, i)))
      && UniqueLoads(loads[..nloads]) && OrderedConsts(consts[..nconsts])
      && (forall k | 0 <= k < nconsts && consts[k].Some? :: consts[k].value.idx <= idx)
    }

    constructor ()
      ensures Valid() && fresh(defs) && fresh(loads) && fresh(consts)
      ensures trace == [] && out == []
    {
      defs := new Option<Def>[NSLOT](_ => None);
      loads := new Option<LoadRec>[MAX_LOADS](_ => None);
      consts := new Option<ConstRec>[MAX_CONSTS](_ => None);
      nloads, nconsts, flags, idx, out, trace := 0, 0, None, 0, [], [];
    }

    method RegionReset()
      requires Shape()
      modifies this`nloads, this`nconsts, this`flags, defs
      ensures Shape() && nloads == 0 && nconsts == 0 && flags == None
      ensures forall s | 0 <= s < NSLOT :: defs[s] == None
      ensures forall r :: !Live(loads[..nloads], r)
      ensures forall r :: !Live(consts[..nconsts], r)
      ensures UniqueLoads(loads[..nloads]) && OrderedConsts(consts[..nconsts])
    {
      for s := 0 to NSLOT
        invariant forall r | 0 <= r < s :: defs[r] == None
      {
        defs[s] := None;
      }
      nloads, nconsts, flags := 0, 0, None;
    }

    /** One use of each slot read. */
    method CountUses(slots: seq<nat>, use: Text)
      requires Shape() && forall k | 0 <= k < |slots| :: slots[k] < NSLOT
      modifies defs
      ensures forall s | 0 <= s < NSLOT :: defs[s] == Used(old(defs[s]), Count(slots, s), idx, use)
    {
      hide Used, Count;
      forall s | 0 <= s < NSLOT ensures Used(defs[s], Count(slots[..0], s), idx, use) == defs[s] {
        UsedNone(defs[s], idx, use, s);
        assert slots[..0] == [];
      }
      for j := 0 to |slots|
        invariant forall s | 0 <= s < NSLOT :: defs[s] == Used(old(defs[s]), Count(slots[..j], s), idx, use)
      {
        var s := slots[j];
        ghost var n := j + 1;
        forall r: nat ensures Count(slots[..n], r) == Count(slots[..j], r) + if s == r then 1 else 0 {
          CountNext(slots, j, r);
        }
        UsedOnce(old(defs[s]), Count(slots[..j], s), idx, use);
        if defs[s].Some? {
          var d := defs[s].value;
          d := d.(uses := d.uses + 1);
          if d.uses == 1 {
            d := d.(firstUse := idx, firstClass := use);
          }
          defs[s] := Some(d);
        }
        assert defs[s] == Used(old(defs[s]), Count(slots[..n], s), idx, use);
        assert forall r | 0 <= r < NSLOT && r != s :: Count(slots[..n], r) == Count(slots[..j], r);
      }
      assert slots[..|slots|] == slots;
    }

    method CheckCmp0(insn: Insn)
      modifies this`out
      ensures out == old(out)
                     + if flags.Some? && ZeroCompared(insn) == Some(flags.value.slot)
                       then [Cmp0(flags.value.mnemonic, idx - flags.value.idx)] else []
    {
      if flags.Some? && ZeroCompared(insn) == Some(flags.value.slot) {
        out := out + [Cmp0(flags.value.mnemonic, idx - flags.value.idx)];
      }
    }

    /** A reload report and a re-armed record, or a new record. */
    method RecordLoad(key: Key, ghost was: Option<nat>)
      requires Shape() && UniqueLoads(loads[..nloads])
      requires forall i: nat :: Live(loads[..nloads], LoadRec(key, i)) <==> was == Some(i)
      modifies this`out, this`nloads, loads
      ensures Shape() && UniqueLoads(loads[..nloads])
      ensures out == old(out) + if was.Some? then [Reload(Place(key.base), key.size, idx - was.value)] else []
      ensures nloads == old(nloads) + if was.None? && old(nloads) < MAX_LOADS then 1 else 0
      ensures forall k: Key, i: nat | k != key ::
                Live(loads[..nloads], LoadRec(k, i)) <==> old(Live(loads[..nloads], LoadRec(k, i)))
      ensures forall i: nat :: Live(loads[..nloads], LoadRec(key, i)) <==>
                          i == idx && (was.Some? || old(nloads) < MAX_LOADS)
    {
      ghost var before := loads[..nloads];
      for k := 0 to nloads
        invariant out == old(out) && loads[..nloads] == before
        invariant forall j | 0 <= j < k && loads[j].Some? :: loads[j].value.key != key
      {
        if loads[k].Some? && loads[k].value.key == key {
          assert Live(before, LoadRec(key, loads[k].value.idx)) by {
            assert before[k] == loads[k];
          }
          out := out + [Reload(Place(key.base), key.size, idx - loads[k].value.idx)];
          loads[k] := Some(LoadRec(key, idx));
          assert loads[..nloads] == before[k := Some(LoadRec(key, idx))];
          Rearmed(before, k, idx);
          return;
        }
      }
      NoLoadOf(before, key, was);
      if nloads < MAX_LOADS {
        loads[nloads] := Some(LoadRec(key, idx));
        nloads := nloads + 1;
        assert loads[..nloads] == before + [Some(LoadRec(key, idx))];
      }
    }

    method KillLoads(s: nat)
      requires Shape()
      modifies loads
      ensures forall k | 0 <= k < nloads :: loads[k] == KilledLoad(old(loads[k]), s)
    {
      for k := 0 to nloads
        invariant forall j | 0 <= j < k :: loads[j] == KilledLoad(old(loads[j]), s)
        invariant forall j | k <= j < MAX_LOADS :: loads[j] == old(loads[j])
      {
        if loads[k].Some? && loads[k].value.key.base == s {
          loads[k] := None;
        }
      }
    }

    method KillConsts(s: nat)
      requires Shape()
      modifies consts
      ensures forall k | 0 <= k < nconsts :: consts[k] == KilledConst(old(consts[k]), s)
    {
      for k := 0 to nconsts
        invariant forall j | 0 <= j < k :: consts[j] == KilledConst(old(consts[j]), s)
        invariant forall j | k <= j < MAX_CONSTS :: consts[j] == old(consts[j])
      {
        if consts[k].Some? && consts[k].value.slot == s {
          consts[k] := None;
        }
      }
    }

    /** A write of slot S: its def is finalized, and what hangs on S dies. */
    method ApplyWrite(s: nat)
      requires Shape() && s < NSLOT
      requires UniqueLoads(loads[..nloads]) && OrderedConsts(consts[..nconsts])
      modifies this`out, this`flags, defs, loads, consts
      ensures out == old(out) + Final(old(defs[s]))
      ensures forall r | 0 <= r < NSLOT :: defs[r] == if r == s then None else old(defs[r])
      ensures flags == if old(flags).Some? && old(flags).value.slot == s then None else old(flags)
      ensures UniqueLoads(loads[..nloads]) && OrderedConsts(consts[..nconsts])
      ensures forall k | 0 <= k < nconsts && consts[k].Some? :: consts[k] == old(consts[k])
      ensures forall k: Key, i: nat :: Live(loads[..nloads], LoadRec(k, i)) <==>
                                       k.base != s && old(Live(loads[..nloads], LoadRec(k, i)))
      ensures forall r: nat, v: int, i: nat :: Live(consts[..nconsts], ConstRec(r, v, i)) <==>
                                               r != s && old(Live(consts[..nconsts], ConstRec(r, v, i)))
    {
      hide Final;
      FinalOfNone();
      out := out + Final(defs[s]);
      defs[s] := None;
      ghost var ls, cs := loads[..nloads], consts[..nconsts];
      KillLoads(s);
      KilledLoads(ls, loads[..nloads], s);
      KillConsts(s);
      KilledConsts(cs, consts[..nconsts], s);
      if flags.Some? && flags.value.slot == s {
        flags := None;
      }
    }

    /** All of E's writes. */
    method ApplyWrites(ghost t: Trace, ghost e: Event, slots: seq<nat>)
      requires Shape() && Runs(e) && slots == WriteSlots(e.insn)
      requires UniqueLoads(loads[..nloads]) && OrderedConsts(consts[..nconsts])
      requires forall s | 0 <= s < NSLOT :: defs[s] == DefUsed(t, e, s)
      modifies this`out, this`flags, defs, loads, consts
      ensures out == old(out) + FinalReports(t, e, |slots|)
      ensures forall s | 0 <= s < NSLOT :: defs[s] == if s in slots then None else DefUsed(t, e, s)
      ensures flags == if old(flags).Some? && old(flags).value.slot in slots then None else old(flags)
      ensures UniqueLoads(loads[..nloads]) && OrderedConsts(consts[..nconsts])
      ensures forall k | 0 <= k < nconsts && consts[k].Some? :: consts[k] == old(consts[k])
      ensures forall k: Key, i: nat :: Live(loads[..nloads], LoadRec(k, i)) <==>
                                       k.base !in slots && old(Live(loads[..nloads], LoadRec(k, i)))
      ensures forall r: nat, v: int, i: nat :: Live(consts[..nconsts], ConstRec(r, v, i)) <==>
                                               r !in slots && old(Live(consts[..nconsts], ConstRec(r, v, i)))
    {
      hide Final, DefUsed, WriteSlots, UniqueLoads, OrderedConsts, Live;
      for j := 0 to |slots|
        invariant UniqueLoads(loads[..nloads]) && OrderedConsts(consts[..nconsts])
        invariant out == old(out) + FinalReports(t, e, j)
        invariant forall s | 0 <= s < NSLOT :: defs[s] == if s in slots[..j] then None else DefUsed(t, e, s)
        invariant flags == if old(flags).Some? && old(flags).value.slot in slots[..j] then None else old(flags)
        invariant forall k | 0 <= k < nconsts && consts[k].Some? :: consts[k] == old(consts[k])
        invariant forall k: Key, i: nat :: Live(loads[..nloads], LoadRec(k, i)) <==>
                                           k.base !in slots[..j] && old(Live(loads[..nloads], LoadRec(k, i)))
        invariant forall r: nat, v: int, i: nat :: Live(consts[..nconsts], ConstRec(r, v, i)) <==>
                                                   r !in slots[..j] && old(Live(consts[..nconsts], ConstRec(r, v, i)))
      {
        FinalOfNone();
        assert slots[..j + 1] == slots[..j] + [slots[j]];
        assert FinalReports(t, e, j + 1)
               == FinalReports(t, e, j) + if slots[j] in slots[..j] then [] else Final(DefUsed(t, e, slots[j]));
        ApplyWrite(slots[j]);
      }
      assert slots[..|slots|] == slots;
    }

    /** An immediate MOV: reported when the value already stands in another
        slot, and recorded while there is room. */
    method RecordConst(d: nat, v: int)
      requires Shape() && OrderedConsts(consts[..nconsts])
      requires forall k | 0 <= k < nconsts && consts[k].Some? :: consts[k].value.idx <= idx
      modifies this`out, this`nconsts, consts
      ensures Shape() && OrderedConsts(consts[..nconsts])
      ensures forall k | 0 <= k < nconsts && consts[k].Some? :: consts[k].value.idx <= idx
      ensures nconsts == old(nconsts) + if old(nconsts) < MAX_CONSTS then 1 else 0
      ensures exists found: Option<nat> ::
                && OldestIn(old(consts[..nconsts]), d, v, found)
                && out == old(out) + if found.Some? then [Remat(idx - found.value)] else []
      ensures forall r: nat, w: int, i: nat :: Live(consts[..nconsts], ConstRec(r, w, i)) <==>
                old(Live(consts[..nconsts], ConstRec(r, w, i)))
                || (old(nconsts) < MAX_CONSTS && r == d && w == v && i == idx)
    {
      ghost var before := consts[..nconsts];
      var k := 0;
      while k < nconsts && !IsOther(consts[k], d, v)
        invariant k <= nconsts
        invariant forall j | 0 <= j < k :: !IsOther(before[j], d, v)
      {
        k := k + 1;
      }
      ghost var found: Option<nat> := None;
      if k < nconsts {
        found := Some(before[k].value.idx);
        assert IsOther(before[k], d, v);
        out := out + [Remat(idx - consts[k].value.idx)];
      }
      assert OldestIn(before, d, v, found);
      if nconsts < MAX_CONSTS {
        consts[nconsts] := Some(ConstRec(d, v, idx));
        nconsts := nconsts + 1;
        assert consts[..nconsts] == before + [Some(ConstRec(d, v, idx))];
      }
    }

    /** The def an instruction starts, if the scan follows its kind. */
    method RecordDef(ghost t: Trace, ghost e: Event, insn: Insn)
      requires Shape() && Runs(e) && insn == e.insn && idx == Idx(t) + 1
      requires forall s | 0 <= s < NSLOT :: defs[s] == if s in WriteSlots(insn) then None else DefUsed(t, e, s)
      modifies this`flags, defs
      ensures forall s | 0 <= s < NSLOT :: defs[s] == DefWritten(t, e, s)
      ensures flags == if AluSlot(insn).Some? then Some(Flags(AluSlot(insn).value, idx, insn.mnemonic)) else old(flags)
    {
      hide DefUsed, WriteSlots, StartOf, AluSlot;
      var start := StartOf(insn);
      if start.Some? {
        defs[start.value.slot] := Some(NewDef(start.value, idx));
      }
      var alu := AluSlot(insn);
      if alu.Some? {
        flags := Some(Flags(alu.value, idx, insn.mnemonic));
      }
    }

    method Taint()
      requires Shape()
      modifies defs
      ensures forall s | 0 <= s < NSLOT :: defs[s] == Tainted(old(defs[s]))
    {
      for s := 0 to NSLOT
        invariant forall r | 0 <= r < s :: defs[r] == Tainted(old(defs[r]))
        invariant forall r | s <= r < NSLOT :: defs[r] == old(defs[r])
      {
        if defs[s].Some? {
          defs[s] := Some(defs[s].value.(xbr := true));
        }
      }
    }

    /** The tables as E finds them after any reset at its entry. */
    ghost predicate Entered(t: Trace, e: Event)
      requires Runs(e)
      reads this, defs, loads, consts
    {
      && Shape() && idx == Idx(t) + 1 && out == Reports(t)
      && flags == FlagsBefore(t, e)
      && nloads == (if e.target then 0 else Loads(t)) && nconsts == ConstsBefore(t, e)
      && (forall s | 0 <= s < NSLOT :: defs[s] == if e.target then None else DefOf(t, s))
      && (forall k: Key, i: nat :: Live(loads[..nloads], LoadRec(k, i)) <==> !e.target && LoadOf(t, k) == Some(i))
      && (forall s: nat, v: int, i: nat :: Live(consts[..nconsts], ConstRec(s, v, i)) <==>
                                           !e.target && ConstOf(t, s) == Some(Const(v, i)))
      && UniqueLoads(loads[..nloads]) && OrderedConsts(consts[..nconsts])
      && (forall k | 0 <= k < nconsts && consts[k].Some? :: consts[k].value.idx <= idx)
    }

    /** The tables after the load phase. */
    ghost predicate LoadsDone(t: Trace, e: Event)
      requires Runs(e)
      reads this, loads
    {
      && Shape() && nloads == LoadsAfter(t, e) && UniqueLoads(loads[..nloads])
      && (forall k: Key, i: nat :: Live(loads[..nloads], LoadRec(k, i)) <==> LoadArmed(t, e, k) == Some(i))
    }

    /** Invalidation by a store, call or barrier, then the instruction's own load. */
    method LoadPhase(ghost t: Trace, ghost e: Event, insn: Insn)
      requires Runs(e) && insn == e.insn && Shape() && idx == Idx(t) + 1
      requires nloads == (if e.target then 0 else Loads(t)) && UniqueLoads(loads[..nloads])
      requires forall k: Key, i: nat :: Live(loads[..nloads], LoadRec(k, i)) <==> !e.target && LoadOf(t, k) == Some(i)
      modifies this`out, this`nloads, loads
      ensures LoadsDone(t, e) && out == old(out) + ReloadReport(t, e)
    {
      hide Loads, LoadOf, KeyOf, Clobbers, LoadBefore, LoadsBefore, LoadArmed, LoadsAfter, UniqueLoads, Live;
      BeforeLoad(t, e);
      if Clobbers(insn.id) {
        nloads := 0;
        assert UniqueLoads(loads[..nloads]) && forall r :: !Live(loads[..nloads], r) by {
          NothingLive(loads[..nloads]);
        }
      }
      AfterLoad(t, e);
      var key := KeyOf(insn);
      if key.Some? {
        RecordLoad(key.value, LoadBefore(t, e, key.value));
      }
      assert out == old(out) + ReloadReport(t, e);
    }

    /** The constant an instruction materializes, if any. */
    method ConstPhase(ghost t: Trace, ghost e: Event, insn: Insn)
      requires Runs(e) && insn == e.insn && Shape() && idx == Idx(t) + 1
      requires nconsts == ConstsBefore(t, e) && OrderedConsts(consts[..nconsts])
      requires forall k | 0 <= k < nconsts && consts[k].Some? :: consts[k].value.idx <= idx
      requires forall s: nat, v: int, i: nat ::
                 Live(consts[..nconsts], ConstRec(s, v, i)) <==> ConstLeft(t, e, s) == Some(Const(v, i))
      modifies this`out, this`nconsts, consts
      ensures Shape() && OrderedConsts(consts[..nconsts]) && out == old(out) + RematReport(t, e)
      ensures forall k | 0 <= k < nconsts && consts[k].Some? :: consts[k].value.idx <= idx
      ensures nconsts == ConstsAfter(t, e)
      ensures forall s: nat, v: int, i: nat ::
                Live(consts[..nconsts], ConstRec(s, v, i)) <==> ConstAfter(t, e, s) == Some(Const(v, i))
    {
      hide ConstLeft, ConstsBefore, MovImm;
      var mov := MovImm(insn);
      if mov.Some? {
        var (d, v) := mov.value;
        ghost var before := consts[..nconsts];
        RecordConst(d, v);
        OldestFound(t, e, d, v, before);
        ConstLeftWritten(t, e, d);
      }
      assert out == old(out) + RematReport(t, e);
    }

    /** The tables after E's writes, before what it defines. */
    ghost predicate Written(t: Trace, e: Event)
      requires Runs(e)
      reads this, defs, loads, consts
    {
      && Shape() && idx == Idx(t) + 1
      && flags == FlagsLeft(t, e) && nloads == LoadsAfter(t, e) && nconsts == ConstsBefore(t, e)
      && (forall s | 0 <= s < NSLOT :: defs[s] == if s in WriteSlots(e.insn) then None else DefUsed(t, e, s))
      && (forall k: Key, i: nat :: Live(loads[..nloads], LoadRec(k, i)) <==>
                                   k.base !in WriteSlots(e.insn) && LoadArmed(t, e, k) == Some(i))
      && (forall s: nat, v: int, i: nat :: Live(consts[..nconsts], ConstRec(s, v, i)) <==>
                                           ConstLeft(t, e, s) == Some(Const(v, i)))
      && UniqueLoads(loads[..nloads]) && OrderedConsts(consts[..nconsts])
      && (forall k | 0 <= k < nconsts && consts[k].Some? :: consts[k].value.idx <= idx)
    }

    /** Uses, the compare with zero, loads and writes of one instruction. */
    method ReadAndWrite(ghost t: Trace, ghost e: Event, insn: Insn)
      requires Runs(e) && insn == e.insn && Entered(t, e)
      modifies this`out, this`flags, this`nloads, defs, loads, consts
      ensures Written(t, e)
      ensures out == Reports(t) + (Cmp0Report(t, e) + ReloadReport(t, e) + FinalReports(t, e, |WriteSlots(insn)|))
    {
      hide DefOf, LoadOf, ConstOf, Loads, Consts, FlagsOf, UniqueLoads, OrderedConsts, Live, WritesFlags, WriteSlots,
        ReadSlots, KeyOf, Clobbers, Used, Count, Idx, Reports, LoadArmed, LoadsAfter, FinalReports, ReloadReport,
        ZeroCompared, UseClass, ConstsBefore;
      CountUses(ReadSlots(insn), UseClass(insn.id));
      CheckCmp0(insn);
      assert out == Reports(t) + Cmp0Report(t, e);
      if WritesFlags(insn) {
        flags := None;
      }
      LoadPhase(t, e, insn);
      ApplyWrites(t, e, WriteSlots(insn));
    }

    /** One instruction, after any reset at its entry. */
    method Execute(ghost t: Trace, ghost e: Event, insn: Insn)
      requires Runs(e) && insn == e.insn && Entered(t, e)
      modifies this`out, this`flags, this`nloads, this`nconsts, defs, loads, consts
      ensures Executed(t, e) && out == Reports(t) + ReportsAt(t, e)
    {
      hide DefOf, LoadOf, ConstOf, Loads, Consts, FlagsOf, UniqueLoads, OrderedConsts, Live, WriteSlots, DefUsed,
        StartOf, MovImm, AluSlot, EndsRegion, Idx, Reports, LoadArmed, LoadsAfter, Entered, FlagsLeft,
        FinalReports, RematReport, ReloadReport, IsCondBranch, ConstAfter, ConstsAfter, ConstsBefore, ConstLeft,
        Cmp0Report;
      ReadAndWrite(t, e, insn);
      RecordDef(t, e, insn);
      ConstPhase(t, e, insn);
      assert out == Reports(t) + ReportsAt(t, e);
      if IsCondBranch(insn) {
        Taint();
      }
      if EndsRegion(insn) {
        RegionReset();
      }
    }

    /** The tables after E, before the run is extended by it. */
    ghost predicate Executed(t: Trace, e: Event)
      requires Runs(e)
      reads this, defs, loads, consts
    {
      var ended := EndsRegion(e.insn);
      && Shape() && idx == Idx(t) + 1
      && flags == (if ended then None else FlagsAfter(t, e))
      && nloads == (if ended then 0 else LoadsAfter(t, e))
      && nconsts == (if ended then 0 else ConstsAfter(t, e))
      && (forall s | 0 <= s < NSLOT :: defs[s] == if ended then None else DefTainted(t, e, s))
      && (forall k: Key, i: nat :: Live(loads[..nloads], LoadRec(k, i)) <==>
            !ended && k.base !in WriteSlots(e.insn) && LoadArmed(t, e, k) == Some(i))
      && (forall s: nat, v: int, i: nat :: Live(consts[..nconsts], ConstRec(s, v, i)) <==>
            !ended && ConstAfter(t, e, s) == Some(Const(v, i)))
      && UniqueLoads(loads[..nloads]) && OrderedConsts(consts[..nconsts])
      && (forall k | 0 <= k < nconsts && consts[k].Some? :: consts[k].value.idx <= idx)
    }

    /** The region ends before E, if a branch lands there. */
    method Enter(ghost t: Trace, e: Event)
      requires Valid() && t == trace && e.Decoded?
      modifies this`idx, this`nloads, this`nconsts, this`flags, defs
      ensures Shape() && idx == Idx(t) + 1 && out == Reports(t)
      ensures Runs(e) ==> Entered(t, e)
    {
      hide DefOf, LoadOf, ConstOf, Loads, Consts, FlagsOf, UniqueLoads, OrderedConsts, Live, Idx, Reports, Traps;
      idx := idx + 1;
      if e.target {
        RegionReset();
      }
    }

    /** The next word of the section. */
    method Step(e: Event)
      requires Valid()
      modifies this, defs, loads, consts
      ensures Valid() && trace == old(trace) + [e]
    {
      hide DefOf, LoadOf, ConstOf, Loads, Consts, FlagsOf, UniqueLoads, OrderedConsts, Live, Idx, Reports, Traps,
        EndsRegion, WriteSlots, FlagsAfter, LoadsAfter, ConstsAfter, DefTainted, ConstAfter, LoadArmed, Entered;
      ghost var t := trace;
      UnfoldAll(t, e);
      Finished(Reports(t));
      if e.Decoded? {
        Enter(t, e);
        if !Traps(e.insn) {
          Execute(t, e, e.insn);
          trace := t + [e];
          return;
        }
      }
      RegionReset();
      trace := t + [e];
    }
  }

  lemma UsedNone(d: Option<Def>, i: nat, use: Text, s: nat)
    ensures Used(d, Count([], s), i, use) == d
  {}

  lemma CountNext(slots: seq<nat>, j: nat, s: nat)
    requires j < |slots|
    ensures Count(slots[..j + 1], s) == Count(slots[..j], s) + if slots[j] == s then 1 else 0
  {
    assert slots[..j + 1][..j] == slots[..j];
  }

  lemma UsedOnce(d: Option<Def>, n: nat, i: nat, use: Text)
    ensures Used(d, n + 1, i, use)
            == match Used(d, n, i, use)
               case None => None
               case Some(u) =>
                 Some(if u.uses == 0 then u.(uses := 1, firstUse := i, firstClass := use) else u.(uses := u.uses + 1))
  {}

  lemma FinalOfNone()
    ensures Final(None) == []
  {}

  function KilledLoad(r: Option<LoadRec>, s: nat): Option<LoadRec> {
    if r.Some? && r.value.key.base == s then None else r
  }

  function KilledConst(r: Option<ConstRec>, s: nat): Option<ConstRec> {
    if r.Some? && r.value.slot == s then None else r
  }

  lemma KilledLoads(before: seq<Option<LoadRec>>, after: seq<Option<LoadRec>>, s: nat)
    requires |before| == |after| && UniqueLoads(before)
    requires forall k | 0 <= k < |before| :: after[k] == KilledLoad(before[k], s)
    ensures UniqueLoads(after)
    ensures forall k: Key, i: nat :: Live(after, LoadRec(k, i)) <==> k.base != s && Live(before, LoadRec(k, i))
  {
    forall k: Key, i: nat ensures Live(after, LoadRec(k, i)) <==> k.base != s && Live(before, LoadRec(k, i)) {
      KilledLive(before, after, j => KilledLoad(j, s), Some(LoadRec(k, i)));
    }
  }

  lemma KilledConsts(before: seq<Option<ConstRec>>, after: seq<Option<ConstRec>>, s: nat)
    requires |before| == |after| && OrderedConsts(before)
    requires forall k | 0 <= k < |before| :: after[k] == KilledConst(before[k], s)
    ensures OrderedConsts(after)
    ensures forall r: nat, v: int, i: nat ::
              Live(after, ConstRec(r, v, i)) <==> r != s && Live(before, ConstRec(r, v, i))
  {
    forall r: nat, v: int, i: nat
      ensures Live(after, ConstRec(r, v, i)) <==> r != s && Live(before, ConstRec(r, v, i))
    {
      KilledLive(before, after, j => KilledConst(j, s), Some(ConstRec(r, v, i)));
    }
  }

  /** Records survive a kill in place or not at all. */
  lemma KilledLive<T>(before: seq<Option<T>>, after: seq<Option<T>>, kill: Option<T> -> Option<T>, r: Option<T>)
    requires |before| == |after| && r.Some?
    requires forall k | 0 <= k < |before| :: after[k] == kill(before[k]) && (after[k] == before[k] || after[k] == None)
    ensures r in after <==> kill(r) == r && r in before
  {
    if r in after {
      var k :| 0 <= k < |after| && after[k] == r;
      assert before[k] == r;
    }
    if kill(r) == r && r in before {
      var k :| 0 <= k < |before| && before[k] == r;
      assert after[k] == r;
    }
  }

  /** The record holds V in a slot other than D. */
  predicate IsOther(r: Option<ConstRec>, d: nat, v: int) {
    r.Some? && r.value.value == v && r.value.slot != d
  }

  /** FOUND is the index of the oldest record of V in a slot other than D. */
  ghost predicate OldestIn(table: seq<Option<ConstRec>>, d: nat, v: int, found: Option<nat>) {
    match found
    case None => forall k | 0 <= k < |table| :: !IsOther(table[k], d, v)
    case Some(i) =>
      && (exists k | 0 <= k < |table| :: IsOther(table[k], d, v) && table[k].value.idx == i)
      && (forall k | 0 <= k < |table| && IsOther(table[k], d, v) :: i <= table[k].value.idx)
  }

  lemma ConstLeftSlot(t: Trace, e: Event, s: nat)
    requires Runs(e)
    ensures ConstLeft(t, e, s).Some? ==> s < NSLOT
  {
    ConstSlot(t, s);
  }

  lemma ConstLeftWritten(t: Trace, e: Event, s: nat)
    requires Runs(e) && s in WriteSlots(e.insn)
    ensures ConstLeft(t, e, s) == None
  {}

  lemma OldestFound(t: Trace, e: Event, d: nat, v: int, table: seq<Option<ConstRec>>)
    requires Runs(e)
    requires forall s: nat, w: int, i: nat ::
               Live(table, ConstRec(s, w, i)) <==> ConstLeft(t, e, s) == Some(Const(w, i))
    ensures forall found :: OldestIn(table, d, v, found) ==> found == Oldest(t, e, d, v, NSLOT)
  {
    hide ConstLeft, Oldest;
    OldestIs(t, e, d, v, NSLOT);
    var o := Oldest(t, e, d, v, NSLOT);
    forall found | OldestIn(table, d, v, found) ensures found == o {
      if o.Some? {
        var s: nat :| s < NSLOT && s != d && ConstLeft(t, e, s) == Some(Const(v, o.value));
        assert Live(table, ConstRec(s, v, o.value));
        var k :| 0 <= k < |table| && table[k] == Some(ConstRec(s, v, o.value));
        assert IsOther(table[k], d, v);
      }
      if found.Some? {
        var k :| 0 <= k < |table| && IsOther(table[k], d, v) && table[k].value.idx == found.value;
        var s := table[k].value.slot;
        assert Live(table, ConstRec(s, v, found.value));
        ConstLeftSlot(t, e, s);
      }
    }
  }

  lemma UnfoldAll(t: Trace, e: Event)
    ensures Idx(t + [e]) == Idx(t) + if e.Decoded? then 1 else 0
    ensures Reports(t + [e]) == Reports(t) + ReportsAt(t, e)
    ensures !Runs(e) || EndsRegion(e.insn) ==>
              && FlagsOf(t + [e]) == None && Loads(t + [e]) == Consts(t + [e]) == 0
              && (forall s: nat :: DefOf(t + [e], s) == None && ConstOf(t + [e], s) == None)
              && (forall k: Key :: LoadOf(t + [e], k) == None)
    ensures Runs(e) && !EndsRegion(e.insn) ==>
              && FlagsOf(t + [e]) == FlagsAfter(t, e)
              && Loads(t + [e]) == LoadsAfter(t, e) && Consts(t + [e]) == ConstsAfter(t, e)
              && (forall s: nat :: DefOf(t + [e], s) == DefTainted(t, e, s))
              && (forall s: nat :: ConstOf(t + [e], s) == ConstAfter(t, e, s))
              && (forall k: Key :: LoadOf(t + [e], k)
                                   == if k.base in WriteSlots(e.insn) then None else LoadArmed(t, e, k))
  {
    hide DefOf, DefTainted, ConstOf, ConstAfter, LoadOf, LoadArmed, WriteSlots, FlagsOf, FlagsAfter, Loads, LoadsAfter,
      Consts, ConstsAfter, ReportsAt, Idx, Reports, Traps, EndsRegion;
    Unfold(t, e);
    forall s: nat { UnfoldSlot(t, e, s); }
    forall k: Key { UnfoldLoad(t, e, k); }
  }

  lemma NothingLive(table: seq<Option<LoadRec>>)
    requires table == []
    ensures UniqueLoads(table) && forall r :: !Live(table, r)
  {}

  lemma BeforeLoad(t: Trace, e: Event)
    requires Runs(e)
    ensures LoadsBefore(t, e) == if e.target || Clobbers(e.insn.id) then 0 else Loads(t)
    ensures forall k: Key :: LoadBefore(t, e, k) == if e.target || Clobbers(e.insn.id) then None else LoadOf(t, k)
  {
    hide Clobbers;
  }

  lemma AfterLoad(t: Trace, e: Event)
    requires Runs(e)
    ensures forall k: Key :: LoadArmed(t, e, k)
                             == if KeyOf(e.insn) != Some(k) then LoadBefore(t, e, k)
                                else if LoadBefore(t, e, k).Some? || LoadsBefore(t, e) < MAX_LOADS then Some(Idx(t) + 1)
                                else None
    ensures LoadsAfter(t, e)
            == LoadsBefore(t, e) + if KeyOf(e.insn).Some? && LoadBefore(t, e, KeyOf(e.insn).value).None?
                                      && LoadsBefore(t, e) < MAX_LOADS then 1 else 0
  {
    hide KeyOf, LoadBefore, LoadsBefore;
  }

  lemma NoLoadOf(table: seq<Option<LoadRec>>, key: Key, was: Option<nat>)
    requires forall j | 0 <= j < |table| && table[j].Some? :: table[j].value.key != key
    requires forall i: nat :: Live(table, LoadRec(key, i)) <==> was == Some(i)
    ensures was.None?
  {
    var i := if was.Some? then was.value else 0;
    assert Some(LoadRec(key, i)) !in table;
    assert !Live(table, LoadRec(key, i));
  }

  lemma Rearmed(before: seq<Option<LoadRec>>, k: nat, idx: nat)
    requires k < |before| && before[k].Some? && UniqueLoads(before)
    ensures var key := before[k].value.key;
            var after := before[k := Some(LoadRec(key, idx))];
            && UniqueLoads(after)
            && (forall i: nat :: Live(after, LoadRec(key, i)) <==> i == idx)
            && (forall other: Key, i: nat | other != key ::
                  Live(after, LoadRec(other, i)) <==> Live(before, LoadRec(other, i)))
  {
    var key := before[k].value.key;
    var after := before[k := Some(LoadRec(key, idx))];
    assert after[k] == Some(LoadRec(key, idx));
    forall i: nat ensures Live(after, LoadRec(key, i)) <==> i == idx {
      if Live(after, LoadRec(key, i)) {
        var j :| 0 <= j < |after| && after[j] == Some(LoadRec(key, i));
        assert j == k;
      }
    }
    forall other: Key, i: nat | other != key
      ensures Live(after, LoadRec(other, i)) <==> Live(before, LoadRec(other, i))
    {
      if Live(before, LoadRec(other, i)) {
        var j :| 0 <= j < |before| && before[j] == Some(LoadRec(other, i));
        assert after[j] == before[j];
      }
    }
  }

  /** Word I of the section, as the scan meets it. */
  ghost function EventAt(code: seq<Byte>, decode: nat -> Option<Insn>, i: nat): Event {
    match decode(i)
    case None => Bad
    case Some(insn) => Decoded(IsLanding(code, 4 * i), insn)
  }

  /** A whole section: DECODE is what the disassembler makes of each word. */
  method ScanSection(code: seq<Byte>, decode: nat -> Option<Insn>) returns (m: Machine)
    ensures fresh(m) && m.Valid() && |m.trace| == |code| / 4
    ensures forall i | 0 <= i < |code| / 4 :: m.trace[i] == EventAt(code, decode, i)
    ensures m.out == Reports(m.trace)
  {
    hide Machine.Valid, IsLanding, Reports, Marked;
    var bits := MarkDefuseTargets(code);
    m := new Machine();
    for i := 0 to |code| / 4
      invariant fresh(m) && fresh(m.defs) && fresh(m.loads) && fresh(m.consts)
      invariant m.Valid() && |m.trace| == i
      invariant forall j | 0 <= j < i :: m.trace[j] == EventAt(code, decode, j)
      invariant Marked(bits[..], code, |code| / 4)
    {
      var insn := decode(i);
      TargetIffLanding(bits, code, 4 * i);
      m.Step(if insn.None? then Bad else Decoded(IsTarget(bits, 4 * i), insn.value));
    }
    Reported(m);
  }

  lemma Reported(m: Machine)
    requires m.Valid()
    ensures m.out == Reports(m.trace)
  {}
}
