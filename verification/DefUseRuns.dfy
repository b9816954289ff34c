/**
 What tools/defuse.c reports, as a function of the events of a section: for
 every register slot, load key and constant, what the scan still knows after a
 run, and what it reports at the next event.
 */
module DefUseRuns {
  import opened Options
  import opened Insns

  /** One word of the section: undecodable, or an instruction, and whether a
      branch of the section lands on it. */
  datatype Event = Bad | Decoded(target: bool, insn: Insn)

  type Trace = seq<Event>

  datatype Flags = Flags(slot: nat, idx: nat, mnemonic: Text)

  datatype Def = Def(
    idx: nat,
    uses: nat,
    firstUse: nat,
    firstClass: Text,
    xbr: bool,
    kind: char,
    detail: Text,
    pure: bool)

  datatype Const = Const(value: int, idx: nat)

  datatype Report =
    | Cmp0(mnemonic: Text, dist: int)
    | Reload(place: Text, size: nat, dist: int)
    | Dead(kind: char, detail: Text, xbr: bool)
    | Sole(kind: char, detail: Text, use: Text, xbr: bool, dist: int)
    | Multi(kind: char, detail: Text)
    | Remat(dist: int)

  const MAX_LOADS: nat := 64
  const MAX_CONSTS: nat := 48

  /** The instructions counted so far. */
  function Idx(t: Trace): nat {
    if t == [] then 0 else Idx(t[..|t| - 1]) + if t[|t| - 1].Decoded? then 1 else 0
  }

  /** The event reaches the tables. */
  predicate Runs(e: Event) {
    e.Decoded? && !Traps(e.insn)
  }

  // --- Flags: the last flag-capable definition, while nothing disturbs it ---

  function FlagsOf(t: Trace): Option<Flags>
    decreases |t|, 0
  {
    if t == [] then None
    else
      var e := t[|t| - 1];
      if !Runs(e) || EndsRegion(e.insn) then None else FlagsAfter(t[..|t| - 1], e)
  }

  function FlagsBefore(t: Trace, e: Event): Option<Flags>
    requires Runs(e)
    decreases |t|, 1
  {
    if e.target then None else FlagsOf(t)
  }

  /** What is left of it after E's own flags and writes. */
  function FlagsLeft(t: Trace, e: Event): Option<Flags>
    requires Runs(e)
    decreases |t|, 2
  {
    var f := FlagsBefore(t, e);
    if f.None? || WritesFlags(e.insn) || f.value.slot in WriteSlots(e.insn) then None else f
  }

  function FlagsAfter(t: Trace, e: Event): Option<Flags>
    requires Runs(e)
    decreases |t|, 3
  {
    if AluSlot(e.insn).Some? then Some(Flags(AluSlot(e.insn).value, Idx(t) + 1, e.insn.mnemonic))
    else FlagsLeft(t, e)
  }

  // --- Loads: the last load of each key, while its value stays in memory ---

  function LoadOf(t: Trace, key: Key): Option<nat>
    decreases |t|, 0
  {
    if t == [] then None
    else
      var e := t[|t| - 1];
      if !Runs(e) || EndsRegion(e.insn) || key.base in WriteSlots(e.insn) then None
      else LoadArmed(t[..|t| - 1], e, key)
  }

  /** What is known of the key when E looks for it. */
  function LoadBefore(t: Trace, e: Event, key: Key): Option<nat>
    requires Runs(e)
    decreases |t|, 1
  {
    if e.target || Clobbers(e.insn.id) then None else LoadOf(t, key)
  }

  /** What is known once E has recorded its own load, if the table has room. */
  function LoadArmed(t: Trace, e: Event, key: Key): Option<nat>
    requires Runs(e)
    decreases |t|, 2
  {
    var before := LoadBefore(t, e, key);
    if KeyOf(e.insn) != Some(key) then before
    else if before.Some? || LoadsBefore(t, e) < MAX_LOADS then Some(Idx(t) + 1)
    else None
  }

  /** Table entries used since the table was last emptied. */
  function Loads(t: Trace): (n: nat)
    ensures n <= MAX_LOADS
    decreases |t|, 0
  {
    if t == [] then 0
    else
      var e := t[|t| - 1];
      if !Runs(e) || EndsRegion(e.insn) then 0 else LoadsAfter(t[..|t| - 1], e)
  }

  function LoadsBefore(t: Trace, e: Event): (n: nat)
    requires Runs(e)
    ensures n <= MAX_LOADS
    decreases |t|, 1
  {
    if e.target || Clobbers(e.insn.id) then 0 else Loads(t)
  }

  function LoadsAfter(t: Trace, e: Event): (n: nat)
    requires Runs(e)
    ensures n <= MAX_LOADS
    decreases |t|, 2
  {
    var n := LoadsBefore(t, e);
    if KeyOf(e.insn).Some? && LoadBefore(t, e, KeyOf(e.insn).value).None? && n < MAX_LOADS then n + 1 else n
  }

  // --- Definitions: the def each slot still holds, and its uses so far ---

  function DefOf(t: Trace, s: nat): Option<Def>
    decreases |t|, 0
  {
    if t == [] then None
    else
      var e := t[|t| - 1];
      if !Runs(e) || EndsRegion(e.insn) then None else DefTainted(t[..|t| - 1], e, s)
  }

  /** D after N reads by instruction I. */
  function Used(d: Option<Def>, n: nat, i: nat, use: Text): Option<Def> {
    if d.None? || n == 0 then d
    else if d.value.uses == 0 then Some(d.value.(uses := n, firstUse := i, firstClass := use))
    else Some(d.value.(uses := d.value.uses + n))
  }

  function DefUsed(t: Trace, e: Event, s: nat): Option<Def>
    requires Runs(e)
    decreases |t|, 1
  {
    Used(if e.target then None else DefOf(t, s), Reads(e.insn, s), Idx(t) + 1, UseClass(e.insn.id))
  }

  function NewDef(start: Start, i: nat): Def {
    Def(i, 0, 0, "", false, start.kind, start.detail, start.pure)
  }

  function DefWritten(t: Trace, e: Event, s: nat): Option<Def>
    requires Runs(e)
    decreases |t|, 2
  {
    match StartOf(e.insn)
    case Some(start) =>
      if start.slot == s then Some(NewDef(start, Idx(t) + 1))
      else if s in WriteSlots(e.insn) then None else DefUsed(t, e, s)
    case None =>
      if s in WriteSlots(e.insn) then None else DefUsed(t, e, s)
  }

  function Tainted(d: Option<Def>): Option<Def> {
    if d.Some? then Some(d.value.(xbr := true)) else None
  }

  function DefTainted(t: Trace, e: Event, s: nat): Option<Def>
    requires Runs(e)
    decreases |t|, 3
  {
    if IsCondBranch(e.insn) then Tainted(DefWritten(t, e, s)) else DefWritten(t, e, s)
  }

  // --- Constants: the immediate MOV each slot still holds ---

  function ConstOf(t: Trace, s: nat): Option<Const>
    decreases |t|, 0
  {
    if t == [] then None
    else
      var e := t[|t| - 1];
      if !Runs(e) || EndsRegion(e.insn) then None else ConstAfter(t[..|t| - 1], e, s)
  }

  /** What is known of S once E has recorded its own constant, if there is room. */
  function ConstAfter(t: Trace, e: Event, s: nat): Option<Const>
    requires Runs(e)
    decreases |t|, 2
  {
    var mov := MovImm(e.insn);
    if mov.Some? && mov.value.0 == s then
      (if ConstsBefore(t, e) < MAX_CONSTS then Some(Const(mov.value.1, Idx(t) + 1)) else None)
    else ConstLeft(t, e, s)
  }

  /** What is known of S after E's writes. */
  function ConstLeft(t: Trace, e: Event, s: nat): Option<Const>
    requires Runs(e)
    decreases |t|, 1
  {
    if e.target || s in WriteSlots(e.insn) then None else ConstOf(t, s)
  }

  /** Table entries used since the region began. */
  function Consts(t: Trace): (n: nat)
    ensures n <= MAX_CONSTS
    decreases |t|, 0
  {
    if t == [] then 0
    else
      var e := t[|t| - 1];
      if !Runs(e) || EndsRegion(e.insn) then 0 else ConstsAfter(t[..|t| - 1], e)
  }

  function ConstsAfter(t: Trace, e: Event): (n: nat)
    requires Runs(e)
    ensures n <= MAX_CONSTS
    decreases |t|, 2
  {
    var n := ConstsBefore(t, e);
    if MovImm(e.insn).Some? && n < MAX_CONSTS then n + 1 else n
  }

  function ConstsBefore(t: Trace, e: Event): (n: nat)
    requires Runs(e)
    ensures n <= MAX_CONSTS
    decreases |t|, 1
  {
    if e.target then 0 else Consts(t)
  }

  // --- Reports ---

  function Cmp0Report(t: Trace, e: Event): seq<Report>
    requires Runs(e)
  {
    var f := FlagsBefore(t, e);
    if f.Some? && ZeroCompared(e.insn) == Some(f.value.slot)
    then [Cmp0(f.value.mnemonic, Idx(t) + 1 - f.value.idx)] else []
  }

  function Place(base: nat): Text {
    if base == 31 then "sp" else if base == 19 then "tr" else "heap"
  }

  /** The base registers told apart: the stack pointer and X19. */
  lemma PlaceIs(base: Reg)
    requires RegSlot(base) >= 0
    ensures Place(RegSlot(base)) == "sp" <==> base in {Sp, Wsp}
    ensures Place(RegSlot(base)) == "tr" <==> base in {W(19), X(19)}
    ensures Place(RegSlot(base)) in {"sp", "tr", "heap"}
  {}

  function ReloadReport(t: Trace, e: Event): seq<Report>
    requires Runs(e)
  {
    match KeyOf(e.insn)
    case None => []
    case Some(key) =>
      match LoadBefore(t, e, key)
      case None => []
      case Some(i) => [Reload(Place(key.base), key.size, Idx(t) + 1 - i)]
  }

  /** What overwriting a def reports. */
  function Final(d: Option<Def>): seq<Report> {
    if d.None? then []
    else if d.value.uses == 0 && d.value.pure then [Dead(d.value.kind, d.value.detail, d.value.xbr)]
    else if d.value.uses == 1 then
      [Sole(d.value.kind, d.value.detail, d.value.firstClass, d.value.xbr, d.value.firstUse - d.value.idx)]
    else if d.value.uses > 1 then [Multi(d.value.kind, d.value.detail)]
    else []
  }

  /** The reports of E's first N writes, each slot once. */
  function FinalReports(t: Trace, e: Event, n: nat): seq<Report>
    requires Runs(e) && n <= |WriteSlots(e.insn)|
  {
    if n == 0 then []
    else
      var s := WriteSlots(e.insn)[n - 1];
      FinalReports(t, e, n - 1) + if s in WriteSlots(e.insn)[..n - 1] then [] else Final(DefUsed(t, e, s))
  }

  /** The oldest tracked constant V among the first N slots other than D. */
  function Oldest(t: Trace, e: Event, d: nat, v: int, n: nat): Option<nat>
    requires Runs(e)
  {
    if n == 0 then None
    else
      var before := Oldest(t, e, d, v, n - 1);
      var c := ConstLeft(t, e, n - 1);
      if n - 1 == d || c.None? || c.value.value != v then before
      else if before.Some? && before.value <= c.value.idx then before
      else Some(c.value.idx)
  }

  function RematReport(t: Trace, e: Event): seq<Report>
    requires Runs(e)
  {
    match MovImm(e.insn)
    case None => []
    case Some((d, v)) =>
      match Oldest(t, e, d, v, NSLOT)
      case None => []
      case Some(i) => [Remat(Idx(t) + 1 - i)]
  }

  function ReportsAt(t: Trace, e: Event): seq<Report> {
    if !Runs(e) then []
    else Cmp0Report(t, e) + ReloadReport(t, e) + FinalReports(t, e, |WriteSlots(e.insn)|) + RematReport(t, e)
  }

  /** Everything a run reports, in order. */
  function Reports(t: Trace): seq<Report> {
    if t == [] then [] else Reports(t[..|t| - 1]) + ReportsAt(t[..|t| - 1], t[|t| - 1])
  }

  /** One event more. */
  lemma Unfold(t: Trace, e: Event)
    ensures Idx(t + [e]) == Idx(t) + if e.Decoded? then 1 else 0
    ensures Reports(t + [e]) == Reports(t) + ReportsAt(t, e)
    ensures !Runs(e) || EndsRegion(e.insn) ==>
              FlagsOf(t + [e]) == None && Loads(t + [e]) == Consts(t + [e]) == 0
    ensures Runs(e) && !EndsRegion(e.insn) ==>
              && FlagsOf(t + [e]) == FlagsAfter(t, e)
              && Loads(t + [e]) == LoadsAfter(t, e) && Consts(t + [e]) == ConstsAfter(t, e)
  {
    hide ReportsAt, FlagsAfter, LoadsAfter, ConstsAfter, Traps, EndsRegion;
    assert (t + [e])[..|t|] == t;
  }

  lemma UnfoldLoad(t: Trace, e: Event, key: Key)
    ensures LoadOf(t + [e], key)
            == if !Runs(e) || EndsRegion(e.insn) || key.base in WriteSlots(e.insn) then None else LoadArmed(t, e, key)
  {
    assert (t + [e])[..|t|] == t;
  }

  lemma UnfoldSlot(t: Trace, e: Event, s: nat)
    ensures DefOf(t + [e], s) == if !Runs(e) || EndsRegion(e.insn) then None else DefTainted(t, e, s)
    ensures ConstOf(t + [e], s) == if !Runs(e) || EndsRegion(e.insn) then None else ConstAfter(t, e, s)
  {
    assert (t + [e])[..|t|] == t;
  }

  /** Only real slots hold constants. */
  lemma {:induction false} ConstSlot(t: Trace, s: nat)
    ensures ConstOf(t, s).Some? ==> s < NSLOT
  {
    if t != [] {
      var prev, e := t[..|t| - 1], t[|t| - 1];
      ConstSlot(prev, s);
      assert t == prev + [e];
      UnfoldSlot(prev, e, s);
      if Runs(e) {
        assert ConstLeft(prev, e, s).Some? ==> s < NSLOT;
      }
    }
  }

  /** The oldest of the first N slots' tracked constants V, D's left out. */
  lemma {:induction false} OldestIs(t: Trace, e: Event, d: nat, v: int, n: nat)
    requires Runs(e)
    ensures var o := Oldest(t, e, d, v, n);
            && (o.Some? ==> exists s: nat :: s < n && s != d && ConstLeft(t, e, s) == Some(Const(v, o.value)))
            && (forall s: nat, i: nat | s < n && s != d && ConstLeft(t, e, s) == Some(Const(v, i)) ::
                  o.Some? && o.value <= i)
  {
    hide ConstLeft;
    if n > 0 {
      OldestIs(t, e, d, v, n - 1);
    }
  }
}
