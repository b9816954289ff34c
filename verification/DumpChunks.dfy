/**
 Chunks of contiguous instruction words, as tools/v8dump2elf.py and
 tools/smdump2elf.py make them: how a listing is cut into runs, how chunks are
 named, and the builder both parsers have.
 */
module DumpChunks {
  import opened Options
  import opened Widths
  import opened Sequences
  import opened ElfObject

  type Text = seq<Byte>

  /** An accepted instruction: its address and word. */
  datatype Insn = Insn(addr: nat, word: Word)

  // --- Contiguous runs ---

  datatype Run = Run(addr: nat, words: seq<Word>)

  function End(r: Run): nat {
    r.addr + 4 * |r.words|
  }

  /** One more instruction: extends the last run or starts one. */
  function Extend(runs: seq<Run>, x: Insn): seq<Run> {
    var m := |runs|;
    if m > 0 && End(runs[m - 1]) == x.addr
    then runs[m - 1 := Run(runs[m - 1].addr, runs[m - 1].words + [x.word])]
    else runs + [Run(x.addr, [x.word])]
  }

  /** The runs of one listing. */
  function Runs(listing: seq<Insn>): seq<Run> {
    if listing == [] then [] else Extend(Runs(listing[..|listing| - 1]), listing[|listing| - 1])
  }

  /** The runs of a whole dump: a listing's end ends its run. */
  function AllRuns(listings: seq<seq<Insn>>): seq<Run> {
    if listings == [] then [] else AllRuns(listings[..|listings| - 1]) + Runs(listings[|listings| - 1])
  }

  /** A run's instructions, word by word. */
  function InsnsOf(r: Run): (s: seq<Insn>)
    ensures |s| == |r.words|
    decreases |r.words|
  {
    if r.words == [] then []
    else
      var n := |r.words| - 1;
      InsnsOf(Run(r.addr, r.words[..n])) + [Insn(r.addr + 4 * n, r.words[n])]
  }

  function Flatten(runs: seq<Run>): seq<Insn> {
    if runs == [] then [] else Flatten(runs[..|runs| - 1]) + InsnsOf(runs[|runs| - 1])
  }

  function Concat(listings: seq<seq<Insn>>): seq<Insn> {
    if listings == [] then [] else Concat(listings[..|listings| - 1]) + listings[|listings| - 1]
  }

  lemma FlattenExtend(runs: seq<Run>, x: Insn)
    ensures Flatten(Extend(runs, x)) == Flatten(runs) + [x]
  {
    var m := |runs|;
    var after := Extend(runs, x);
    if m > 0 && End(runs[m - 1]) == x.addr {
      var r := after[m - 1];
      assert after[..m - 1] == runs[..m - 1];
      assert r.words[..|r.words| - 1] == runs[m - 1].words;
      assert Run(r.addr, r.words[..|r.words| - 1]) == runs[m - 1];
      assert InsnsOf(r) == InsnsOf(runs[m - 1]) + [x];
    } else {
      assert after[..m] == runs;
      var r := Run(x.addr, [x.word]);
      assert InsnsOf(r) == [x] by {
        assert r.words[..0] == [];
        assert InsnsOf(Run(r.addr, [])) == [];
      }
    }
  }

  /** Nothing of a listing is lost, duplicated or reordered. */
  lemma {:induction false} RunsFlatten(listing: seq<Insn>)
    ensures Flatten(Runs(listing)) == listing
  {
    if listing != [] {
      var n := |listing| - 1;
      RunsFlatten(listing[..n]);
      FlattenExtend(Runs(listing[..n]), listing[n]);
      assert listing == listing[..n] + [listing[n]];
    }
  }

  lemma {:induction false} FlattenAppend(a: seq<Run>, b: seq<Run>)
    ensures Flatten(a + b) == Flatten(a) + Flatten(b)
    decreases |b|
  {
    hide InsnsOf;
    if b == [] {
      assert a + b == a;
      Finished(Flatten(a));
    } else {
      var n := |b| - 1;
      var ab := a + b;
      assert ab[..|ab| - 1] == a + b[..n] && ab[|ab| - 1] == b[n];
      FlattenAppend(a, b[..n]);
      Advance(Flatten(a), Flatten(b[..n]), InsnsOf(b[n]));
    }
  }

  /** Nothing of a dump is lost, duplicated or reordered. */
  lemma {:induction false} AllRunsFlatten(listings: seq<seq<Insn>>)
    ensures Flatten(AllRuns(listings)) == Concat(listings)
  {
    if listings != [] {
      var n := |listings| - 1;
      AllRunsFlatten(listings[..n]);
      RunsFlatten(listings[n]);
      FlattenAppend(AllRuns(listings[..n]), Runs(listings[n]));
    }
  }

  /** The runs of a listing are its maximal contiguous stretches: none is empty
      and no run starts where the one before it ends. */
  lemma {:induction false} RunsAreMaximal(listing: seq<Insn>)
    ensures var runs := Runs(listing);
            && (forall i | 0 <= i < |runs| :: runs[i].words != [])
            && (forall i | 0 < i < |runs| :: End(runs[i - 1]) != runs[i].addr)
            && (runs == [] <==> listing == [])
  {
    if listing != [] {
      RunsAreMaximal(listing[..|listing| - 1]);
    }
  }

  // --- Chunks ---

  /** The words as they lie in memory. */
  function BytesOf(words: seq<Word>): (s: seq<Byte>)
    ensures |s| == 4 * |words|
  {
    if words == [] then []
    else
      Bounds();
      BytesOf(words[..|words| - 1]) + Pack(words[|words| - 1], 4)
  }

  /** The chunk holds the run. */
  predicate Holds(c: Chunk, r: Run) {
    c.addr == r.addr && c.data == BytesOf(r.words)
  }

  ghost predicate HoldAll(chunks: seq<Chunk>, runs: seq<Run>) {
    |chunks| == |runs| && forall i | 0 <= i < |chunks| :: Holds(chunks[i], runs[i])
  }

  // --- Naming ---

  function Digits(n: nat): Text {
    if n < 10 then [48 + n] else Digits(n / 10) + [48 + n % 10]
  }

  /** How often each name was used, after one more use of FULL. */
  function CountName(seen: map<Text, nat>, full: Text): (after: map<Text, nat>)
    ensures full in after && after[full] > 0
  {
    seen[full := (if full in seen then seen[full] else 0) + 1]
  }

  /** A name, numbered from its second use on. */
  function NumberedName(seen: map<Text, nat>, full: Text): Text {
    var n := CountName(seen, full)[full];
    if n == 1 then full else full + [46] + Digits(n)
  }

  /** How often each name was used, after naming FULLS. */
  function SeenAfter(fulls: seq<Text>): map<Text, nat> {
    if fulls == [] then map[] else CountName(SeenAfter(fulls[..|fulls| - 1]), fulls[|fulls| - 1])
  }

  /** The chunks were named FULLS, in this order. */
  ghost predicate Named(chunks: seq<Chunk>, fulls: seq<Text>) {
    && |chunks| == |fulls|
    && forall i | 0 <= i < |chunks| :: chunks[i].name == NumberedName(SeenAfter(fulls[..i]), fulls[i])
  }

  lemma NamedNext(chunks: seq<Chunk>, fulls: seq<Text>, c: Chunk, full: Text)
    requires Named(chunks, fulls) && c.name == NumberedName(SeenAfter(fulls), full)
    ensures Named(chunks + [c], fulls + [full])
    ensures SeenAfter(fulls + [full]) == CountName(SeenAfter(fulls), full)
  {
    hide NumberedName, CountName;
    var after := fulls + [full];
    assert after[..|fulls|] == fulls;
    forall i | 0 <= i < |fulls| ensures after[..i] == fulls[..i] {}
  }

  lemma {:induction false} SeenIsCount(fulls: seq<Text>, full: Text)
    ensures var seen := SeenAfter(fulls);
            (if full in seen then seen[full] else 0) == multiset(fulls)[full]
  {
    if fulls != [] {
      var n := |fulls| - 1;
      SeenIsCount(fulls[..n], full);
      assert fulls == fulls[..n] + [fulls[n]];
    }
  }

  /** The number the digits stand for. */
  function ValueOf(digits: Text): int {
    if digits == [] then 0 else 10 * ValueOf(digits[..|digits| - 1]) + digits[|digits| - 1] as int - 48
  }

  /** Decimal, without leading zeros. */
  lemma {:induction false} DigitsMean(n: nat)
    ensures ValueOf(Digits(n)) == n
    ensures forall k | 0 <= k < |Digits(n)| :: 48 <= Digits(n)[k] <= 57
    ensures |Digits(n)| >= 1 && (Digits(n)[0] == 48 ==> n == 0)
  {
    if n < 10 {
      assert Digits(n)[..0] == [] && ValueOf([]) == 0;
    } else {
      DigitsMean(n / 10);
      assert Digits(n)[..|Digits(n)| - 1] == Digits(n / 10);
    }
  }

  /** The first chunk of a name has it as it is, the n-th with .n behind it. */
  lemma NamesMean(chunks: seq<Chunk>, fulls: seq<Text>, i: nat)
    requires Named(chunks, fulls) && i < |chunks|
    ensures var before := multiset(fulls[..i])[fulls[i]];
            chunks[i].name == if before == 0 then fulls[i] else fulls[i] + [46] + Digits(before + 1)
  {
    hide Digits, SeenAfter;
    SeenIsCount(fulls[..i], fulls[i]);
  }

  lemma {:induction false} SeenAtMost(fulls: seq<Text>, full: Text)
    ensures var seen := SeenAfter(fulls);
            full in seen ==> seen[full] <= |fulls|
  {
    if fulls != [] {
      SeenAtMost(fulls[..|fulls| - 1], full);
      SeenAtMost(fulls[..|fulls| - 1], fulls[|fulls| - 1]);
    }
  }

  lemma {:induction false} DigitsShort(n: nat, k: nat)
    requires k >= 1 && n < Pow10(k)
    ensures 1 <= |Digits(n)| <= k
  {
    if n >= 10 {
      DigitsShort(n / 10, k - 1);
    }
  }

  function Pow10(k: nat): nat {
    if k == 0 then 1 else 10 * Pow10(k - 1)
  }

  lemma TwentyDigits()
    ensures Pow10(20) > 0x1_0000_0000_0000_0000
  {
    assert Pow10(5) == 100000 && Pow10(10) == 10000000000 && Pow10(15) == 1000000000000000;
  }

  /** Numbering adds a dot and the digits of a count. */
  lemma NamesShort(chunks: seq<Chunk>, fulls: seq<Text>, longest: nat)
    requires Named(chunks, fulls) && |chunks| < 0x1_0000_0000_0000_0000
    requires forall i | 0 <= i < |fulls| :: |fulls[i]| <= longest
    ensures forall i | 0 <= i < |chunks| :: |chunks[i].name| <= longest + 21
  {
    hide Digits, Pow10, SeenAfter;
    TwentyDigits();
    forall i | 0 <= i < |chunks| ensures |chunks[i].name| <= longest + 21 {
      SeenAtMost(fulls[..i], fulls[i]);
      DigitsShort(CountName(SeenAfter(fulls[..i]), fulls[i])[fulls[i]], 20);
    }
  }

  /** LISTINGS with X at the end of the last. */
  function Append(listings: seq<seq<Insn>>, x: Insn): seq<seq<Insn>>
    requires |listings| > 0
  {
    listings[|listings| - 1 := listings[|listings| - 1] + [x]]
  }

  /** The instruction opens a chunk: it is the first of its listing, or does not
      stand right behind the one before it. */
  predicate Opens(listings: seq<seq<Insn>>, x: Insn)
    requires |listings| > 0
  {
    var open := listings[|listings| - 1];
    open == [] || open[|open| - 1].addr + 4 != x.addr
  }

  /** The runs so far end behind the last instruction of the open listing. */
  lemma LastEnd(listings: seq<seq<Insn>>)
    requires |listings| > 0 && listings[|listings| - 1] != []
    ensures var runs, open := AllRuns(listings), listings[|listings| - 1];
            runs != [] && End(runs[|runs| - 1]) == open[|open| - 1].addr + 4
  {
    var n := |listings| - 1;
    var open := listings[n];
    var runs := Runs(open);
    assert runs == Extend(Runs(open[..|open| - 1]), open[|open| - 1]);
    assert AllRuns(listings) == AllRuns(listings[..n]) + runs;
  }

  lemma AppendRuns(listings: seq<seq<Insn>>, x: Insn)
    requires |listings| > 0
    ensures AllRuns(Append(listings, x))
            == if listings[|listings| - 1] == [] then AllRuns(listings) + [Run(x.addr, [x.word])]
               else Extend(AllRuns(listings), x)
  {
    hide Extend, Runs;
    var n := |listings| - 1;
    var open, init := listings[n], AllRuns(listings[..n]);
    var after := Append(listings, x);
    assert after[..n] == listings[..n];
    assert AllRuns(after) == init + Runs(open + [x]);
    RunsAppend(open, x);
    ExtendLast(init, Runs(open), x);
  }

  lemma RunsAppend(open: seq<Insn>, x: Insn)
    ensures Runs(open + [x]) == Extend(Runs(open), x)
    ensures Runs(open) == [] <==> open == []
  {
    hide Extend;
    assert (open + [x])[..|open|] == open;
    RunsAreMaximal(open);
  }

  lemma ExtendLast(init: seq<Run>, runs: seq<Run>, x: Insn)
    ensures init + Extend(runs, x)
            == if runs == [] then init + [Run(x.addr, [x.word])] else Extend(init + runs, x)
  {
    if runs != [] {
      var m := |runs|;
      var all := init + runs;
      assert all[|all| - 1] == runs[m - 1];
    }
  }

  lemma BytesAppend(words: seq<Word>, w: Word)
    ensures w < Bound(4) && BytesOf(words + [w]) == BytesOf(words) + Pack(w, 4)
  {
    Bounds();
    assert (words + [w])[..|words|] == words;
  }

  /** Adding an instruction to the chunks mirrors extending the runs. */
  lemma HoldExtend(chunks: seq<Chunk>, runs: seq<Run>, x: Insn, name: Text, starts: bool, after: seq<Chunk>)
    requires HoldAll(chunks, runs)
    requires x.word < Bound(4)
    requires starts || |chunks| > 0
    requires var m := |chunks|;
             after == if starts then chunks + [Chunk(name, x.addr, Pack(x.word, 4))]
                      else chunks[m - 1 := chunks[m - 1].(data := chunks[m - 1].data + Pack(x.word, 4))]
    ensures var m := |chunks|;
            HoldAll(after, if starts then runs + [Run(x.addr, [x.word])]
                           else runs[m - 1 := Run(runs[m - 1].addr, runs[m - 1].words + [x.word])])
  {
    hide Pack, BytesOf, Bound;
    if starts {
      BytesAppend([], x.word);
      assert BytesOf([]) + Pack(x.word, 4) == Pack(x.word, 4) by {
        NoBytes();
      }
      assert [] + [x.word] == [x.word];
    } else {
      BytesAppend(runs[|runs| - 1].words, x.word);
    }
  }

  lemma NoBytes()
    ensures BytesOf([]) == []
  {
  }

  /** The part of a parser both converters have: the open chunk, the finished
      ones, and how often each name was used. */
  class Builder {
    var chunks: seq<Chunk>
    var cur: Option<Chunk>
    var seen: map<Text, nat>
    /** The listings so far, the last one open. */
    ghost var listings: seq<seq<Insn>>
    /** What the chunks were named, before numbering. */
    ghost var fulls: seq<Text>

    ghost predicate Valid()
      reads this
    {
      && seen == SeenAfter(fulls) && Named(if cur.Some? then chunks + [cur.value] else chunks, fulls)
      && |listings| > 0
      && (cur.None? <==> listings[|listings| - 1] == [])
      && HoldAll(if cur.Some? then chunks + [cur.value] else chunks, AllRuns(listings))
      && (forall i | 0 <= i < |chunks| :: chunks[i].data != [])
      && (cur.Some? ==> cur.value.data != [])
    }

    constructor ()
      ensures Valid() && listings == [[]] && fulls == []
    {
      chunks, cur, seen := [], None, map[];
      listings, fulls := [[]], [];
      new;
      assert listings[..0] == [] && AllRuns([]) == [] && AllRuns(listings) == [];
    }

    method DisplayName(full: Text) returns (name: Text)
      modifies this`seen
      ensures seen == CountName(old(seen), full) && name == NumberedName(old(seen), full)
    {
      name := NumberedName(seen, full);
      seen := CountName(seen, full);
    }

    /** The open chunk is finished. */
    method Flush()
      requires Valid()
      modifies this`chunks, this`cur, this`listings
      ensures Valid() && cur.None?
      ensures listings == old(listings) + [[]]
    {
      hide AllRuns, HoldAll, Named, SeenAfter;
      OpenedRuns(listings);
      if cur.Some? {
        chunks := chunks + [cur.value];
      }
      cur := None;
      listings := listings + [[]];
    }

    /** One instruction: continues the open chunk when it follows it, else
        finishes that and opens one. */
    method Add(x: Insn, full: Text)
      requires Valid()
      modifies this
      ensures Valid() && cur.Some? && listings == Append(old(listings), x)
      ensures fulls == if Opens(old(listings), x) then old(fulls) + [full] else old(fulls)
    {
      hide AllRuns, Pack, HoldAll, Bound, SeenAfter, Named, NumberedName, CountName;
      Bounds();
      AppendRuns(listings, x);
      ghost var before := if cur.Some? then chunks + [cur.value] else chunks;
      ghost var runs := AllRuns(listings);
      var starts := cur.None? || x.addr != cur.value.addr + |cur.value.data|;
      LastHolds(before, runs);
      if cur.Some? {
        LastEnd(listings);
      }
      assert starts <==> Opens(listings, x);
      ghost var m := |runs|;
      assert AllRuns(Append(listings, x))
             == if starts then runs + [Run(x.addr, [x.word])]
                else runs[m - 1 := Run(runs[m - 1].addr, runs[m - 1].words + [x.word])];
      if starts {
        if cur.Some? {
          chunks := chunks + [cur.value];
        }
        var name := DisplayName(full);
        cur := Some(Chunk(name, x.addr, []));
        NamedNext(chunks, fulls, cur.value, full);
        fulls := fulls + [full];
      }
      Renamed(chunks, cur.value, cur.value.data + Pack(x.word, 4), fulls);
      assert [] + Pack(x.word, 4) == Pack(x.word, 4);
      cur := Some(cur.value.(data := cur.value.data + Pack(x.word, 4)));
      listings := Append(listings, x);
      HoldExtend(before, runs, x, cur.value.name, starts, chunks + [cur.value]);
      assert HoldAll(chunks + [cur.value], AllRuns(listings));
    }
  }

  /** A listing just opened has no runs yet. */
  lemma OpenedRuns(listings: seq<seq<Insn>>)
    ensures AllRuns(listings + [[]]) == AllRuns(listings)
  {
    var after := listings + [[]];
    assert after[..|after| - 1] == listings;
    assert AllRuns(listings) + [] == AllRuns(listings);
  }

  /** What a chunk holds is not its name. */
  lemma Renamed(chunks: seq<Chunk>, c: Chunk, data: seq<Byte>, fulls: seq<Text>)
    requires Named(chunks + [c], fulls)
    ensures Named(chunks + [c.(data := data)], fulls)
  {
    hide NumberedName, SeenAfter;
    var before, after := chunks + [c], chunks + [c.(data := data)];
    assert forall i | 0 <= i < |after| :: after[i].name == before[i].name;
  }

  lemma LastHolds(chunks: seq<Chunk>, runs: seq<Run>)
    requires HoldAll(chunks, runs)
    ensures |chunks| == |runs| && (|chunks| > 0 ==> Holds(chunks[|chunks| - 1], runs[|runs| - 1]))
  {
  }
}
