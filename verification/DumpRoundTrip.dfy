/**
 From a dump to ELF files and back: the converters' output, split by section
 count, read by the section reader, gives exactly the accepted instructions.
 Also the binary dump parser of tools/jscdump2elf.py.
 */
module DumpRoundTrip {
  import opened Options
  import opened Widths
  import opened Sequences
  import opened ElfObject
  import opened DumpChunks
  import opened DumpParsers
  import opened DumpSizes

  // --- Splitting ---

  /** chunks[0:max], chunks[max:2 max], ... */
  function Split(chunks: seq<Chunk>, max: nat): seq<seq<Chunk>>
    requires max >= 1
    decreases |chunks|
  {
    if chunks == [] then []
    else if |chunks| <= max then [chunks]
    else [chunks[..max]] + Split(chunks[max..], max)
  }

  function Join(parts: seq<seq<Chunk>>): seq<Chunk> {
    if parts == [] then [] else parts[0] + Join(parts[1..])
  }

  lemma {:induction false} SplitJoins(chunks: seq<Chunk>, max: nat)
    requires max >= 1
    ensures Join(Split(chunks, max)) == chunks
    ensures forall i | 0 <= i < |Split(chunks, max)| :: 1 <= |Split(chunks, max)[i]| <= max
    decreases |chunks|
  {
    if |chunks| > max {
      SplitJoins(chunks[max..], max);
      assert Split(chunks, max)[1..] == Split(chunks[max..], max);
    } else if chunks != [] {
      assert Split(chunks, max)[1..] == [];
      assert chunks + [] == chunks;
    }
  }

  ghost predicate AllFit(parts: seq<seq<Chunk>>) {
    forall i | 0 <= i < |parts| :: Fits(parts[i])
  }

  /** What goes into each file: nothing without chunks, everything into one
      file for up to MAX of them, else MAX at a time. A step of 0 raises, and a
      negative one makes no file at all. */
  function Outputs(chunks: seq<Chunk>, max: int): Option<seq<seq<Chunk>>> {
    if chunks == [] || max < 0 then Some([])
    else if max == 0 then None
    else Some(Split(chunks, max))
  }

  /** The files hold every chunk once and in order if and only if the limit is
      positive or there are none. */
  lemma OutputsJoin(chunks: seq<Chunk>, max: int)
    ensures Outputs(chunks, max) == None <==> max == 0 && chunks != []
    ensures Outputs(chunks, max).Some? ==>
              (Join(Outputs(chunks, max).value) == chunks <==> max >= 1 || chunks == [])
  {
    if max >= 1 {
      SplitJoins(chunks, max);
    }
  }

  /** The exit status and the files; an exception when a field does not fit, or
      on a limit of 0. */
  method Convert(chunks: seq<Chunk>, max: int) returns (files: Result<seq<seq<Byte>>>, status: nat)
    ensures files.Ok? <==> Outputs(chunks, max).Some? && AllFit(Outputs(chunks, max).value)
    ensures files.Ok? ==> |files.value| == |Outputs(chunks, max).value|
    ensures files.Ok? ==>
              forall i | 0 <= i < |files.value| :: files.value[i] == Image(Outputs(chunks, max).value[i])
    ensures files.Ok? ==> status == if chunks == [] then 1 else 0
  {
    hide Image, Fits;
    if chunks == [] {
      return Ok([]), 1;
    }
    status := 0;
    if |chunks| <= max {
      var file := WriteElf(chunks);
      assert Split(chunks, max)[0] == chunks;
      return (if file.Raised? then Raised else Ok([file.value])), 0;
    }
    if max == 0 {
      return Raised, 0;
    }
    var out: seq<seq<Byte>> := [];
    if max > 0 {
      var rest := chunks;
      ghost var parts := Split(chunks, max);
      while rest != []
        invariant |out| <= |parts| && parts[|out|..] == Split(rest, max)
        invariant forall i | 0 <= i < |out| :: Fits(parts[i]) && out[i] == Image(parts[i])
        decreases |rest|
      {
        var n := if |rest| <= max then |rest| else max;
        assert parts[|out|] == rest[..n] && parts[|out| + 1..] == parts[|out|..][1..];
        var file := WriteElf(rest[..n]);
        if file.Raised? {
          return Raised, 0;
        }
        out := out + [file.value];
        rest := rest[n..];
      }
    }
    return Ok(out), 0;
  }

  /** The conversion ends with its files: no chunks, or a limit that writes no
      file, or every part within the section count and every address in 64
      bits. */
  predicate Succeeds(chunks: seq<Chunk>, max: int) {
    || chunks == [] || max < 0
    || (max > 0 && Addressable(chunks) && (max <= MAX_CHUNKS || |chunks| <= MAX_CHUNKS))
  }

  lemma {:induction false} SplitFits(chunks: seq<Chunk>, max: nat)
    requires max >= 1 && ShortNames(chunks) && Size(chunks) < M64 / 2
    ensures AllFit(Split(chunks, max))
            <==> Addressable(chunks) && (max <= MAX_CHUNKS || |chunks| <= MAX_CHUNKS)
    decreases |chunks|
  {
    hide Fits, Size;
    if |chunks| > max {
      var head, rest := chunks[..max], chunks[max..];
      var parts := Split(chunks, max);
      assert parts[0] == head && parts[1..] == Split(rest, max);
      assert AllFit(parts) <==> Fits(head) && AllFit(parts[1..]);
      SizeSplit(chunks, max);
      FitsIff(head);
      SplitFits(rest, max);
      assert Addressable(chunks) <==> Addressable(head) && Addressable(rest) by {
        AddressableParts(chunks, max);
      }
    } else if chunks != [] {
      FitsIff(chunks);
      assert Split(chunks, max)[0] == chunks;
    }
  }

  lemma AddressableParts(chunks: seq<Chunk>, n: nat)
    requires n <= |chunks|
    ensures Addressable(chunks) <==> Addressable(chunks[..n]) && Addressable(chunks[n..])
  {
    assert forall i | n <= i < |chunks| :: chunks[i] == chunks[n..][i - n];
  }

  /** With names as the converters make them and less than 2^63 bytes of code,
      that is exactly when every part fits. */
  lemma SucceedsIff(chunks: seq<Chunk>, max: int)
    requires ShortNames(chunks) && Size(chunks) < M64 / 2
    ensures Outputs(chunks, max).Some? && AllFit(Outputs(chunks, max).value) <==> Succeeds(chunks, max)
  {
    hide Size, Fits, Addressable, ShortNames, Split;
    if max >= 1 && chunks != [] {
      SplitFits(chunks, max);
    }
  }

  /** Less than 2^63 bytes of code, every address of 64 bits. */
  predicate Ordinary(accepted: seq<Insn>) {
    4 * |accepted| < M64 / 2 && forall i | 0 <= i < |accepted| :: accepted[i].addr < M64
  }

  /** What ordinary instructions make of their chunks. */
  lemma OrdinaryChunks(chunks: seq<Chunk>, runs: seq<Run>, fulls: seq<Text>)
    requires HoldAll(chunks, runs) && forall i | 0 <= i < |chunks| :: chunks[i].data != []
    requires Named(chunks, fulls) && forall i | 0 <= i < |fulls| :: |fulls[i]| + 21 <= MAX_NAME
    requires 4 * |Flatten(runs)| < M64 / 2
    ensures ShortNames(chunks) && Size(chunks) < M64 / 2
    ensures Ordinary(Flatten(runs)) ==> Addressable(chunks)
  {
    hide Flatten, Named;
    SizeOfRuns(chunks, runs);
    FewChunks(chunks);
    NamesShort(chunks, fulls, MAX_NAME - 21);
    forall i | 0 <= i < |chunks| && Ordinary(Flatten(runs)) ensures chunks[i].addr < M64 {
      StartsAccepted(chunks, runs, i);
    }
  }

  lemma {:induction false} FewChunks(chunks: seq<Chunk>)
    requires forall i | 0 <= i < |chunks| :: chunks[i].data != []
    ensures |chunks| <= Size(chunks)
  {
    if chunks != [] {
      FewChunks(chunks[..|chunks| - 1]);
    }
  }

  // --- Reading the files back ---

  /** The parts of every file in turn. */
  function ReadAll(files: seq<seq<Byte>>): Option<seq<(nat, seq<Byte>)>> {
    if files == [] then Some([])
    else
      match ReadSections(files[0])
      case Parts(parts) =>
        (match ReadAll(files[1..])
         case Some(rest) => Some(parts + rest)
         case None => None)
      case _ => None
  }

  lemma {:induction false} ExpectedJoin(a: seq<Chunk>, b: seq<Chunk>)
    ensures Expected(a + b) == Expected(a) + Expected(b)
    decreases |b|
  {
    if b == [] {
      assert a + b == a;
      assert Expected(a) + Expected(b) == Expected(a);
    } else {
      var n := |b| - 1;
      var ab := a + b;
      assert ab[..|ab| - 1] == a + b[..n] && ab[|ab| - 1] == b[n];
      ExpectedJoin(a, b[..n]);
    }
  }

  lemma {:induction false} FilesReadBack(parts: seq<seq<Chunk>>, files: seq<seq<Byte>>)
    requires AllFit(parts) && |files| == |parts|
    requires forall i | 0 <= i < |files| :: files[i] == Image(parts[i])
    ensures ReadAll(files) == Some(Expected(Join(parts)))
  {
    hide Image, Fits, Expected, ReadSections;
    if parts != [] {
      ReadBack(parts[0]);
      FilesReadBack(parts[1..], files[1..]);
      ExpectedJoin(parts[0], Join(parts[1..]));
    } else {
      assert Expected([]) == [] by {
        NothingExpected();
      }
    }
  }

  lemma NothingExpected()
    ensures Expected([]) == []
  {
  }

  // --- Words out of sections ---

  /** The little-endian words of a section, at its address and every fourth
      byte after. */
  function InsnsOfPart(addr: nat, raw: seq<Byte>): seq<Insn>
    decreases |raw|
  {
    if |raw| < 4 then []
    else
      var n := |raw| - 4;
      InsnsOfPart(addr, raw[..n]) + [Insn(addr + n, WordOf(raw[n..]))]
  }

  function InsnsOfParts(parts: seq<(nat, seq<Byte>)>): seq<Insn> {
    if parts == [] then []
    else InsnsOfParts(parts[..|parts| - 1]) + InsnsOfPart(parts[|parts| - 1].0, parts[|parts| - 1].1)
  }

  lemma WordOfPack(w: Word)
    ensures w < Bound(4) && WordOf(Pack(w, 4)) == w
  {
    Bounds();
    PackRoundTrip(w, 4);
    var b := Pack(w, 4);
    assert b[1..][1..] == b[2..] && b[2..][1..] == b[3..] && b[3..][1..] == [];
    assert Unpack([]) == 0;
    var b1: nat, b2: nat, b3: nat := b[1], b[2], b[3];
    assert Unpack(b[3..]) == b3;
    assert Unpack(b[2..]) == b2 + 256 * b3;
    assert Unpack(b[1..]) == b1 + 256 * (b2 + 256 * b3);
  }

  lemma {:induction false} PartOfRun(r: Run)
    ensures InsnsOfPart(r.addr, BytesOf(r.words)) == InsnsOf(r)
    decreases |r.words|
  {
    hide Pack, WordOf;
    if r.words != [] {
      var n := |r.words| - 1;
      var raw := BytesOf(r.words);
      WordOfPack(r.words[n]);
      assert raw[..|raw| - 4] == BytesOf(r.words[..n]);
      assert raw[|raw| - 4..] == Pack(r.words[n], 4);
      PartOfRun(Run(r.addr, r.words[..n]));
    }
  }

  /** Chunks that hold runs of words read back as the runs' instructions. */
  lemma {:induction false} ExpectedInsns(chunks: seq<Chunk>, runs: seq<Run>)
    requires HoldAll(chunks, runs) && forall i | 0 <= i < |chunks| :: chunks[i].data != []
    ensures InsnsOfParts(Expected(chunks)) == Flatten(runs)
  {
    hide BytesOf, InsnsOf, InsnsOfPart;
    if chunks != [] {
      var n := |chunks| - 1;
      ExpectedInsns(chunks[..n], runs[..n]);
      var d := chunks[n].data;
      WholeWords(runs[n].words);
      assert d[..|d|] == d;
      var parts := Expected(chunks);
      assert parts == Expected(chunks[..n]) + [(chunks[n].addr, d)];
      assert parts[..|parts| - 1] == Expected(chunks[..n]);
      PartOfRun(runs[n]);
    }
  }

  lemma WholeWords(words: seq<Word>)
    ensures |BytesOf(words)| % 4 == 0 && (BytesOf(words) != [] ==> |BytesOf(words)| >= 4)
  {
  }

  lemma SucceedsWithin(chunks: seq<Chunk>, max: int)
    ensures Addressable(chunks) && 1 <= max <= MAX_CHUNKS ==> Succeeds(chunks, max)
  {
  }

  /** There are chunks exactly when there are instructions. */
  lemma SomeChunk(chunks: seq<Chunk>, runs: seq<Run>)
    requires HoldAll(chunks, runs) && forall i | 0 <= i < |chunks| :: chunks[i].data != []
    ensures chunks == [] <==> Flatten(runs) == []
  {
    hide BytesOf, InsnsOf;
    if chunks != [] {
      assert Holds(chunks[|chunks| - 1], runs[|runs| - 1]);
    }
  }

  /** Any chunks of runs, any limit: what is read back is the runs'
      instructions, in order, if and only if the limit is positive or there
      are none. */
  lemma RunsReadBack(chunks: seq<Chunk>, runs: seq<Run>, max: int, files: seq<seq<Byte>>)
    requires HoldAll(chunks, runs) && forall i | 0 <= i < |chunks| :: chunks[i].data != []
    requires Outputs(chunks, max).Some? && AllFit(Outputs(chunks, max).value)
    requires |files| == |Outputs(chunks, max).value|
    requires forall i | 0 <= i < |files| :: files[i] == Image(Outputs(chunks, max).value[i])
    ensures ReadAll(files).Some?
    ensures InsnsOfParts(ReadAll(files).value) == Flatten(runs) <==> max >= 1 || Flatten(runs) == []
    ensures chunks == [] <==> Flatten(runs) == []
  {
    hide Image, Fits, HoldAll, Split, Expected, Flatten, AllFit;
    FilesReadBack(Outputs(chunks, max).value, files);
    OutputsJoin(chunks, max);
    ExpectedInsns(chunks, runs);
    SomeChunk(chunks, runs);
    NothingExpected();
  }

  /** Names of a few tens of thousands of bytes at most; the converter's own are
      cut at less than a hundred. */
  ghost predicate V8Short(nameOf: (Text, Text) -> Text) {
    forall a, b :: |nameOf(a, b)| + 21 <= MAX_NAME
  }

  lemma V8NamesShort(dump: seq<Line>, nameOf: (Text, Text) -> Text, fulls: seq<Text>)
    requires V8Short(nameOf) && V8NamesAre(dump, nameOf, fulls)
    ensures forall i | 0 <= i < |fulls| :: |fulls[i]| + 21 <= MAX_NAME
  {
    forall i | 0 <= i < |fulls| ensures |fulls[i]| + 21 <= MAX_NAME {
      assert V8NamedAt(dump, nameOf, V8Openings(dump)[i], fulls[i]);
    }
  }

  /** The whole way for a V8 dump: exactly the instruction lines inside
      listings, nothing lost, duplicated or reordered, and an exit status that
      tells whether there are any. */
  method V8RoundTrip(dump: seq<Line>, nameOf: (Text, Text) -> Text, max: int)
    returns (chunks: seq<Chunk>, files: Result<seq<seq<Byte>>>, status: nat)
    ensures files.Ok? <==> Outputs(chunks, max).Some? && AllFit(Outputs(chunks, max).value)
    ensures HoldAll(chunks, AllRuns(V8Listings(dump)))
    ensures V8Short(nameOf) && 4 * |V8Accepted(dump)| < M64 / 2 ==> (files.Ok? <==> Succeeds(chunks, max))
    ensures V8Short(nameOf) && Ordinary(V8Accepted(dump)) && 1 <= max <= MAX_CHUNKS ==> files.Ok?
    ensures files.Ok? ==> ReadAll(files.value).Some?
    ensures files.Ok? ==> (InsnsOfParts(ReadAll(files.value).value) == V8Accepted(dump)
                           <==> max >= 1 || V8Accepted(dump) == [])
    ensures files.Ok? ==> status == if V8Accepted(dump) == [] then 1 else 0
  {
    hide HoldAll, AllRuns, V8Listings, V8Accepted, Outputs, AllFit, Image, InsnsOfParts, ReadAll, Flatten, Concat,
      Named, Addressable, ShortNames, Size, Succeeds;
    ghost var fulls;
    chunks, fulls := ParseV8(dump, nameOf);
    files, status := Convert(chunks, max);
    SomeChunk(chunks, AllRuns(V8Listings(dump)));
    AllRunsFlatten(V8Listings(dump));
    V8Concat(dump);
    if V8Short(nameOf) && 4 * |V8Accepted(dump)| < M64 / 2 {
      V8NamesShort(dump, nameOf, fulls);
      OrdinaryChunks(chunks, AllRuns(V8Listings(dump)), fulls);
      SucceedsIff(chunks, max);
      SucceedsWithin(chunks, max);
    }
    if files.Ok? {
      RunsReadBack(chunks, AllRuns(V8Listings(dump)), max, files.value);
    }
  }

  ghost predicate SmShort(nameOf: (Text, nat) -> Text) {
    forall a, b :: |nameOf(a, b)| + 21 <= MAX_NAME
  }

  lemma SmNamesShort(dump: seq<SmLine>, nameOf: (Text, nat) -> Text, fulls: seq<Text>)
    requires SmShort(nameOf) && SmNamesAre(dump, nameOf, fulls)
    ensures forall i | 0 <= i < |fulls| :: |fulls[i]| + 21 <= MAX_NAME
  {
    forall i | 0 <= i < |fulls| ensures |fulls[i]| + 21 <= MAX_NAME {
      assert SmNamedAt(dump, nameOf, SmOpenings(dump)[i], fulls[i]);
    }
  }

  method SmRoundTrip(dump: seq<SmLine>, nameOf: (Text, nat) -> Text, max: int)
    returns (chunks: seq<Chunk>, files: Result<seq<seq<Byte>>>, status: nat)
    ensures files.Ok? <==> Outputs(chunks, max).Some? && AllFit(Outputs(chunks, max).value)
    ensures HoldAll(chunks, AllRuns(SmListings(dump)))
    ensures SmShort(nameOf) && 4 * |SmAccepted(dump)| < M64 / 2 ==> (files.Ok? <==> Succeeds(chunks, max))
    ensures SmShort(nameOf) && Ordinary(SmAccepted(dump)) && 1 <= max <= MAX_CHUNKS ==> files.Ok?
    ensures files.Ok? ==> ReadAll(files.value).Some?
    ensures files.Ok? ==> (InsnsOfParts(ReadAll(files.value).value) == SmAccepted(dump)
                           <==> max >= 1 || SmAccepted(dump) == [])
    ensures files.Ok? ==> status == if SmAccepted(dump) == [] then 1 else 0
  {
    hide HoldAll, AllRuns, SmListings, SmAccepted, Outputs, AllFit, Image, InsnsOfParts, ReadAll, Flatten, Concat,
      Named, Addressable, ShortNames, Size, Succeeds;
    ghost var fulls;
    chunks, fulls := ParseSm(dump, nameOf);
    files, status := Convert(chunks, max);
    SomeChunk(chunks, AllRuns(SmListings(dump)));
    AllRunsFlatten(SmListings(dump));
    SmConcat(dump);
    if SmShort(nameOf) && 4 * |SmAccepted(dump)| < M64 / 2 {
      SmNamesShort(dump, nameOf, fulls);
      OrdinaryChunks(chunks, AllRuns(SmListings(dump)), fulls);
      SucceedsIff(chunks, max);
      SucceedsWithin(chunks, max);
    }
    if files.Ok? {
      RunsReadBack(chunks, AllRuns(SmListings(dump)), max, files.value);
    }
  }

  // --- The binary dump: tools/jscdump2elf.py ---

  datatype Rec = Rec(addr: nat, name: Text, data: seq<Byte>)

  const MAGIC: seq<Byte> := [74, 83, 67, 65]                 // "JSCA"

  function RecFields(addr: nat, size: nat, namelen: nat): seq<(nat, nat)> {
    [(addr, 8), (size, 4), (namelen, 4)]
  }

  predicate RecFits(r: Rec) {
    r.addr < 0x1_0000_0000_0000_0000 && |r.data| < 0x1_0000_0000 && |r.name| < 0x1_0000_0000
  }

  function RecHeader(r: Rec): (s: seq<Byte>)
    requires RecFits(r)
    ensures |s| == 16
  {
    RecPackable(r);
    PackAll(RecFields(r.addr, |r.data|, |r.name|))
  }

  lemma RecPackable(r: Rec)
    requires RecFits(r)
    ensures var f := RecFields(r.addr, |r.data|, |r.name|);
            Packable(f) && SizeTo(f, 1) == 8 && SizeTo(f, 2) == 12 && SizeTo(f, 3) == 16
  {
    Bounds();
    var f := RecFields(r.addr, |r.data|, |r.name|);
    assert SizeTo(f, 0) == 0 && SizeTo(f, 1) == 8 && SizeTo(f, 2) == 12 && SizeTo(f, 3) == 16;
  }

  /** One record as the engine writes it. */
  function RecBytes(r: Rec): (s: seq<Byte>)
    requires RecFits(r)
    ensures |s| == 20 + |r.name| + |r.data|
  {
    [74, 83, 67, 65] + RecHeader(r) + r.name + r.data
  }

  /** The record at the front of the bytes, or None when they are not a
      complete record. */
  function ParseRec(s: seq<Byte>): (r: Option<(Rec, seq<Byte>)>)
    ensures r.Some? ==> |r.value.1| < |s| && r.value.1 == s[|s| - |r.value.1|..]
  {
    if Slice(s, 0, 4) != MAGIC || |s| < 20 then None
    else
      var addr, size, namelen := Unpack(Slice(s, 4, 8)), Unpack(Slice(s, 12, 4)), Unpack(Slice(s, 16, 4));
      var end := 20 + namelen + size;
      if end > |s| then None
      else Some((Rec(addr, s[20..20 + namelen], s[20 + namelen..end]), s[end..]))
  }

  /** The complete records from the front, and how many bytes are left. */
  function ParseRecs(s: seq<Byte>): (seq<Rec>, nat)
    decreases |s|
  {
    if s == [] then ([], 0)
    else
      match ParseRec(s)
      case None => ([], |s|)
      case Some((r, rest)) =>
        var (more, left) := ParseRecs(rest);
        ([r] + more, left)
  }

  /** What becomes a chunk: whole words, and some. */
  predicate WholeRec(r: Rec) {
    r.data != [] && |r.data| % 4 == 0
  }

  function Kept(recs: seq<Rec>): seq<Rec> {
    if recs == [] then []
    else if WholeRec(recs[|recs| - 1]) then Kept(recs[..|recs| - 1]) + [recs[|recs| - 1]]
    else Kept(recs[..|recs| - 1])
  }

  ghost predicate ChunksOf(chunks: seq<Chunk>, recs: seq<Rec>) {
    |chunks| == |recs| && forall i | 0 <= i < |chunks| ::
      chunks[i].addr == recs[i].addr && chunks[i].data == recs[i].data
  }

  lemma KeptOfOneMore(done: seq<Rec>, r: Rec)
    ensures Kept(done + [r]) == if WholeRec(r) then Kept(done) + [r] else Kept(done)
  {
    assert (done + [r])[..|done|] == done;
  }

  lemma ParseRecsStep(s: seq<Byte>, done: seq<Rec>, all: seq<Rec>)
    requires s != [] && done + ParseRecs(s).0 == all
    ensures ParseRec(s).None? ==> ParseRecs(s).1 == |s| && done == all
    ensures ParseRec(s).Some? ==>
      var (r, rest) := ParseRec(s).value;
      ParseRecs(s).1 == ParseRecs(rest).1 && (done + [r]) + ParseRecs(rest).0 == all
  {
    hide ParseRec;
    if ParseRec(s).Some? {
      var (r, rest) := ParseRec(s).value;
      Advance(done, [r], ParseRecs(rest).0);
    } else {
      Finished(done);
    }
  }

  /** Each chunk is named after its own record. */
  ghost predicate JscNamesAre(recs: seq<Rec>, nameOf: Text -> Text, fulls: seq<Text>) {
    |fulls| == |recs| && forall i | 0 <= i < |fulls| :: fulls[i] == nameOf(recs[i].name)
  }

  ghost predicate JscShort(nameOf: Text -> Text) {
    forall name :: |nameOf(name)| + 21 <= MAX_NAME
  }

  lemma JscNamesShort(recs: seq<Rec>, nameOf: Text -> Text, fulls: seq<Text>)
    requires JscShort(nameOf) && JscNamesAre(recs, nameOf, fulls)
    ensures forall i | 0 <= i < |fulls| :: |fulls[i]| + 21 <= MAX_NAME
  {
  }

  /** The loop over the blob: a cursor, a name count and the chunks so far. */
  method ParseJsc(blob: seq<Byte>, nameOf: Text -> Text)
    returns (chunks: seq<Chunk>, truncated: nat, ghost fulls: seq<Text>)
    ensures ChunksOf(chunks, Kept(ParseRecs(blob).0)) && truncated == ParseRecs(blob).1
    ensures Named(chunks, fulls) && JscNamesAre(Kept(ParseRecs(blob).0), nameOf, fulls)
  {
    hide ParseRec, ParseRecs, Kept, NumberedName, CountName, SeenAfter, Named;
    chunks, truncated, fulls := [], 0, [];
    NothingNamed();
    var off: nat := 0;
    var seen: map<Text, nat> := map[];
    ghost var all := ParseRecs(blob).0;
    ghost var done: seq<Rec> := [];
    NothingKept();
    assert blob[0..] == blob && done + all == all;
    while off < |blob|
      invariant 0 <= off <= |blob| && truncated == 0
      invariant done + ParseRecs(blob[off..]).0 == all
      invariant ParseRecs(blob[off..]).1 == ParseRecs(blob).1
      invariant ChunksOf(chunks, Kept(done))
      invariant seen == SeenAfter(fulls) && Named(chunks, fulls) && JscNamesAre(Kept(done), nameOf, fulls)
      decreases |blob| - off
    {
      ParseRecsStep(blob[off..], done, all);
      var rec := ParseRec(blob[off..]);
      if rec.None? {
        truncated := |blob| - off;
        return;
      }
      var (r, rest) := rec.value;
      KeptOfOneMore(done, r);
      done := done + [r];
      assert blob[off..][|blob[off..]| - |rest|..] == blob[|blob| - |rest|..];
      off := |blob| - |rest|;
      if |r.data| == 0 || |r.data| % 4 != 0 {
        continue;
      }
      var full := nameOf(r.name);
      NamedNext(chunks, fulls, Chunk(NumberedName(seen, full), r.addr, r.data), full);
      chunks := chunks + [Chunk(NumberedName(seen, full), r.addr, r.data)];
      seen := CountName(seen, full);
      fulls := fulls + [full];
    }
    assert blob[off..] == [];
    NothingParsed(done, all);
  }

  lemma NothingNamed()
    ensures SeenAfter([]) == map[] && Named([], [])
  {}

  lemma NothingKept()
    ensures Kept([]) == []
  {}

  lemma NothingParsed(done: seq<Rec>, all: seq<Rec>)
    requires done + ParseRecs([]).0 == all
    ensures done == all && ParseRecs([]).1 == 0
  {
    assert done + [] == done;
  }

  function RecsBytes(recs: seq<Rec>): seq<Byte>
    requires forall i | 0 <= i < |recs| :: RecFits(recs[i])
  {
    if recs == [] then [] else RecBytes(recs[0]) + RecsBytes(recs[1..])
  }

  lemma RecHeaderFields(r: Rec, s: seq<Byte>)
    requires RecFits(r) && |s| >= 20 && s[4..20] == RecHeader(r)
    ensures Unpack(Slice(s, 4, 8)) == r.addr && Unpack(Slice(s, 12, 4)) == |r.data|
    ensures Unpack(Slice(s, 16, 4)) == |r.name|
  {
    hide Pack, Unpack, PackAll, SizeTo, RecHeader;
    RecPackable(r);
    var f := RecFields(r.addr, |r.data|, |r.name|);
    assert RecHeader(r) == PackAll(f) by {
      HeaderIs(r);
    }
    assert Slice(s, 4, 16) == s[4..20];
    assert SizeTo(f, 0) == 0 by {
      SizeOfNone(f);
    }
    FieldAt(f, 0);
    FieldAt(f, 1);
    FieldAt(f, 2);
    SliceOfSlice(s, 4, 16, 0, 8);
    SliceOfSlice(s, 4, 16, 8, 4);
    SliceOfSlice(s, 4, 16, 12, 4);
    PackRoundTrip(r.addr, 8);
    PackRoundTrip(|r.data|, 4);
    PackRoundTrip(|r.name|, 4);
  }

  lemma HeaderIs(r: Rec)
    requires RecFits(r)
    ensures Packable(RecFields(r.addr, |r.data|, |r.name|))
    ensures RecHeader(r) == PackAll(RecFields(r.addr, |r.data|, |r.name|))
  {
    hide Pack, PackTo;
    RecPackable(r);
  }

  lemma SizeOfNone(f: seq<(nat, nat)>)
    ensures SizeTo(f, 0) == 0
  {
  }

  lemma RecReadBack(r: Rec, tail: seq<Byte>)
    requires RecFits(r)
    ensures ParseRec(RecBytes(r) + tail) == Some((r, tail))
  {
    hide RecHeader, Unpack;
    var s := RecBytes(r) + tail;
    assert s[4..20] == RecHeader(r);
    RecHeaderFields(r, s);
    assert Slice(s, 0, 4) == s[0..4] == MAGIC;
    var n := 20 + |r.name|;
    assert s[20..n] == r.name && s[n..n + |r.data|] == r.data && s[n + |r.data|..] == tail;
  }

  /** Every complete record is read back, in order; a tail that is not a record
      is only counted. */
  lemma {:induction false} RecsReadBack(recs: seq<Rec>, tail: seq<Byte>)
    requires forall i | 0 <= i < |recs| :: RecFits(recs[i])
    requires tail == [] || ParseRec(tail).None?
    ensures ParseRecs(RecsBytes(recs) + tail) == (recs, |tail|)
  {
    hide ParseRec, RecBytes;
    if recs == [] {
      assert RecsBytes(recs) + tail == tail;
    } else {
      var rest := RecsBytes(recs[1..]) + tail;
      assert RecsBytes(recs) + tail == RecBytes(recs[0]) + rest;
      RecReadBack(recs[0], rest);
      RecsReadBack(recs[1..], tail);
      assert [recs[0]] + recs[1..] == recs;
    }
  }

  function PartsOfRecs(recs: seq<Rec>): seq<(nat, seq<Byte>)> {
    if recs == [] then []
    else PartsOfRecs(recs[..|recs| - 1]) + [(recs[|recs| - 1].addr, recs[|recs| - 1].data)]
  }

  lemma {:induction false} ExpectedRecs(chunks: seq<Chunk>, recs: seq<Rec>)
    requires ChunksOf(chunks, recs) && forall i | 0 <= i < |recs| :: WholeRec(recs[i])
    ensures Expected(chunks) == PartsOfRecs(recs)
  {
    if chunks != [] {
      var n := |chunks| - 1;
      ExpectedRecs(chunks[..n], recs[..n]);
      assert WholeRec(recs[n]);
      var d := chunks[n].data;
      assert d[..|d|] == d;
    }
  }

  lemma {:induction false} KeptAreWhole(recs: seq<Rec>)
    ensures forall i | 0 <= i < |Kept(recs)| :: WholeRec(Kept(recs)[i]) && Kept(recs)[i] in recs
  {
    if recs != [] {
      KeptAreWhole(recs[..|recs| - 1]);
    }
  }

  lemma RecChunks(chunks: seq<Chunk>, recs: seq<Rec>, fulls: seq<Text>)
    requires ChunksOf(chunks, recs) && forall i | 0 <= i < |recs| :: WholeRec(recs[i]) && RecFits(recs[i])
    requires Named(chunks, fulls) && forall i | 0 <= i < |fulls| :: |fulls[i]| + 21 <= MAX_NAME
    requires Size(chunks) < M64 / 2
    ensures ShortNames(chunks) && Addressable(chunks)
  {
    hide Named, Size;
    FewChunks(chunks);
    NamesShort(chunks, fulls, MAX_NAME - 21);
  }

  /** The whole way for a binary dump: the records of whole words, each its own
      section, whatever partial record follows them. */
  method JscRoundTrip(recs: seq<Rec>, tail: seq<Byte>, nameOf: Text -> Text, max: int)
    returns (chunks: seq<Chunk>, files: Result<seq<seq<Byte>>>, status: nat)
    requires forall i | 0 <= i < |recs| :: RecFits(recs[i])
    requires tail == [] || ParseRec(tail).None?
    ensures files.Ok? <==> Outputs(chunks, max).Some? && AllFit(Outputs(chunks, max).value)
    ensures ChunksOf(chunks, Kept(recs))
    ensures JscShort(nameOf) && Size(chunks) < M64 / 2 ==> (files.Ok? <==> Succeeds(chunks, max))
    ensures JscShort(nameOf) && Size(chunks) < M64 / 2 && 1 <= max <= MAX_CHUNKS ==> files.Ok?
    ensures files.Ok? ==> (ReadAll(files.value) == Some(PartsOfRecs(Kept(recs))) <==> max >= 1 || Kept(recs) == [])
    ensures files.Ok? ==> status == if Kept(recs) == [] then 1 else 0
  {
    hide RecsBytes, ParseRecs, ParseRec, Kept, Split, AllFit, Image, ReadAll, Expected, Named, Addressable, ShortNames,
      Size, Succeeds;
    ghost var fulls;
    var truncated;
    chunks, truncated, fulls := ParseJsc(RecsBytes(recs) + tail, nameOf);
    RecsReadBack(recs, tail);
    files, status := Convert(chunks, max);
    KeptAreWhole(recs);
    if JscShort(nameOf) && Size(chunks) < M64 / 2 {
      JscNamesShort(Kept(recs), nameOf, fulls);
      RecChunks(chunks, Kept(recs), fulls);
      SucceedsIff(chunks, max);
      SucceedsWithin(chunks, max);
    }
    if files.Ok? {
      FilesReadBack(Outputs(chunks, max).value, files.value);
      OutputsJoin(chunks, max);
      ExpectedRecs(chunks, Kept(recs));
      NothingExpected();
    }
  }
}
