/**
 The two listing parsers, tools/v8dump2elf.py and tools/smdump2elf.py, over
 lines already classified by their regular expressions.
 */
module DumpParsers {
  import opened Widths
  import opened ElfObject
  import opened DumpChunks

  // --- V8: header fields, then a listing that anything else ends ---

  datatype Line =
    | InsnLine(x: Insn)
    | Blank                                // empty, or a ;; comment
    | Boundary                             // starts with "--- "
    | NameField(text: Text)
    | KindField(text: Text)
    | CompilerField
    | Instructions                         // opens a listing
    | Other

  /** After these lines the parser is inside a listing. */
  function InCode(lines: seq<Line>): bool {
    if lines == [] then false
    else
      var last := lines[|lines| - 1];
      last.Instructions? || (InCode(lines[..|lines| - 1]) && (last.InsnLine? || last.Blank?))
  }

  /** The listings of a dump; the last is still open. */
  function V8Listings(lines: seq<Line>): (r: seq<seq<Insn>>)
    ensures |r| > 0
  {
    if lines == [] then [[]]
    else
      var init, last := lines[..|lines| - 1], lines[|lines| - 1];
      var before := V8Listings(init);
      if !InCode(init) || last.Blank? then before
      else if last.InsnLine? then Append(before, last.x)
      else before + [[]]
  }

  /** The instruction lines inside listings. */
  function V8Accepted(lines: seq<Line>): seq<Insn> {
    if lines == [] then []
    else
      var init, last := lines[..|lines| - 1], lines[|lines| - 1];
      if InCode(init) && last.InsnLine? then V8Accepted(init) + [last.x] else V8Accepted(init)
  }

  lemma ConcatAppend(listings: seq<seq<Insn>>, x: Insn)
    requires |listings| > 0
    ensures Concat(Append(listings, x)) == Concat(listings) + [x]
    ensures Concat(listings + [[]]) == Concat(listings)
  {
    var n := |listings| - 1;
    assert Append(listings, x)[..n] == listings[..n];
    assert (listings + [[]])[..n + 1] == listings;
  }

  lemma {:induction false} V8Concat(lines: seq<Line>)
    ensures Concat(V8Listings(lines)) == V8Accepted(lines)
  {
    if lines == [] {
      assert V8Listings(lines)[..0] == [];
    } else {
      var init, last := lines[..|lines| - 1], lines[|lines| - 1];
      V8Concat(init);
      ConcatAppend(V8Listings(init), if last.InsnLine? then last.x else Insn(0, 0));
    }
  }

  lemma V8Step(lines: seq<Line>, line: Line)
    ensures InCode(lines + [line])
            == (line.Instructions? || (InCode(lines) && (line.InsnLine? || line.Blank?)))
    ensures V8Listings(lines + [line])
            == if !InCode(lines) || line.Blank? then V8Listings(lines)
               else if line.InsnLine? then Append(V8Listings(lines), line.x)
               else V8Listings(lines) + [[]]
  {
    assert (lines + [line])[..|lines|] == lines;
  }

  /** Inside a listing: an Instructions line, and nothing since but instructions
      and blanks. */
  lemma {:induction false} InCodeIff(lines: seq<Line>)
    ensures InCode(lines) <==>
            exists p :: 0 <= p < |lines| && lines[p].Instructions?
                        && forall r | p < r < |lines| :: lines[r].InsnLine? || lines[r].Blank?
  {
    if lines != [] {
      InCodeIff(lines[..|lines| - 1]);
    }
  }

  // What names a chunk: the header lines before it.

  /** The text of the last kind line since the last boundary, or nothing. */
  function KindAt(lines: seq<Line>): Text {
    if lines == [] then []
    else
      match lines[|lines| - 1]
      case KindField(text) => text
      case Boundary => []
      case _ => KindAt(lines[..|lines| - 1])
  }

  function NameAt(lines: seq<Line>): Text {
    if lines == [] then []
    else
      match lines[|lines| - 1]
      case NameField(text) => text
      case Boundary => []
      case _ => NameAt(lines[..|lines| - 1])
  }

  /** The line at P is a kind line saying K, and none after it is a kind line or
      a boundary. */
  predicate LastKind(lines: seq<Line>, p: nat, k: Text) {
    && p < |lines| && lines[p] == KindField(k)
    && forall r | p < r < |lines| :: !lines[r].KindField? && !lines[r].Boundary?
  }

  predicate LastName(lines: seq<Line>, p: nat, n: Text) {
    && p < |lines| && lines[p] == NameField(n)
    && forall r | p < r < |lines| :: !lines[r].NameField? && !lines[r].Boundary?
  }

  /** The kind in force is that of the last kind line, if no boundary follows
      it, and else nothing; so is the name. */
  lemma {:induction false} HeaderMeaning(lines: seq<Line>)
    ensures forall p: nat, k | LastKind(lines, p, k) :: KindAt(lines) == k
    ensures (forall p: nat, k :: !LastKind(lines, p, k)) ==> KindAt(lines) == []
    ensures forall p: nat, n | LastName(lines, p, n) :: NameAt(lines) == n
    ensures (forall p: nat, n :: !LastName(lines, p, n)) ==> NameAt(lines) == []
  {
    if lines != [] {
      hide LastKind, LastName;
      var init, last := lines[..|lines| - 1], lines[|lines| - 1];
      assert lines == init + [last];
      HeaderMeaning(init);
      HeaderNext(init, last);
      if last.KindField? {
        assert LastKind(lines, |init|, last.text);
      } else if last.NameField? {
        assert LastName(lines, |init|, last.text);
      }
    }
  }

  lemma HeaderNext(init: seq<Line>, last: Line)
    ensures forall p: nat, k :: LastKind(init + [last], p, k)
              <==> if p == |init| then last == KindField(k)
                   else LastKind(init, p, k) && !last.KindField? && !last.Boundary?
    ensures forall p: nat, n :: LastName(init + [last], p, n)
              <==> if p == |init| then last == NameField(n)
                   else LastName(init, p, n) && !last.NameField? && !last.Boundary?
    ensures forall p: nat, k :: LastKind(init, p, k) ==> p < |init|
    ensures forall p: nat, n :: LastName(init, p, n) ==> p < |init|
  {
    var lines := init + [last];
    forall p: nat, k ensures LastKind(lines, p, k)
                             <==> if p == |init| then last == KindField(k)
                                  else LastKind(init, p, k) && !last.KindField? && !last.Boundary?
    {
      if p < |init| {
        assert lines[|init|] == last;
        assert forall r | p < r < |init| :: lines[r] == init[r];
      }
    }
    forall p: nat, n ensures LastName(lines, p, n)
                             <==> if p == |init| then last == NameField(n)
                                  else LastName(init, p, n) && !last.NameField? && !last.Boundary?
    {
      if p < |init| {
        assert lines[|init|] == last;
        assert forall r | p < r < |init| :: lines[r] == init[r];
      }
    }
  }

  predicate AscendingBelow(qs: seq<nat>, n: nat) {
    && (forall i, j | 0 <= i < j < |qs| :: qs[i] < qs[j])
    && forall i | 0 <= i < |qs| :: qs[i] < n
  }

  lemma AscendingNext(qs: seq<nat>, n: nat)
    requires AscendingBelow(qs, n)
    ensures AscendingBelow(qs, n + 1) && AscendingBelow(qs + [n], n + 1)
  {}

  /** After the lines BEFORE, the line is an instruction of a listing that opens
      a chunk. */
  predicate V8Begins(before: seq<Line>, line: Line) {
    line.InsnLine? && InCode(before) && Opens(V8Listings(before), line.x)
  }

  /** The line at Q opens a chunk. */
  predicate V8Opens(lines: seq<Line>, q: nat) {
    q < |lines| && V8Begins(lines[..q], lines[q])
  }

  /** The lines that open chunks, in order. */
  function V8Openings(lines: seq<Line>): seq<nat> {
    if lines == [] then []
    else
      var n := |lines| - 1;
      V8Openings(lines[..n]) + if V8Opens(lines, n) then [n] else []
  }

  lemma {:induction false} V8OpeningsAre(lines: seq<Line>)
    ensures forall q: nat :: q in V8Openings(lines) <==> V8Opens(lines, q)
    ensures AscendingBelow(V8Openings(lines), |lines|)
  {
    if lines != [] {
      hide V8Begins, AscendingBelow;
      var n := |lines| - 1;
      V8OpeningsAre(lines[..n]);
      AscendingNext(V8Openings(lines[..n]), n);
      assert V8Openings(lines) == V8Openings(lines[..n]) + if V8Opens(lines, n) then [n] else [];
      forall q: nat | q < n ensures V8Opens(lines[..n], q) <==> V8Opens(lines, q) {
        assert lines[..n][..q] == lines[..q];
      }
    }
  }

  /** The chunk opened at line Q is named after the kind and the name in force
      there. */
  predicate V8NamedAt(lines: seq<Line>, nameOf: (Text, Text) -> Text, q: nat, full: Text) {
    q < |lines| && full == nameOf(KindAt(lines[..q]), NameAt(lines[..q]))
  }

  /** One name for each line that opens a chunk. */
  ghost predicate V8NamesAre(lines: seq<Line>, nameOf: (Text, Text) -> Text, fulls: seq<Text>) {
    && |fulls| == |V8Openings(lines)|
    && forall i | 0 <= i < |fulls| :: V8NamedAt(lines, nameOf, V8Openings(lines)[i], fulls[i])
  }

  lemma V8OpeningsNext(lines: seq<Line>, line: Line)
    ensures V8Openings(lines + [line]) == V8Openings(lines) + if V8Begins(lines, line) then [|lines|] else []
  {
    hide V8Begins;
    assert (lines + [line])[..|lines|] == lines;
  }

  lemma V8NamedStays(lines: seq<Line>, line: Line, nameOf: (Text, Text) -> Text, q: nat, full: Text)
    requires V8NamedAt(lines, nameOf, q, full)
    ensures V8NamedAt(lines + [line], nameOf, q, full)
  {
    hide KindAt, NameAt;
    assert (lines + [line])[..q] == lines[..q];
  }

  lemma V8NamedLast(lines: seq<Line>, line: Line, nameOf: (Text, Text) -> Text)
    ensures V8NamedAt(lines + [line], nameOf, |lines|, nameOf(KindAt(lines), NameAt(lines)))
  {
    hide KindAt, NameAt;
    assert (lines + [line])[..|lines|] == lines;
  }

  lemma V8NamesNext(lines: seq<Line>, line: Line, nameOf: (Text, Text) -> Text,
                    fulls: seq<Text>, after: seq<Text>)
    requires V8NamesAre(lines, nameOf, fulls)
    requires after == if V8Begins(lines, line) then fulls + [nameOf(KindAt(lines), NameAt(lines))] else fulls
    ensures V8NamesAre(lines + [line], nameOf, after)
  {
    hide KindAt, NameAt, V8Begins, V8Opens, V8Openings, V8NamedAt;
    var qs := V8Openings(lines);
    V8OpeningsNext(lines, line);
    forall i | 0 <= i < |fulls| ensures V8NamedAt(lines + [line], nameOf, qs[i], after[i]) {
      V8NamedStays(lines, line, nameOf, qs[i], fulls[i]);
    }
    if V8Begins(lines, line) {
      V8NamedLast(lines, line, nameOf);
    }
  }

  lemma V8HeaderStep(lines: seq<Line>, line: Line)
    ensures KindAt(lines + [line]) == match line case KindField(t) => t case Boundary => [] case _ => KindAt(lines)
    ensures NameAt(lines + [line]) == match line case NameField(t) => t case Boundary => [] case _ => NameAt(lines)
  {
    assert (lines + [line])[..|lines|] == lines;
  }

  class V8Parser {
    const builder: Builder
    const nameOf: (Text, Text) -> Text
    var name: Text
    var kind: Text
    var inCode: bool
    ghost var lines: seq<Line>

    ghost predicate Valid()
      reads this, builder
    {
      && builder.Valid() && builder.listings == V8Listings(lines)
      && inCode == InCode(lines) && (!inCode ==> builder.cur.None?)
      && kind == KindAt(lines) && name == NameAt(lines) && V8NamesAre(lines, nameOf, builder.fulls)
    }

    constructor (nameOf: (Text, Text) -> Text)
      ensures Valid() && fresh(builder) && lines == [] && this.nameOf == nameOf
    {
      builder := new Builder();
      this.nameOf := nameOf;
      name, kind, inCode, lines := [], [], false, [];
    }

    /** One line of the dump. */
    method Feed(line: Line)
      requires Valid()
      modifies this, builder
      ensures Valid() && lines == old(lines) + [line]
    {
      hide Builder.Valid, V8Listings, InCode, Append, KindAt, NameAt, V8NamesAre, Opens;
      V8Step(lines, line);
      V8HeaderStep(lines, line);
      V8NamesNext(lines, line, nameOf, builder.fulls,
                  if V8Begins(lines, line)
                  then builder.fulls + [nameOf(KindAt(lines), NameAt(lines))] else builder.fulls);
      lines := lines + [line];
      if inCode {
        if line.InsnLine? {
          builder.Add(line.x, nameOf(kind, name));
          return;
        }
        if line.Blank? {
          return;
        }
        builder.Flush();
        inCode := false;
      }
      match line
      case Boundary =>
        name, kind := [], [];
      case NameField(text) =>
        name := text;
      case KindField(text) =>
        kind := text;
      case Instructions =>
        inCode := true;
      case _ =>
    }

    /** The end of the dump: what is open is finished. */
    method Finish() returns (chunks: seq<Chunk>)
      requires Valid()
      ensures HoldAll(chunks, AllRuns(V8Listings(lines)))
      ensures forall i | 0 <= i < |chunks| :: chunks[i].data != []
      ensures Named(chunks, builder.fulls)
    {
      chunks := builder.chunks;
      if builder.cur.Some? {
        chunks := chunks + [builder.cur.value];
      }
    }
  }

  lemma NamesV8(p: V8Parser)
    requires p.Valid()
    ensures V8NamesAre(p.lines, p.nameOf, p.builder.fulls)
  {
  }

  method ParseV8(dump: seq<Line>, nameOf: (Text, Text) -> Text)
    returns (chunks: seq<Chunk>, ghost fulls: seq<Text>)
    ensures HoldAll(chunks, AllRuns(V8Listings(dump)))
    ensures forall i | 0 <= i < |chunks| :: chunks[i].data != []
    ensures Named(chunks, fulls) && V8NamesAre(dump, nameOf, fulls)
  {
    hide Builder.Valid, V8Listings, InCode, AllRuns, HoldAll, V8Parser.Valid, V8NamesAre, Named;
    var p := new V8Parser(nameOf);
    for i := 0 to |dump|
      invariant p.Valid() && fresh(p) && fresh(p.builder) && p.nameOf == nameOf && p.lines == dump[..i]
    {
      p.Feed(dump[i]);
      assert dump[..i] + [dump[i]] == dump[..i + 1];
    }
    assert dump[..|dump|] == dump;
    NamesV8(p);
    fulls := p.builder.fulls;
    chunks := p.Finish();
  }

  // --- SpiderMonkey: offsets from the last header's base ---

  datatype SmLine = SmInsn(offset: nat, word: Word) | SmHeader(kind: Text, base: nat) | SmOther

  function SmBase(lines: seq<SmLine>): nat {
    if lines == [] then 0
    else
      match lines[|lines| - 1]
      case SmHeader(_, base) => base
      case _ => SmBase(lines[..|lines| - 1])
  }

  function SmListings(lines: seq<SmLine>): (r: seq<seq<Insn>>)
    ensures |r| > 0
  {
    if lines == [] then [[]]
    else
      var init := lines[..|lines| - 1];
      match lines[|lines| - 1]
      case SmInsn(offset, word) => Append(SmListings(init), Insn(SmBase(init) + offset, word))
      case SmHeader(_, _) => SmListings(init) + [[]]
      case SmOther => SmListings(init)
  }

  /** Every instruction line, at its header's base plus its offset. */
  function SmAccepted(lines: seq<SmLine>): seq<Insn> {
    if lines == [] then []
    else
      var init := lines[..|lines| - 1];
      match lines[|lines| - 1]
      case SmInsn(offset, word) => SmAccepted(init) + [Insn(SmBase(init) + offset, word)]
      case _ => SmAccepted(init)
  }

  lemma {:induction false} SmConcat(lines: seq<SmLine>)
    ensures Concat(SmListings(lines)) == SmAccepted(lines)
  {
    if lines == [] {
      assert SmListings(lines)[..0] == [];
    } else {
      var init, last := lines[..|lines| - 1], lines[|lines| - 1];
      SmConcat(init);
      ConcatAppend(SmListings(init),
                   if last.SmInsn? then Insn(SmBase(init) + last.offset, last.word) else Insn(0, 0));
    }
  }

  lemma SmStep(lines: seq<SmLine>, line: SmLine)
    ensures SmBase(lines + [line]) == if line.SmHeader? then line.base else SmBase(lines)
    ensures SmListings(lines + [line])
            == match line
               case SmInsn(offset, word) => Append(SmListings(lines), Insn(SmBase(lines) + offset, word))
               case SmHeader(_, _) => SmListings(lines) + [[]]
               case SmOther => SmListings(lines)
  {
    assert (lines + [line])[..|lines|] == lines;
  }

  /** The kind of the last header, or nothing. */
  function SmKind(lines: seq<SmLine>): Text {
    if lines == [] then []
    else
      match lines[|lines| - 1]
      case SmHeader(kind, _) => kind
      case _ => SmKind(lines[..|lines| - 1])
  }

  predicate LastHeader(lines: seq<SmLine>, p: nat, kind: Text, base: nat) {
    && p < |lines| && lines[p] == SmHeader(kind, base)
    && forall r | p < r < |lines| :: !lines[r].SmHeader?
  }

  /** Kind and base are the last header's. */
  lemma {:induction false} SmHeaderMeaning(lines: seq<SmLine>, kind: Text, base: nat)
    ensures SmKind(lines) == kind && SmBase(lines) == base <==>
            if exists p :: 0 <= p < |lines| && lines[p].SmHeader? then exists p :: LastHeader(lines, p, kind, base)
            else kind == [] && base == 0
  {
    if lines != [] {
      var init, last := lines[..|lines| - 1], lines[|lines| - 1];
      SmHeaderMeaning(init, kind, base);
      if last.SmHeader? {
        if SmKind(lines) == kind && SmBase(lines) == base {
          assert LastHeader(lines, |lines| - 1, kind, base);
        }
      } else {
        forall p: nat ensures LastHeader(lines, p, kind, base) <==> LastHeader(init, p, kind, base) {}
      }
    }
  }

  predicate SmBegins(before: seq<SmLine>, line: SmLine) {
    line.SmInsn? && Opens(SmListings(before), Insn(SmBase(before) + line.offset, line.word))
  }

  predicate SmOpens(lines: seq<SmLine>, q: nat) {
    q < |lines| && SmBegins(lines[..q], lines[q])
  }

  function SmOpenings(lines: seq<SmLine>): seq<nat> {
    if lines == [] then []
    else
      var n := |lines| - 1;
      SmOpenings(lines[..n]) + if SmOpens(lines, n) then [n] else []
  }

  lemma {:induction false} SmOpeningsAre(lines: seq<SmLine>)
    ensures forall q: nat :: q in SmOpenings(lines) <==> SmOpens(lines, q)
    ensures AscendingBelow(SmOpenings(lines), |lines|)
  {
    if lines != [] {
      hide SmBegins, AscendingBelow;
      var n := |lines| - 1;
      SmOpeningsAre(lines[..n]);
      AscendingNext(SmOpenings(lines[..n]), n);
      assert SmOpenings(lines) == SmOpenings(lines[..n]) + if SmOpens(lines, n) then [n] else [];
      forall q: nat | q < n ensures SmOpens(lines[..n], q) <==> SmOpens(lines, q) {
        assert lines[..n][..q] == lines[..q];
      }
    }
  }

  /** The chunk opened at line Q is named after the last header's kind and its
      own address. */
  predicate SmNamedAt(lines: seq<SmLine>, nameOf: (Text, nat) -> Text, q: nat, full: Text) {
    && q < |lines| && lines[q].SmInsn?
    && full == nameOf(SmKind(lines[..q]), SmBase(lines[..q]) + lines[q].offset)
  }

  ghost predicate SmNamesAre(lines: seq<SmLine>, nameOf: (Text, nat) -> Text, fulls: seq<Text>) {
    && |fulls| == |SmOpenings(lines)|
    && forall i | 0 <= i < |fulls| :: SmNamedAt(lines, nameOf, SmOpenings(lines)[i], fulls[i])
  }

  lemma SmOpeningsNext(lines: seq<SmLine>, line: SmLine)
    ensures SmOpenings(lines + [line]) == SmOpenings(lines) + if SmBegins(lines, line) then [|lines|] else []
  {
    hide SmBegins;
    assert (lines + [line])[..|lines|] == lines;
  }

  lemma SmNamedStays(lines: seq<SmLine>, line: SmLine, nameOf: (Text, nat) -> Text, q: nat, full: Text)
    requires SmNamedAt(lines, nameOf, q, full)
    ensures SmNamedAt(lines + [line], nameOf, q, full)
  {
    hide SmKind, SmBase;
    assert (lines + [line])[..q] == lines[..q];
  }

  lemma SmNamedLast(lines: seq<SmLine>, line: SmLine, nameOf: (Text, nat) -> Text)
    requires line.SmInsn?
    ensures SmNamedAt(lines + [line], nameOf, |lines|, nameOf(SmKind(lines), SmBase(lines) + line.offset))
  {
    hide SmKind, SmBase;
    var all := lines + [line];
    assert all[|lines|] == line;
    assert all[..|lines|] == lines;
  }

  lemma SmNamesNext(lines: seq<SmLine>, line: SmLine, nameOf: (Text, nat) -> Text,
                    fulls: seq<Text>, after: seq<Text>)
    requires SmNamesAre(lines, nameOf, fulls)
    requires after == if SmBegins(lines, line) then fulls + [nameOf(SmKind(lines), SmBase(lines) + line.offset)]
                      else fulls
    ensures SmNamesAre(lines + [line], nameOf, after)
  {
    hide SmKind, SmBase, SmListings, Opens, SmOpens, SmOpenings, SmNamedAt;
    var qs := SmOpenings(lines);
    SmOpeningsNext(lines, line);
    forall i | 0 <= i < |fulls| ensures SmNamedAt(lines + [line], nameOf, qs[i], after[i]) {
      SmNamedStays(lines, line, nameOf, qs[i], fulls[i]);
    }
    if SmBegins(lines, line) {
      SmNamedLast(lines, line, nameOf);
    }
  }

  lemma SmKindStep(lines: seq<SmLine>, line: SmLine)
    ensures SmKind(lines + [line]) == if line.SmHeader? then line.kind else SmKind(lines)
  {
    assert (lines + [line])[..|lines|] == lines;
  }

  class SmParser {
    const builder: Builder
    const nameOf: (Text, nat) -> Text
    var kind: Text
    var base: nat
    ghost var lines: seq<SmLine>

    ghost predicate Valid()
      reads this, builder
    {
      && builder.Valid() && builder.listings == SmListings(lines) && base == SmBase(lines) && kind == SmKind(lines)
      && SmNamesAre(lines, nameOf, builder.fulls)
    }

    constructor (nameOf: (Text, nat) -> Text)
      ensures Valid() && fresh(builder) && lines == [] && this.nameOf == nameOf
    {
      builder := new Builder();
      this.nameOf := nameOf;
      kind, base, lines := [], 0, [];
    }

    method Feed(line: SmLine)
      requires Valid()
      modifies this, builder
      ensures Valid() && lines == old(lines) + [line]
    {
      hide Builder.Valid, SmListings, SmBase, Append, SmKind, SmNamesAre, Opens;
      SmStep(lines, line);
      SmKindStep(lines, line);
      SmNamesNext(lines, line, nameOf, builder.fulls,
                  if SmBegins(lines, line)
                  then builder.fulls + [nameOf(SmKind(lines), SmBase(lines) + line.offset)] else builder.fulls);
      lines := lines + [line];
      match line
      case SmInsn(offset, word) =>
        var addr := base + offset;
        builder.Add(Insn(addr, word), nameOf(kind, addr));
      case SmHeader(k, b) =>
        builder.Flush();
        kind, base := k, b;
      case SmOther =>
    }

    method Finish() returns (chunks: seq<Chunk>)
      requires Valid()
      ensures HoldAll(chunks, AllRuns(SmListings(lines)))
      ensures forall i | 0 <= i < |chunks| :: chunks[i].data != []
      ensures Named(chunks, builder.fulls)
    {
      chunks := builder.chunks;
      if builder.cur.Some? {
        chunks := chunks + [builder.cur.value];
      }
    }
  }

  lemma NamesSm(p: SmParser)
    requires p.Valid()
    ensures SmNamesAre(p.lines, p.nameOf, p.builder.fulls)
  {
  }

  method ParseSm(dump: seq<SmLine>, nameOf: (Text, nat) -> Text)
    returns (chunks: seq<Chunk>, ghost fulls: seq<Text>)
    ensures HoldAll(chunks, AllRuns(SmListings(dump)))
    ensures forall i | 0 <= i < |chunks| :: chunks[i].data != []
    ensures Named(chunks, fulls) && SmNamesAre(dump, nameOf, fulls)
  {
    hide Builder.Valid, SmListings, SmBase, AllRuns, HoldAll, SmParser.Valid, SmNamesAre, Named;
    var p := new SmParser(nameOf);
    for i := 0 to |dump|
      invariant p.Valid() && fresh(p) && fresh(p.builder) && p.nameOf == nameOf && p.lines == dump[..i]
    {
      p.Feed(dump[i]);
      assert dump[..i] + [dump[i]] == dump[..i + 1];
    }
    assert dump[..|dump|] == dump;
    NamesSm(p);
    fulls := p.builder.fulls;
    chunks := p.Finish();
  }
}
