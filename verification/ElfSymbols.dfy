/**
 The names in the ELF objects the dump converters write: what a reader of the
 gABI's symbol and string tables finds for each chunk and each section.
 */
module ElfSymbols {
  import opened Options
  import opened Widths
  import opened ElfObject

  // --- A reader of names ---

  /** The bytes from AT up to a zero or the end. */
  function TextAt(buf: seq<Byte>, at: nat): seq<Byte>
    decreases |buf| - at
  {
    if at >= |buf| || buf[at] == 0 then [] else [buf[at]] + TextAt(buf, at + 1)
  }

  /** The text at NAME of the string table that section header I describes. */
  function TextIn(buf: seq<Byte>, shoff: nat, i: nat, name: nat): Option<seq<Byte>> {
    var typ, off := FieldOf(buf, shoff + 64 * i + 4, 4), FieldOf(buf, shoff + 64 * i + 0x18, 8);
    if typ != Some(3) || off.None? then None else Some(TextAt(buf, off.value + name))
  }

  datatype Symbol = Symbol(name: seq<Byte>, info: nat, section: nat, value: nat, size: nat)

  /** Entry K of the symbol table that section header I describes, its name
      from the string table that header links to. */
  function SymbolIn(buf: seq<Byte>, shoff: nat, i: nat, k: nat): Option<Symbol> {
    var h := shoff + 64 * i;
    var typ, off, link := FieldOf(buf, h + 4, 4), FieldOf(buf, h + 0x18, 8), FieldOf(buf, h + 0x28, 4);
    if typ != Some(2) || off.None? || link.None? then None
    else
      var at := off.value + 24 * k;
      var name, info, section := FieldOf(buf, at, 4), FieldOf(buf, at + 4, 1), FieldOf(buf, at + 6, 2);
      var value, size := FieldOf(buf, at + 8, 8), FieldOf(buf, at + 16, 8);
      if name.None? || info.None? || section.None? || value.None? || size.None? then None
      else
        match TextIn(buf, shoff, link.value, name.value)
        case None => None
        case Some(text) => Some(Symbol(text, info.value, section.value, value.value, size.value))
  }

  /** The name of section I, from the string table the file header names. */
  function SectionName(buf: seq<Byte>, i: nat): Option<seq<Byte>> {
    var shoff, names := FieldOf(buf, 0x28, 8), FieldOf(buf, 0x3E, 2);
    if shoff.None? || names.None? then None
    else
      match FieldOf(buf, shoff.value + 64 * i, 4)
      case None => None
      case Some(name) => TextIn(buf, shoff.value, names.value, name)
  }

  // --- Where the tables stand ---

  lemma {:induction false} TextStands(buf: seq<Byte>, at: nat, text: seq<Byte>)
    requires 0 !in text && at + |text| < |buf| && Slice(buf, at, |text| + 1) == text + [0]
    ensures TextAt(buf, at) == text
    decreases |text|
  {
    assert buf[at..at + |text| + 1] == text + [0];
    assert buf[at] == (text + [0])[0];
    if text != [] {
      assert buf[at + 1..at + |text| + 1] == buf[at..at + |text| + 1][1..] == text[1..] + [0];
      TextStands(buf, at + 1, text[1..]);
      assert text == [text[0]] + text[1..];
    }
  }

  lemma {:induction false} StrtabPrefix(chunks: seq<Chunk>, i: nat)
    requires i <= |chunks|
    ensures Strtab(chunks[..i]) <= Strtab(chunks)
    decreases |chunks|
  {
    var n := |chunks|;
    if i == n {
      assert chunks[..i] == chunks;
    } else {
      assert chunks[..n - 1][..i] == chunks[..i];
      StrtabPrefix(chunks[..n - 1], i);
    }
  }

  /** A chunk's name is where its symbol says, with a zero behind it. */
  lemma NameInStrtab(chunks: seq<Chunk>, i: nat)
    requires i < |chunks|
    ensures var at, name := |Strtab(chunks[..i])|, chunks[i].name;
            at + |name| < |Strtab(chunks)| && Slice(Strtab(chunks), at, |name| + 1) == name + [0]
  {
    hide Slice;
    var upto := chunks[..i + 1];
    var before, name := Strtab(chunks[..i]), chunks[i].name + [0];
    assert Strtab(upto) == before + name by {
      assert upto[..i] == chunks[..i] && upto[i] == chunks[i];
    }
    hide Strtab;
    StrtabPrefix(chunks, i + 1);
    SliceOfParts(before, name, []);
    assert before + name + [] == Strtab(upto);
    SliceOfPrefix(Strtab(upto), Strtab(chunks), |before|, |name|);
  }

  lemma {:induction false} SymbolsPrefix(chunks: seq<Chunk>, i: nat, n: nat)
    requires Fits(chunks) && i <= n <= |chunks|
    ensures Symbols(chunks, i) <= Symbols(chunks, n)
    decreases n
  {
    hide PackAll, SymbolFields;
    if i < n {
      SymbolPackable(chunks, n - 1);
      SymbolsPrefix(chunks, i, n - 1);
    }
  }

  lemma SymbolRow(chunks: seq<Chunk>, i: nat)
    requires Fits(chunks) && i < |chunks|
    ensures Packable(SymbolFields(chunks, i))
    ensures Slice(Symbols(chunks, |chunks|), 24 + 24 * i, 24) == PackAll(SymbolFields(chunks, i))
  {
    hide PackAll, SymbolFields, Slice, Fits;
    SymbolPackable(chunks, i);
    var before, row := Symbols(chunks, i), PackAll(SymbolFields(chunks, i));
    assert Symbols(chunks, i + 1) == before + row;
    hide Symbols;
    SymbolsPrefix(chunks, i + 1, |chunks|);
    SliceOfParts(before, row, []);
    assert before + row + [] == Symbols(chunks, i + 1);
    SliceOfPrefix(Symbols(chunks, i + 1), Symbols(chunks, |chunks|), 24 + 24 * i, 24);
  }

  /** The symbols, the names and the section names stand where the section
      headers say. */
  lemma TablesInImage(chunks: seq<Chunk>)
    requires Fits(chunks)
    ensures var buf := Image(chunks);
            && Slice(buf, SymtabOffset(chunks), SymtabSize(chunks)) == Symbols(chunks, |chunks|)
            && Slice(buf, StrtabOffset(chunks), |Strtab(chunks)|) == Strtab(chunks)
            && Slice(buf, ShstrtabOffset(chunks), |SHSTRTAB|) == SHSTRTAB
            && HeadersOffset(chunks) <= |buf|
  {
    hide FileHeader, Payload, Strtab, Symbols, Headers, Slice, SHSTRTAB;
    HeaderInImage(chunks);
    var front := FileHeader(chunks) + Payload(chunks);
    var symbols, names := Symbols(chunks, |chunks|), Strtab(chunks);
    var pad := Zeros(HeadersOffset(chunks) - ShstrtabOffset(chunks) - |SHSTRTAB|);
    var rest := pad + Headers(chunks, SectionCount(chunks));
    assert Image(chunks) == front + symbols + (names + SHSTRTAB + rest);
    assert Image(chunks) == front + symbols + names + (SHSTRTAB + rest);
    assert Image(chunks) == front + symbols + names + SHSTRTAB + rest;
    SliceOfParts(front, symbols, names + SHSTRTAB + rest);
    SliceOfParts(front + symbols, names, SHSTRTAB + rest);
    SliceOfParts(front + symbols + names, SHSTRTAB, rest);
  }

  // --- What the reader finds ---

  /** The section headers of the tables: types, places, links. */
  lemma TableHeaders(chunks: seq<Chunk>)
    requires Fits(chunks)
    ensures var buf, n, h := Image(chunks), |chunks|, HeadersOffset(chunks);
            && FieldOf(buf, h + 64 * (n + 1) + 4, 4) == Some(2)
            && FieldOf(buf, h + 64 * (n + 1) + 0x18, 8) == Some(SymtabOffset(chunks))
            && FieldOf(buf, h + 64 * (n + 1) + 0x20, 8) == Some(24 * (n + 1))
            && FieldOf(buf, h + 64 * (n + 1) + 0x28, 4) == Some(n + 2)
            && FieldOf(buf, h + 64 * (n + 1) + 0x2C, 4) == Some(n + 1)
            && FieldOf(buf, h + 64 * (n + 1) + 0x38, 8) == Some(24)
            && FieldOf(buf, h + 64 * (n + 2) + 4, 4) == Some(3)
            && FieldOf(buf, h + 64 * (n + 2) + 0x18, 8) == Some(StrtabOffset(chunks))
            && FieldOf(buf, h + 64 * (n + 3) + 4, 4) == Some(3)
            && FieldOf(buf, h + 64 * (n + 3) + 0x18, 8) == Some(ShstrtabOffset(chunks))
  {
    hide Image, HeadersOffset, SizeTo, SymtabOffset, StrtabOffset, ShstrtabOffset, FieldOf, Fits, Packable;
    var n := |chunks|;
    forall i: nat | n < i < n + 4 {
      SectionPackable(chunks, i);
    }
    SectionField(chunks, n + 1, 1);
    SectionField(chunks, n + 1, 4);
    SectionField(chunks, n + 1, 5);
    SectionField(chunks, n + 1, 6);
    SectionField(chunks, n + 1, 7);
    SectionField(chunks, n + 1, 9);
    SectionField(chunks, n + 2, 1);
    SectionField(chunks, n + 2, 4);
    SectionField(chunks, n + 3, 1);
    SectionField(chunks, n + 3, 4);
  }

  /** A chunk's header: allocated code at its address, word aligned. */
  lemma ChunkHeader(chunks: seq<Chunk>, i: nat)
    requires Fits(chunks) && i < |chunks|
    ensures var buf, h := Image(chunks), HeadersOffset(chunks) + 64 * (i + 1);
            && FieldOf(buf, h + 4, 4) == Some(1) && FieldOf(buf, h + 8, 8) == Some(6)
            && FieldOf(buf, h + 0x10, 8) == Some(chunks[i].addr)
            && FieldOf(buf, h + 0x18, 8) == Some(Offset(chunks, i))
            && FieldOf(buf, h + 0x20, 8) == Some(|chunks[i].data|) && FieldOf(buf, h + 0x30, 8) == Some(4)
  {
    hide Image, HeadersOffset, SizeTo, SymtabOffset, StrtabOffset, ShstrtabOffset, Offset, FieldOf, Fits, Packable;
    SectionPackable(chunks, i + 1);
    SectionField(chunks, i + 1, 1);
    SectionField(chunks, i + 1, 2);
    SectionField(chunks, i + 1, 3);
    SectionField(chunks, i + 1, 4);
    SectionField(chunks, i + 1, 5);
    SectionField(chunks, i + 1, 8);
  }

  /** A relocatable file for AArch64, version 1, without entry or program
      headers. */
  lemma FileIs(chunks: seq<Chunk>)
    requires Fits(chunks)
    ensures var buf := Image(chunks);
            && FieldOf(buf, 0x10, 2) == Some(1) && FieldOf(buf, 0x12, 2) == Some(183)
            && FieldOf(buf, 0x14, 4) == Some(1)
  {
    hide Image, HeadersOffset, SizeTo, FieldOf, PackAll, Slice, Packable;
    var f := FileFields(HeadersOffset(chunks), SectionCount(chunks));
    FilePackable(HeadersOffset(chunks), SectionCount(chunks));
    HeaderInImage(chunks);
    assert PackAll(f) == FileHeader(chunks);
    assert PackAll(f) + [] == PackAll(f);
    SliceOfParts([], PackAll(f), []);
    assert [] + PackAll(f) + [] == PackAll(f);
    SliceOfPrefix(PackAll(f), Image(chunks), 0, EHSIZE);
    FieldRead(Image(chunks), 0, f, 10);
    FieldRead(Image(chunks), 0, f, 11);
    FieldRead(Image(chunks), 0, f, 12);
  }

  /** A text of a table is read wherever the table stands. */
  lemma TextInTable(buf: seq<Byte>, off: nat, table: seq<Byte>, at: nat, text: seq<Byte>)
    requires off + |table| <= |buf| && Slice(buf, off, |table|) == table
    requires 0 !in text && at + |text| < |table| && Slice(table, at, |text| + 1) == text + [0]
    ensures TextAt(buf, off + at) == text
  {
    hide Slice;
    SliceOfSlice(buf, off, |table|, at, |text| + 1);
    TextStands(buf, off + at, text);
  }

  /** The fields of a symbol. */
  lemma SymbolFieldsRead(chunks: seq<Chunk>, i: nat)
    requires Fits(chunks) && i < |chunks|
    ensures var buf, at := Image(chunks), SymtabOffset(chunks) + 24 * (i + 1);
            && FieldOf(buf, at, 4) == Some(|Strtab(chunks[..i])|) && FieldOf(buf, at + 4, 1) == Some(2)
            && FieldOf(buf, at + 6, 2) == Some(i + 1) && FieldOf(buf, at + 8, 8) == Some(0)
            && FieldOf(buf, at + 16, 8) == Some(|chunks[i].data|)
  {
    hide Image, Symbols, Strtab, Slice, SymtabOffset, FieldOf, PackAll, HeadersOffset, Fits;
    var buf, at, f := Image(chunks), SymtabOffset(chunks) + 24 * (i + 1), SymbolFields(chunks, i);
    TablesInImage(chunks);
    TablesFit(chunks);
    SymbolRow(chunks, i);
    SliceOfSlice(buf, SymtabOffset(chunks), SymtabSize(chunks), 24 + 24 * i, 24);
    SymbolSizes(f);
    FieldRead(buf, at, f, 0);
    FieldRead(buf, at, f, 1);
    FieldRead(buf, at, f, 3);
    FieldRead(buf, at, f, 4);
    FieldRead(buf, at, f, 5);
  }

  lemma SymbolSizes(f: seq<(nat, nat)>)
    requires |f| == 6 && f[0].1 == 4 && f[1].1 == f[2].1 == 1 && f[3].1 == 2 && f[4].1 == f[5].1 == 8
    ensures SizeTo(f, 0) == 0 && SizeTo(f, 1) == 4 && SizeTo(f, 3) == 6 && SizeTo(f, 4) == 8
    ensures SizeTo(f, 5) == 16 && SizeTo(f, 6) == 24
  {
    assert SizeTo(f, 0) == 0 && SizeTo(f, 1) == 4 && SizeTo(f, 2) == 5 && SizeTo(f, 3) == 6;
    assert SizeTo(f, 4) == 8 && SizeTo(f, 5) == 16;
  }

  lemma TablesFit(chunks: seq<Chunk>)
    ensures SymtabOffset(chunks) + SymtabSize(chunks) == StrtabOffset(chunks)
    ensures StrtabOffset(chunks) + |Strtab(chunks)| == ShstrtabOffset(chunks)
    ensures ShstrtabOffset(chunks) + |SHSTRTAB| <= HeadersOffset(chunks)
  {}

  /** Symbol I + 1 of a written file is a local function with chunk I's name,
      in its section, at its start, of its size. */
  lemma SymbolRead(chunks: seq<Chunk>, i: nat)
    requires Fits(chunks) && i < |chunks| && 0 !in chunks[i].name
    ensures SymbolIn(Image(chunks), HeadersOffset(chunks), |chunks| + 1, i + 1)
            == Some(Symbol(chunks[i].name, 2, i + 1, 0, |chunks[i].data|))
  {
    hide Image, Strtab, Slice, FieldOf, SymtabOffset, StrtabOffset, ShstrtabOffset, HeadersOffset, TextAt, Fits;
    TableHeaders(chunks);
    SymbolFieldsRead(chunks, i);
    TablesInImage(chunks);
    TablesFit(chunks);
    NameInStrtab(chunks, i);
    TextInTable(Image(chunks), StrtabOffset(chunks), Strtab(chunks), |Strtab(chunks[..i])|, chunks[i].name);
  }

  const TEXT: seq<Byte> := [46, 116, 101, 120, 116]
  const SYMTAB: seq<Byte> := [46, 115, 121, 109, 116, 97, 98]
  const STRTAB: seq<Byte> := [46, 115, 116, 114, 116, 97, 98]
  const SHSTRTAB_NAME: seq<Byte> := [46, 115, 104, 115, 116, 114, 116, 97, 98]

  lemma SectionNames()
    ensures Slice(SHSTRTAB, 0, 1) == [0]
    ensures Slice(SHSTRTAB, 1, |TEXT| + 1) == TEXT + [0]
    ensures Slice(SHSTRTAB, 7, |SYMTAB| + 1) == SYMTAB + [0]
    ensures Slice(SHSTRTAB, 15, |STRTAB| + 1) == STRTAB + [0]
    ensures Slice(SHSTRTAB, 23, |SHSTRTAB_NAME| + 1) == SHSTRTAB_NAME + [0]
  {
    assert |SHSTRTAB| == 33;
    assert forall k | 0 <= k < |TEXT + [0]| :: SHSTRTAB[1 + k] == (TEXT + [0])[k];
    assert forall k | 0 <= k < |SYMTAB + [0]| :: SHSTRTAB[7 + k] == (SYMTAB + [0])[k];
    assert forall k | 0 <= k < |STRTAB + [0]| :: SHSTRTAB[15 + k] == (STRTAB + [0])[k];
    assert forall k | 0 <= k < |SHSTRTAB_NAME + [0]| :: SHSTRTAB[23 + k] == (SHSTRTAB_NAME + [0])[k];
  }

  /** What each section is called. */
  function NameOf(chunks: seq<Chunk>, i: nat): seq<Byte> {
    if i == 0 then [] else if i <= |chunks| then TEXT else if i == |chunks| + 1 then SYMTAB
    else if i == |chunks| + 2 then STRTAB else SHSTRTAB_NAME
  }

  /** Section 0 has no name, the chunks' are all .text, and the tables have
      theirs. */
  lemma SectionNamesRead(chunks: seq<Chunk>, i: nat)
    requires Fits(chunks) && i < SectionCount(chunks)
    ensures SectionName(Image(chunks), i) == Some(NameOf(chunks, i))
  {
    hide Image, Strtab, Slice, FieldOf, SymtabOffset, StrtabOffset, ShstrtabOffset, HeadersOffset, TextAt, Fits,
      SHSTRTAB, Packable, Offset;
    FileFieldsRead(chunks);
    TableHeaders(chunks);
    TablesInImage(chunks);
    TablesFit(chunks);
    SectionPackable(chunks, i);
    SectionField(chunks, i, 0);
    NameField(chunks, i);
    hide SectionFields, NameOf;
    TextInTable(Image(chunks), ShstrtabOffset(chunks), SHSTRTAB, SectionFields(chunks, i)[0].0, NameOf(chunks, i));
  }

  lemma NameField(chunks: seq<Chunk>, i: nat)
    requires i < SectionCount(chunks)
    ensures var at, name := SectionFields(chunks, i)[0].0, NameOf(chunks, i);
            && SectionFields(chunks, i)[0].1 == 4 && 0 !in name && at + |name| < |SHSTRTAB|
            && Slice(SHSTRTAB, at, |name| + 1) == name + [0]
  {
    SectionNames();
    SectionNamesFit();
    hide Slice, SHSTRTAB, Offset, SymtabOffset, StrtabOffset, ShstrtabOffset, Strtab;
  }

  lemma SectionNamesFit()
    ensures |SHSTRTAB| == 33 && 0 !in TEXT && 0 !in SYMTAB && 0 !in STRTAB && 0 !in SHSTRTAB_NAME
  {}
}
