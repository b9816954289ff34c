/**
 The ELF64 objects the dump converters write (tools/v8dump2elf.py,
 tools/smdump2elf.py, tools/jscdump2elf.py share the layout) and the reader of
 executable sections in tools/net11scan.py.
 */
module ElfObject {
  import opened Options
  import opened Widths

  // --- Little-endian fields ---

  function Bound(k: nat): (b: nat)
    ensures b > 0
  {
    if k == 0 then 1 else 256 * Bound(k - 1)
  }

  /** struct.pack of one unsigned field of K bytes. */
  function Pack(n: nat, k: nat): (s: seq<Byte>)
    requires n < Bound(k)
    ensures |s| == k
  {
    if k == 0 then [] else [n % 256] + Pack(n / 256, k - 1)
  }

  /** struct.unpack of one unsigned field. */
  function Unpack(s: seq<Byte>): nat {
    if s == [] then 0 else s[0] + 256 * Unpack(s[1..])
  }

  lemma {:induction false} PackRoundTrip(n: nat, k: nat)
    requires n < Bound(k)
    ensures Unpack(Pack(n, k)) == n
  {
    if k > 0 {
      assert Pack(n, k)[1..] == Pack(n / 256, k - 1);
      PackRoundTrip(n / 256, k - 1);
    }
  }

  lemma Bounds()
    ensures Bound(1) == 0x100 && Bound(2) == 0x1_0000 && Bound(4) == 0x1_0000_0000
    ensures Bound(8) == 0x1_0000_0000_0000_0000
  {
    assert Bound(3) == 0x100_0000 && Bound(5) == 0x100_0000_0000 && Bound(6) == 0x1_0000_0000_0000;
    assert Bound(7) == 0x100_0000_0000_0000;
  }

  /** The first N fields packed one after the other: (value, size) each. */
  function PackTo(fields: seq<(nat, nat)>, n: nat): (s: seq<Byte>)
    requires n <= |fields| && Packable(fields)
    ensures |s| == SizeTo(fields, n)
  {
    if n == 0 then [] else PackTo(fields, n - 1) + Pack(fields[n - 1].0, fields[n - 1].1)
  }

  function SizeTo(fields: seq<(nat, nat)>, n: nat): nat
    requires n <= |fields|
  {
    if n == 0 then 0 else SizeTo(fields, n - 1) + fields[n - 1].1
  }

  function PackAll(fields: seq<(nat, nat)>): (s: seq<Byte>)
    requires Packable(fields)
    ensures |s| == SizeTo(fields, |fields|)
  {
    PackTo(fields, |fields|)
  }

  predicate Packable(fields: seq<(nat, nat)>) {
    forall i | 0 <= i < |fields| :: fields[i].0 < Bound(fields[i].1)
  }

  /** buf[at:at + n], cut at the end of the buffer as Python cuts it. */
  function Slice(buf: seq<Byte>, at: nat, n: nat): seq<Byte> {
    if at >= |buf| then []
    else if at + n > |buf| then buf[at..]
    else buf[at..at + n]
  }

  lemma {:induction false} PackPrefix(fields: seq<(nat, nat)>, i: nat, n: nat)
    requires i <= n <= |fields| && Packable(fields)
    ensures PackTo(fields, i) <= PackTo(fields, n)
    decreases n
  {
    if i < n {
      PackPrefix(fields, i, n - 1);
    }
  }

  /** Field I of a packed record reads back where the fields before it end. */
  lemma FieldAt(fields: seq<(nat, nat)>, i: nat)
    requires Packable(fields) && i < |fields|
    ensures Slice(PackAll(fields), SizeTo(fields, i), fields[i].1) == Pack(fields[i].0, fields[i].1)
    ensures SizeTo(fields, i) + fields[i].1 <= SizeTo(fields, |fields|)
  {
    hide Pack, Bound;
    var field := Pack(fields[i].0, fields[i].1);
    PackPrefix(fields, i + 1, |fields|);
    SliceOfParts(PackTo(fields, i), field, []);
    assert PackTo(fields, i) + field + [] == PackTo(fields, i + 1);
    SliceOfPrefix(PackTo(fields, i + 1), PackAll(fields), SizeTo(fields, i), fields[i].1);
  }

  lemma SliceOfSlice(buf: seq<Byte>, h: nat, len: nat, at: nat, n: nat)
    requires h + len <= |buf| && at + n <= len
    ensures Slice(buf, h + at, n) == Slice(Slice(buf, h, len), at, n)
  {
    var outer, inner := Slice(buf, h + at, n), Slice(Slice(buf, h, len), at, n);
    assert |outer| == n == |inner|;
    forall k | 0 <= k < n ensures outer[k] == inner[k] {
      assert inner[k] == Slice(buf, h, len)[at + k] == buf[h + at + k];
    }
  }

  lemma SliceOfParts(a: seq<Byte>, b: seq<Byte>, c: seq<Byte>)
    ensures Slice(a + b + c, |a|, |b|) == b
  {
    if |b| == 0 && |c| == 0 {
      assert a + b + c == a;
    } else {
      assert (a + b + c)[|a|..|a| + |b|] == b;
    }
  }

  lemma SliceOfPrefix(s: seq<Byte>, t: seq<Byte>, at: nat, n: nat)
    requires s <= t && at + n <= |s|
    ensures Slice(t, at, n) == Slice(s, at, n)
  {
    if n > 0 {
      assert s[at..at + n] == t[at..at + n];
    }
  }

  // --- The writer ---

  datatype Chunk = Chunk(name: seq<Byte>, addr: nat, data: seq<Byte>)

  const EHSIZE := 64
  const SHENTSIZE := 64

  const SHT_PROGBITS := 1
  const SHT_SYMTAB := 2
  const SHT_STRTAB := 3
  const EXEC_FLAGS := 6                                      // SHF_ALLOC | SHF_EXECINSTR

  // "\0.text\0.symtab\0.strtab\0.shstrtab\0"
  const SHSTRTAB: seq<Byte> := [
    0, 46, 116, 101, 120, 116, 0, 46, 115, 121, 109, 116, 97, 98, 0,
    46, 115, 116, 114, 116, 97, 98, 0, 46, 115, 104, 115, 116, 114, 116, 97, 98, 0]

  function Align4(n: nat): (r: nat)
    ensures n <= r < n + 4 && r % 4 == 0
  {
    (n + 3) / 4 * 4
  }

  function Zeros(n: nat): (s: seq<Byte>)
    ensures |s| == n
  {
    seq(n, i => 0)
  }

  /** The data of the chunks back to back, each padded to a word. */
  function Payload(chunks: seq<Chunk>): seq<Byte> {
    if chunks == [] then []
    else
      var p := Payload(chunks[..|chunks| - 1]) + chunks[|chunks| - 1].data;
      p + Zeros(Align4(|p|) - |p|)
  }

  function Strtab(chunks: seq<Chunk>): seq<Byte> {
    if chunks == [] then [0]
    else Strtab(chunks[..|chunks| - 1]) + chunks[|chunks| - 1].name + [0]
  }

  function SymbolFields(chunks: seq<Chunk>, i: nat): seq<(nat, nat)>
    requires i < |chunks|
  {
    [(|Strtab(chunks[..i])|, 4), (2, 1), (0, 1), (1 + i, 2), (0, 8), (|chunks[i].data|, 8)]
  }

  function HeaderFields(name: nat, typ: nat, flags: nat, addr: nat, off: nat, size: nat,
                        link: nat, info: nat, align: nat, entsize: nat): seq<(nat, nat)> {
    [(name, 4), (typ, 4), (flags, 8), (addr, 8), (off, 8), (size, 8), (link, 4), (info, 4), (align, 8), (entsize, 8)]
  }

  function FileFields(shoff: nat, nsections: nat): seq<(nat, nat)> {
    var shstrndx: nat := if nsections > 0 then nsections - 1 else 0;
    [(0x7F, 1), (69, 1), (76, 1), (70, 1), (2, 1), (1, 1), (1, 1), (0, 1), (0, 1), (0, 7),
     (1, 2), (183, 2), (1, 4), (0, 8), (0, 8), (shoff, 8), (0, 4), (EHSIZE, 2), (0, 2), (0, 2),
     (SHENTSIZE, 2), (nsections, 2), (shstrndx, 2)]
  }

  function Offset(chunks: seq<Chunk>, i: nat): nat
    requires i <= |chunks|
  {
    EHSIZE + |Payload(chunks[..i])|
  }

  function SymtabOffset(chunks: seq<Chunk>): nat { EHSIZE + |Payload(chunks)| }
  function SymtabSize(chunks: seq<Chunk>): nat { 24 + 24 * |chunks| }
  function StrtabOffset(chunks: seq<Chunk>): nat { SymtabOffset(chunks) + SymtabSize(chunks) }
  function ShstrtabOffset(chunks: seq<Chunk>): nat { StrtabOffset(chunks) + |Strtab(chunks)| }
  function HeadersOffset(chunks: seq<Chunk>): nat { Align4(ShstrtabOffset(chunks) + |SHSTRTAB|) }
  function SectionCount(chunks: seq<Chunk>): nat { 1 + |chunks| + 3 }

  /** The fields of section header I: the null section, one per chunk, then
      symbols and the two string tables. */
  function SectionFields(chunks: seq<Chunk>, i: nat): seq<(nat, nat)>
    requires i < SectionCount(chunks)
  {
    var n := |chunks|;
    if i == 0 then HeaderFields(0, 0, 0, 0, 0, 0, 0, 0, 0, 0)
    else if i <= n then
      var c := chunks[i - 1];
      HeaderFields(1, SHT_PROGBITS, EXEC_FLAGS, c.addr, Offset(chunks, i - 1), |c.data|, 0, 0, 4, 0)
    else if i == n + 1 then
      HeaderFields(7, SHT_SYMTAB, 0, 0, SymtabOffset(chunks), SymtabSize(chunks), n + 2, 1 + n, 8, 24)
    else if i == n + 2 then
      HeaderFields(15, SHT_STRTAB, 0, 0, StrtabOffset(chunks), |Strtab(chunks)|, 0, 0, 1, 0)
    else
      HeaderFields(23, SHT_STRTAB, 0, 0, ShstrtabOffset(chunks), |SHSTRTAB|, 0, 0, 1, 0)
  }

  /** Every field of the file fits where it is packed; otherwise struct.pack
      raises. */
  predicate Fits(chunks: seq<Chunk>) {
    && SectionCount(chunks) < 0x1_0000
    && HeadersOffset(chunks) < 0x1_0000_0000_0000_0000
    && (forall i | 0 <= i < |chunks| :: chunks[i].addr < 0x1_0000_0000_0000_0000)
    && (forall i | 0 <= i < |chunks| :: |Strtab(chunks[..i])| < 0x1_0000_0000)
  }

  lemma PayloadAligned(chunks: seq<Chunk>)
    ensures |Payload(chunks)| % 4 == 0
  {
  }

  lemma {:induction false} PayloadPrefix(chunks: seq<Chunk>, i: nat)
    requires i <= |chunks|
    ensures Payload(chunks[..i]) <= Payload(chunks)
    decreases |chunks|
  {
    var n := |chunks|;
    if i == n {
      assert chunks[..i] == chunks;
    } else {
      assert chunks[..n - 1][..i] == chunks[..i];
      PayloadPrefix(chunks[..n - 1], i);
    }
  }

  /** A chunk's bytes are where its header will say, word aligned. */
  lemma ChunkInPayload(chunks: seq<Chunk>, i: nat)
    requires i < |chunks|
    ensures Offset(chunks, i) % 4 == 0
    ensures Offset(chunks, i) + |chunks[i].data| <= SymtabOffset(chunks)
    ensures Slice(Payload(chunks), Offset(chunks, i) - EHSIZE, |chunks[i].data|) == chunks[i].data
  {
    hide Slice, Payload;
    PayloadAligned(chunks[..i]);
    var pad := PayloadNext(chunks, i);
    SliceOfParts(Payload(chunks[..i]), chunks[i].data, pad);
    PayloadPrefix(chunks, i + 1);
    SliceOfPrefix(Payload(chunks[..i + 1]), Payload(chunks), |Payload(chunks[..i])|, |chunks[i].data|);
  }

  lemma PayloadNext(chunks: seq<Chunk>, i: nat) returns (pad: seq<Byte>)
    requires i < |chunks|
    ensures Payload(chunks[..i + 1]) == Payload(chunks[..i]) + chunks[i].data + pad
  {
    var upto := chunks[..i + 1];
    assert upto[..i] == chunks[..i] && upto[i] == chunks[i];
    var p := Payload(chunks[..i]) + chunks[i].data;
    pad := Zeros(Align4(|p|) - |p|);
  }

  // --- The bytes of the file ---

  function Symbols(chunks: seq<Chunk>, n: nat): seq<Byte>
    requires n <= |chunks| && Fits(chunks)
    ensures |Symbols(chunks, n)| == 24 + 24 * n
  {
    if n == 0 then Zeros(24)
    else
      SymbolPackable(chunks, n - 1);
      Symbols(chunks, n - 1) + PackAll(SymbolFields(chunks, n - 1))
  }

  function Headers(chunks: seq<Chunk>, n: nat): seq<Byte>
    requires n <= SectionCount(chunks) && Fits(chunks)
    ensures |Headers(chunks, n)| == SHENTSIZE * n
  {
    if n == 0 then []
    else
      SectionPackable(chunks, n - 1);
      Headers(chunks, n - 1) + PackAll(SectionFields(chunks, n - 1))
  }

  lemma SymbolPackable(chunks: seq<Chunk>, i: nat)
    requires i < |chunks| && Fits(chunks)
    ensures var f := SymbolFields(chunks, i);
            Packable(f) && |f| == 6 && SizeTo(f, 6) == 24
  {
    hide Strtab, Payload;
    Bounds();
    ChunkInPayload(chunks, i);
    var f := SymbolFields(chunks, i);
    assert SizeTo(f, 0) == 0 && SizeTo(f, 1) == 4 && SizeTo(f, 2) == 5 && SizeTo(f, 3) == 6;
    assert SizeTo(f, 4) == 8 && SizeTo(f, 5) == 16;
  }

  /** Where the fields of a section header are. */
  lemma HeaderSizes(f: seq<(nat, nat)>)
    requires |f| == 10 && f[0].1 == 4 && f[1].1 == 4 && f[2].1 == 8 && f[3].1 == 8 && f[4].1 == 8 && f[5].1 == 8
    requires f[6].1 == 4 && f[7].1 == 4 && f[8].1 == 8 && f[9].1 == 8
    ensures SizeTo(f, 1) == 4 && SizeTo(f, 2) == 8 && SizeTo(f, 3) == 16 && SizeTo(f, 4) == 24
    ensures SizeTo(f, 5) == 32 && SizeTo(f, 6) == 40 && SizeTo(f, 7) == 44 && SizeTo(f, 8) == 48 && SizeTo(f, 9) == 56
    ensures SizeTo(f, 10) == 64
  {
    assert SizeTo(f, 0) == 0 && SizeTo(f, 1) == 4 && SizeTo(f, 2) == 8 && SizeTo(f, 3) == 16;
    assert SizeTo(f, 4) == 24 && SizeTo(f, 5) == 32 && SizeTo(f, 6) == 40 && SizeTo(f, 7) == 44;
    assert SizeTo(f, 8) == 48 && SizeTo(f, 9) == 56;
  }

  lemma SectionPackable(chunks: seq<Chunk>, i: nat)
    requires i < SectionCount(chunks) && Fits(chunks)
    ensures var f := SectionFields(chunks, i);
            && Packable(f) && |f| == 10 && SizeTo(f, 10) == SHENTSIZE
            && SizeTo(f, 1) == 4 && SizeTo(f, 2) == 8 && SizeTo(f, 3) == 16 && SizeTo(f, 4) == 24 && SizeTo(f, 5) == 32
            && SizeTo(f, 6) == 40 && SizeTo(f, 7) == 44 && SizeTo(f, 8) == 48 && SizeTo(f, 9) == 56
  {
    hide Strtab, Payload, SizeTo, Bound;
    Bounds();
    if 1 <= i <= |chunks| {
      ChunkInPayload(chunks, i - 1);
    }
    HeaderSizes(SectionFields(chunks, i));
  }

  /** Where the fields of the file header the reader looks at are. */
  lemma FilePackable(shoff: nat, nsections: nat)
    requires shoff < 0x1_0000_0000_0000_0000 && nsections < 0x1_0000
    ensures var f := FileFields(shoff, nsections);
            && Packable(f) && |f| == 23 && SizeTo(f, 23) == EHSIZE
            && SizeTo(f, 1) == 1 && SizeTo(f, 2) == 2 && SizeTo(f, 3) == 3 && SizeTo(f, 4) == 4 && SizeTo(f, 5) == 5
            && SizeTo(f, 10) == 0x10 && SizeTo(f, 11) == 0x12 && SizeTo(f, 12) == 0x14
            && SizeTo(f, 15) == 0x28 && SizeTo(f, 20) == 0x3A && SizeTo(f, 21) == 0x3C && SizeTo(f, 22) == 0x3E
  {
    hide SizeTo, Bound;
    Bounds();
    PadBound();
    var f := FileFields(shoff, nsections);
    IdentSizes(f);
    FileSizes(f);
  }

  lemma IdentSizes(f: seq<(nat, nat)>)
    requires |f| >= 10 && f[9].1 == 7 && forall i | 0 <= i < 9 :: f[i].1 == 1
    ensures SizeTo(f, 1) == 1 && SizeTo(f, 2) == 2 && SizeTo(f, 3) == 3 && SizeTo(f, 4) == 4 && SizeTo(f, 5) == 5
    ensures SizeTo(f, 10) == 16
  {
    assert SizeTo(f, 0) == 0 && SizeTo(f, 1) == 1 && SizeTo(f, 2) == 2 && SizeTo(f, 3) == 3;
    assert SizeTo(f, 4) == 4 && SizeTo(f, 5) == 5 && SizeTo(f, 6) == 6 && SizeTo(f, 7) == 7;
    assert SizeTo(f, 8) == 8 && SizeTo(f, 9) == 9;
  }

  lemma FileSizes(f: seq<(nat, nat)>)
    requires |f| == 23 && SizeTo(f, 10) == 16
    requires f[10].1 == 2 && f[11].1 == 2 && f[12].1 == 4 && f[13].1 == 8 && f[14].1 == 8 && f[15].1 == 8
    requires f[16].1 == 4 && forall i | 17 <= i < 23 :: f[i].1 == 2
    ensures SizeTo(f, 11) == 0x12 && SizeTo(f, 12) == 0x14
    ensures SizeTo(f, 15) == 0x28 && SizeTo(f, 20) == 0x3A && SizeTo(f, 21) == 0x3C && SizeTo(f, 22) == 0x3E
    ensures SizeTo(f, 23) == EHSIZE
  {
    assert SizeTo(f, 11) == 18 && SizeTo(f, 12) == 20 && SizeTo(f, 13) == 24 && SizeTo(f, 14) == 32;
    assert SizeTo(f, 15) == 40 && SizeTo(f, 16) == 48 && SizeTo(f, 17) == 52 && SizeTo(f, 18) == 54;
    assert SizeTo(f, 19) == 56 && SizeTo(f, 20) == 58 && SizeTo(f, 21) == 60 && SizeTo(f, 22) == 62;
  }

  lemma PadBound()
    ensures 0 < Bound(7)
  {
  }

  function FileHeader(chunks: seq<Chunk>): (s: seq<Byte>)
    requires Fits(chunks)
    ensures |s| == EHSIZE
  {
    FilePackable(HeadersOffset(chunks), SectionCount(chunks));
    PackAll(FileFields(HeadersOffset(chunks), SectionCount(chunks)))
  }

  /** Symbols, string tables and the padding before the section headers. */
  function Tables(chunks: seq<Chunk>): (s: seq<Byte>)
    requires Fits(chunks)
    ensures |s| == HeadersOffset(chunks) - SymtabOffset(chunks)
  {
    Symbols(chunks, |chunks|) + Strtab(chunks) + SHSTRTAB
    + Zeros(HeadersOffset(chunks) - ShstrtabOffset(chunks) - |SHSTRTAB|)
  }

  /** The whole file. */
  function Image(chunks: seq<Chunk>): seq<Byte>
    requires Fits(chunks)
  {
    FileHeader(chunks) + Payload(chunks) + Tables(chunks) + Headers(chunks, SectionCount(chunks))
  }

  datatype Result<+T> = Ok(value: T) | Raised

  method BuildPayload(chunks: seq<Chunk>) returns (payload: seq<Byte>, offsets: seq<nat>)
    ensures payload == Payload(chunks)
    ensures |offsets| == |chunks| && forall j | 0 <= j < |chunks| :: offsets[j] == Offset(chunks, j)
  {
    hide Align4;
    payload, offsets := [], [];
    for i := 0 to |chunks|
      invariant payload == Payload(chunks[..i])
      invariant |offsets| == i && forall j | 0 <= j < i :: offsets[j] == Offset(chunks, j)
    {
      assert chunks[..i + 1][..i] == chunks[..i];
      offsets := offsets + [EHSIZE + |payload|];
      payload := payload + chunks[i].data;
      payload := payload + Zeros(Align4(|payload|) - |payload|);
    }
    assert chunks[..|chunks|] == chunks;
  }

  method BuildStrtab(chunks: seq<Chunk>) returns (strtab: seq<Byte>, nameOffsets: seq<nat>)
    ensures strtab == Strtab(chunks)
    ensures |nameOffsets| == |chunks|
    ensures forall j | 0 <= j < |chunks| :: nameOffsets[j] == |Strtab(chunks[..j])|
  {
    strtab, nameOffsets := [0], [];
    for i := 0 to |chunks|
      invariant strtab == Strtab(chunks[..i])
      invariant |nameOffsets| == i && forall j | 0 <= j < i :: nameOffsets[j] == |Strtab(chunks[..j])|
    {
      assert chunks[..i + 1][..i] == chunks[..i];
      nameOffsets := nameOffsets + [|strtab|];
      strtab := strtab + chunks[i].name + [0];
    }
    assert chunks[..|chunks|] == chunks;
  }

  method BuildSymtab(chunks: seq<Chunk>, nameOffsets: seq<nat>) returns (symtab: seq<Byte>)
    requires Fits(chunks) && |nameOffsets| == |chunks|
    requires forall j | 0 <= j < |chunks| :: nameOffsets[j] == |Strtab(chunks[..j])|
    ensures symtab == Symbols(chunks, |chunks|)
  {
    hide PackAll, Fits, Strtab, SymbolFields;
    symtab := Zeros(24);
    for i := 0 to |chunks|
      invariant symtab == Symbols(chunks, i)
    {
      SymbolPackable(chunks, i);
      SymbolFieldsAre(chunks, i);
      symtab := symtab
        + PackAll([(nameOffsets[i], 4), (2, 1), (0, 1), (1 + i, 2), (0, 8), (|chunks[i].data|, 8)]);
    }
  }

  lemma NextHeader(chunks: seq<Chunk>, i: nat)
    requires Fits(chunks) && i < SectionCount(chunks)
    ensures Packable(SectionFields(chunks, i))
    ensures Headers(chunks, i + 1) == Headers(chunks, i) + PackAll(SectionFields(chunks, i))
  {
    hide PackAll, SectionFields;
    SectionPackable(chunks, i);
  }

  /** The section headers, from the offsets the payload was laid out at. */
  method BuildHeaders(chunks: seq<Chunk>, offsets: seq<nat>) returns (shdrs: seq<Byte>)
    requires Fits(chunks) && |offsets| == |chunks|
    requires forall j | 0 <= j < |chunks| :: offsets[j] == Offset(chunks, j)
    ensures shdrs == Headers(chunks, SectionCount(chunks))
  {
    hide PackAll, Packable, Fits, Offset, SymtabOffset, StrtabOffset, ShstrtabOffset, Strtab, Headers, HeaderFields;
    var n := |chunks|;
    NextHeader(chunks, 0);
    shdrs := PackAll(HeaderFields(0, 0, 0, 0, 0, 0, 0, 0, 0, 0));
    assert Headers(chunks, 0) + shdrs == shdrs;
    for i := 0 to n
      invariant shdrs == Headers(chunks, i + 1)
    {
      NextHeader(chunks, i + 1);
      shdrs := shdrs
        + PackAll(HeaderFields(1, SHT_PROGBITS, EXEC_FLAGS, chunks[i].addr, offsets[i], |chunks[i].data|, 0, 0, 4, 0));
    }
    NextHeader(chunks, n + 1);
    shdrs := shdrs
      + PackAll(HeaderFields(7, SHT_SYMTAB, 0, 0, SymtabOffset(chunks), SymtabSize(chunks), n + 2, 1 + n, 8, 24));
    NextHeader(chunks, n + 2);
    shdrs := shdrs
      + PackAll(HeaderFields(15, SHT_STRTAB, 0, 0, StrtabOffset(chunks), |Strtab(chunks)|, 0, 0, 1, 0));
    NextHeader(chunks, n + 3);
    shdrs := shdrs
      + PackAll(HeaderFields(23, SHT_STRTAB, 0, 0, ShstrtabOffset(chunks), |SHSTRTAB|, 0, 0, 1, 0));
  }

  /** Builds the buffers chunk by chunk; struct.pack raises when a field does
      not fit. */
  method WriteElf(chunks: seq<Chunk>) returns (file: Result<seq<Byte>>)
    ensures file == if Fits(chunks) then Ok(Image(chunks)) else Raised
  {
    hide PackAll, FileFields, Payload, Strtab, Symbols, Headers, Offset;
    var payload, offsets := BuildPayload(chunks);
    var strtab, nameOffsets := BuildStrtab(chunks);
    var fits := FieldsFit(chunks, |payload|, |strtab|, nameOffsets);
    if !fits {
      return Raised;
    }
    var symtab := BuildSymtab(chunks, nameOffsets);
    var shdrs := BuildHeaders(chunks, offsets);
    var shoff := Align4(EHSIZE + |payload| + |symtab| + |strtab| + |SHSTRTAB|);
    FilePackable(shoff, SectionCount(chunks));
    var padding := Zeros(shoff - (EHSIZE + |payload| + |symtab| + |strtab|) - |SHSTRTAB|);
    return Ok(PackAll(FileFields(shoff, SectionCount(chunks))) + payload
              + (symtab + strtab + SHSTRTAB + padding) + shdrs);
  }

  lemma SymbolFieldsAre(chunks: seq<Chunk>, i: nat)
    requires i < |chunks|
    ensures SymbolFields(chunks, i)
            == [(|Strtab(chunks[..i])|, 4), (2, 1), (0, 1), (1 + i, 2), (0, 8), (|chunks[i].data|, 8)]
  {
  }

  method FieldsFit(chunks: seq<Chunk>, payload: nat, strtab: nat, nameOffsets: seq<nat>) returns (fits: bool)
    requires payload == |Payload(chunks)| && strtab == |Strtab(chunks)|
    requires |nameOffsets| == |chunks| && forall j | 0 <= j < |chunks| :: nameOffsets[j] == |Strtab(chunks[..j])|
    ensures fits <==> Fits(chunks)
  {
    hide Payload, Strtab, Align4;
    fits := SectionCount(chunks) < 0x1_0000
      && Align4(EHSIZE + payload + SymtabSize(chunks) + strtab + |SHSTRTAB|) < 0x1_0000_0000_0000_0000;
    for i := 0 to |chunks|
      invariant fits <==> (&& SectionCount(chunks) < 0x1_0000
                           && HeadersOffset(chunks) < 0x1_0000_0000_0000_0000
                           && (forall j | 0 <= j < i :: chunks[j].addr < 0x1_0000_0000_0000_0000)
                           && (forall j | 0 <= j < i :: |Strtab(chunks[..j])| < 0x1_0000_0000))
    {
      fits := fits && chunks[i].addr < 0x1_0000_0000_0000_0000 && nameOffsets[i] < 0x1_0000_0000;
    }
  }

  // --- The reader ---

  datatype Parsed = NotElf | Malformed | Parts(parts: seq<(nat, seq<Byte>)>)

  /** struct.unpack_from one field; None when the buffer is too short. */
  function FieldOf(buf: seq<Byte>, at: nat, n: nat): Option<nat> {
    if at + n > |buf| then None else Some(Unpack(Slice(buf, at, n)))
  }

  /** What the section header at H contributes: nothing unless it is executable
      program bits of at least a word, else its address and whole words. */
  function SectionPart(buf: seq<Byte>, h: nat): Option<seq<(nat, seq<Byte>)>> {
    var typ, flags := FieldOf(buf, h + 4, 4), FieldOf(buf, h + 8, 8);
    var addr, off, size := FieldOf(buf, h + 0x10, 8), FieldOf(buf, h + 0x18, 8), FieldOf(buf, h + 0x20, 8);
    if typ.None? || flags.None? || addr.None? || off.None? || size.None? then None
    else if typ.value == SHT_PROGBITS && flags.value / 4 % 2 == 1 && size.value >= 4 then
      Some([(addr.value, Slice(buf, off.value, size.value - size.value % 4))])
    else Some([])
  }

  /** Where header I starts. */
  function HeaderAt(shoff: nat, shentsize: nat, i: nat): nat {
    shoff + i * shentsize
  }

  /** The parts of the first N section headers. */
  function PartsTo(buf: seq<Byte>, shoff: nat, shentsize: nat, n: nat): Option<seq<(nat, seq<Byte>)>> {
    if n == 0 then Some([])
    else
      match PartsTo(buf, shoff, shentsize, n - 1)
      case None => None
      case Some(parts) =>
        match SectionPart(buf, HeaderAt(shoff, shentsize, n - 1))
        case None => None
        case Some(more) => Some(parts + more)
  }

  /** The executable sections of a buffer. */
  function ReadSections(buf: seq<Byte>): Parsed {
    if Slice(buf, 0, 4) != [0x7F, 69, 76, 70] then NotElf
    else if |buf| < 5 then Malformed
    else if buf[4] != 2 then NotElf
    else if |buf| < 6 then Malformed
    else if buf[5] != 1 then NotElf
    else
      var shoff, shentsize, shnum, last :=
        FieldOf(buf, 0x28, 8), FieldOf(buf, 0x3A, 2), FieldOf(buf, 0x3C, 2), FieldOf(buf, 0x3E, 2);
      if shoff.None? || shentsize.None? || shnum.None? || last.None? then Malformed
      else
        match PartsTo(buf, shoff.value, shentsize.value, shnum.value)
        case None => Malformed
        case Some(parts) => Parts(parts)
  }

  /** The loop over the section headers. */
  method ElfExecSections(buf: seq<Byte>) returns (r: Parsed)
    ensures r == ReadSections(buf)
  {
    hide SectionPart, HeaderAt, FieldOf;
    if Slice(buf, 0, 4) != [0x7F, 69, 76, 70] {
      return NotElf;
    }
    if |buf| < 5 {
      return Malformed;
    }
    if buf[4] != 2 {
      return NotElf;
    }
    if |buf| < 6 {
      return Malformed;
    }
    if buf[5] != 1 {
      return NotElf;
    }
    var shoff, shentsize, shnum, last :=
      FieldOf(buf, 0x28, 8), FieldOf(buf, 0x3A, 2), FieldOf(buf, 0x3C, 2), FieldOf(buf, 0x3E, 2);
    if shoff.None? || shentsize.None? || shnum.None? || last.None? {
      return Malformed;
    }
    var parts: seq<(nat, seq<Byte>)> := [];
    for i := 0 to shnum.value
      invariant PartsTo(buf, shoff.value, shentsize.value, i) == Some(parts)
    {
      var part := SectionPart(buf, HeaderAt(shoff.value, shentsize.value, i));
      if part.None? {
        PartsFail(buf, shoff.value, shentsize.value, i + 1, shnum.value);
        return Malformed;
      }
      parts := parts + part.value;
    }
    return Parts(parts);
  }

  lemma {:induction false} PartsFail(buf: seq<Byte>, shoff: nat, shentsize: nat, i: nat, n: nat)
    requires i <= n && PartsTo(buf, shoff, shentsize, i).None?
    ensures PartsTo(buf, shoff, shentsize, n).None?
    decreases n
  {
    if i < n {
      PartsFail(buf, shoff, shentsize, i, n - 1);
    }
  }

  // --- Reading back what was written ---

  /** What a chunk reads back as: its address and its whole words, or nothing
      when it has no whole word. */
  function Expected(chunks: seq<Chunk>): seq<(nat, seq<Byte>)> {
    if chunks == [] then []
    else
      var c := chunks[|chunks| - 1];
      Expected(chunks[..|chunks| - 1])
      + if |c.data| >= 4 then [(c.addr, c.data[..|c.data| - |c.data| % 4])] else []
  }

  lemma HeaderInImage(chunks: seq<Chunk>)
    requires Fits(chunks)
    ensures FileHeader(chunks) <= Image(chunks)
    ensures |Image(chunks)| == HeadersOffset(chunks) + SHENTSIZE * SectionCount(chunks)
  {
    hide FileHeader, Payload, Tables, Headers;
  }

  lemma DataInImage(chunks: seq<Chunk>, i: nat)
    requires Fits(chunks) && i < |chunks|
    ensures Slice(Image(chunks), Offset(chunks, i), |chunks[i].data|) == chunks[i].data
  {
    hide FileHeader, Payload, Tables, Headers;
    ChunkInPayload(chunks, i);
    var p, at, n := Payload(chunks), Offset(chunks, i) - EHSIZE, |chunks[i].data|;
    var rest := Tables(chunks) + Headers(chunks, SectionCount(chunks));
    assert Image(chunks) == FileHeader(chunks) + p + rest;
    SliceOfParts(FileHeader(chunks), p, rest);
    SliceOfSlice(Image(chunks), EHSIZE, |p|, at, n);
  }

  lemma {:induction false} HeadersPrefix(chunks: seq<Chunk>, i: nat, n: nat)
    requires Fits(chunks) && i <= n <= SectionCount(chunks)
    ensures Headers(chunks, i) <= Headers(chunks, n)
    decreases n
  {
    hide PackAll;
    if i < n {
      HeadersPrefix(chunks, i, n - 1);
    }
  }

  lemma SectionInImage(chunks: seq<Chunk>, i: nat)
    requires Fits(chunks) && i < SectionCount(chunks)
    ensures Packable(SectionFields(chunks, i))
    ensures Slice(Image(chunks), HeadersOffset(chunks) + SHENTSIZE * i, SHENTSIZE) == PackAll(SectionFields(chunks, i))
  {
    hide FileHeader, Payload, Tables, PackAll, SectionFields;
    SectionPackable(chunks, i);
    var n := SectionCount(chunks);
    var front, all := FileHeader(chunks) + Payload(chunks) + Tables(chunks), Headers(chunks, n);
    var row := PackAll(SectionFields(chunks, i));
    HeadersPrefix(chunks, i + 1, n);
    assert Headers(chunks, i) + row + [] == Headers(chunks, i + 1);
    SliceOfParts(Headers(chunks, i), row, []);
    SliceOfPrefix(Headers(chunks, i + 1), all, SHENTSIZE * i, SHENTSIZE);
    assert Image(chunks) == front + all + [];
    SliceOfParts(front, all, []);
    SliceOfSlice(Image(chunks), |front|, |all|, SHENTSIZE * i, SHENTSIZE);
  }

  /** A field of a packed row is read back wherever the row stands. */
  lemma FieldRead(buf: seq<Byte>, h: nat, fields: seq<(nat, nat)>, k: nat)
    requires Packable(fields) && k < |fields| && h + SizeTo(fields, |fields|) <= |buf|
    requires Slice(buf, h, SizeTo(fields, |fields|)) == PackAll(fields)
    ensures FieldOf(buf, h + SizeTo(fields, k), fields[k].1) == Some(fields[k].0)
  {
    hide PackAll, Pack, Unpack, SizeTo, Slice;
    FieldAt(fields, k);
    SliceOfSlice(buf, h, SizeTo(fields, |fields|), SizeTo(fields, k), fields[k].1);
    PackRoundTrip(fields[k].0, fields[k].1);
  }

  /** One field of one section header, read out of the file. */
  lemma SectionField(chunks: seq<Chunk>, i: nat, k: nat)
    requires Fits(chunks) && i < SectionCount(chunks) && k < 10
    ensures var f := SectionFields(chunks, i);
            && |f| == 10
            && FieldOf(Image(chunks), HeadersOffset(chunks) + SHENTSIZE * i + SizeTo(f, k), f[k].1) == Some(f[k].0)
  {
    hide Image, SectionFields, PackAll, HeadersOffset, SizeTo, FieldOf, Slice;
    SectionPackable(chunks, i);
    SectionInImage(chunks, i);
    HeaderInImage(chunks);
    RowInside(HeadersOffset(chunks), i, SectionCount(chunks));
    FieldRead(Image(chunks), HeadersOffset(chunks) + SHENTSIZE * i, SectionFields(chunks, i), k);
  }

  lemma RowInside(shoff: nat, i: nat, n: nat)
    requires i < n
    ensures shoff + SHENTSIZE * i + SHENTSIZE <= shoff + SHENTSIZE * n
  {
  }

  lemma SectionRead(chunks: seq<Chunk>, i: nat)
    requires Fits(chunks) && i < SectionCount(chunks)
    ensures SectionPart(Image(chunks), HeaderAt(HeadersOffset(chunks), SHENTSIZE, i)) ==
            if 1 <= i <= |chunks| && |chunks[i - 1].data| >= 4 then
              var d := chunks[i - 1].data;
              Some([(chunks[i - 1].addr, d[..|d| - |d| % 4])])
            else Some([])
  {
    hide Image, HeadersOffset, SizeTo, Offset, SymtabOffset, StrtabOffset, ShstrtabOffset, Strtab, Payload, FieldOf,
      Slice, Fits, Packable, Bound;
    SectionPackable(chunks, i);
    SectionField(chunks, i, 1);
    SectionField(chunks, i, 2);
    SectionField(chunks, i, 3);
    SectionField(chunks, i, 4);
    SectionField(chunks, i, 5);
    if 1 <= i <= |chunks| {
      DataInImage(chunks, i - 1);
      SliceCut(Image(chunks), Offset(chunks, i - 1), chunks[i - 1].data);
    }
  }

  lemma SliceCut(buf: seq<Byte>, at: nat, data: seq<Byte>)
    requires Slice(buf, at, |data|) == data
    ensures Slice(buf, at, |data| - |data| % 4) == data[..|data| - |data| % 4]
  {
    var n := |data| - |data| % 4;
    if n > 0 {
      assert buf[at..at + |data|] == data;
      assert buf[at..at + n] == buf[at..at + |data|][..n];
    }
  }

  lemma {:induction false} PartsRead(chunks: seq<Chunk>, n: nat)
    requires Fits(chunks) && n <= SectionCount(chunks)
    ensures PartsTo(Image(chunks), HeadersOffset(chunks), SHENTSIZE, n)
            == Some(Expected(chunks[..ChunksBefore(chunks, n)]))
  {
    hide Image, HeadersOffset, SectionPart, HeaderAt;
    if n > 0 {
      PartsRead(chunks, n - 1);
      SectionRead(chunks, n - 1);
      var before := Expected(chunks[..ChunksBefore(chunks, n - 1)]);
      if 2 <= n <= |chunks| + 1 {
        assert chunks[..n - 1][..n - 2] == chunks[..n - 2];
      } else {
        assert before + [] == before;
      }
    }
  }

  /** How many of the first N section headers are chunks'. */
  function ChunksBefore(chunks: seq<Chunk>, n: nat): (k: nat)
    ensures k <= |chunks|
  {
    if n == 0 then 0 else if n - 1 <= |chunks| then n - 1 else |chunks|
  }

  lemma FileFieldsRead(chunks: seq<Chunk>)
    requires Fits(chunks)
    ensures var buf := Image(chunks);
            && |buf| >= 64 && Slice(buf, 0, 4) == [0x7F, 69, 76, 70] && buf[4] == 2 && buf[5] == 1
            && FieldOf(buf, 0x28, 8) == Some(HeadersOffset(chunks))
            && FieldOf(buf, 0x3A, 2) == Some(SHENTSIZE)
            && FieldOf(buf, 0x3C, 2) == Some(SectionCount(chunks))
            && FieldOf(buf, 0x3E, 2) == Some(SectionCount(chunks) - 1)
  {
    hide Image, HeadersOffset, Pack, SizeTo, PackTo;
    var shoff, n := HeadersOffset(chunks), SectionCount(chunks);
    var f := FileFields(shoff, n);
    var h := FileHeader(chunks);
    var buf := Image(chunks);
    FilePackable(shoff, n);
    HeaderInImage(chunks);
    FieldAt(f, 15);
    FieldAt(f, 20);
    FieldAt(f, 21);
    FieldAt(f, 22);
    SliceOfPrefix(h, buf, 0x28, 8);
    SliceOfPrefix(h, buf, 0x3A, 2);
    SliceOfPrefix(h, buf, 0x3C, 2);
    SliceOfPrefix(h, buf, 0x3E, 2);
    PackRoundTrip(n - 1, 2);
    PackRoundTrip(shoff, 8);
    PackRoundTrip(SHENTSIZE, 2);
    PackRoundTrip(n, 2);
    MagicRead(f, h);
    SliceOfPrefix(h, buf, 0, 4);
  }

  lemma MagicRead(f: seq<(nat, nat)>, h: seq<Byte>)
    requires |f| == 23 && Packable(f) && h == PackAll(f)
    requires forall k | 0 <= k < 6 :: f[k].1 == 1
    requires f[0].0 == 0x7F && f[1].0 == 69 && f[2].0 == 76 && f[3].0 == 70 && f[4].0 == 2 && f[5].0 == 1
    requires forall k | 1 <= k <= 5 :: SizeTo(f, k) == k
    requires |h| >= 64
    ensures Slice(h, 0, 4) == [0x7F, 69, 76, 70] && h[4] == 2 && h[5] == 1
  {
    hide PackAll;
    forall k | 0 <= k < 6 ensures h[k] == f[k].0 {
      FieldAt(f, k);
      OneByte(f[k].0);
      assert Slice(h, k, 1) == h[k..k + 1] == [h[k]];
    }
  }

  lemma OneByte(n: nat)
    requires n < Bound(1)
    ensures Pack(n, 1) == [n]
  {
    assert Bound(1) == 256;
    assert Pack(n / 256, 0) == [];
  }

  /** Reading a written file gives every chunk's address and whole words back,
      in order, and nothing else. */
  lemma ReadBack(chunks: seq<Chunk>)
    requires Fits(chunks)
    ensures ReadSections(Image(chunks)) == Parts(Expected(chunks))
  {
    hide Image, HeadersOffset, FieldOf, Expected;
    FileFieldsRead(chunks);
    PartsRead(chunks, SectionCount(chunks));
    assert chunks[..|chunks|] == chunks;
  }
}
