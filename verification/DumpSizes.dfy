/**
 When the chunks of a dump have an ELF file at all: write_elf packs counts,
 addresses and offsets into fields of two, four and eight bytes.
 */
module DumpSizes {
  import opened Widths
  import opened ElfObject
  import opened DumpChunks

  const MAX_CHUNKS := 65531                // with four more sections, below 2^16
  const MAX_NAME := 65000

  /** The bytes of code in the chunks. */
  function Size(chunks: seq<Chunk>): nat {
    if chunks == [] then 0 else Size(chunks[..|chunks| - 1]) + |chunks[|chunks| - 1].data|
  }

  predicate ShortNames(chunks: seq<Chunk>) {
    forall i | 0 <= i < |chunks| :: |chunks[i].name| <= MAX_NAME
  }

  predicate Addressable(chunks: seq<Chunk>) {
    forall i | 0 <= i < |chunks| :: chunks[i].addr < M64
  }

  lemma {:induction false} PayloadSize(chunks: seq<Chunk>)
    ensures |Payload(chunks)| <= Size(chunks) + 3 * |chunks|
  {
    if chunks != [] {
      PayloadSize(chunks[..|chunks| - 1]);
    }
  }

  lemma {:induction false} StrtabSize(chunks: seq<Chunk>)
    requires ShortNames(chunks)
    ensures |Strtab(chunks)| <= 1 + (MAX_NAME + 1) * |chunks|
  {
    if chunks != [] {
      StrtabSize(chunks[..|chunks| - 1]);
    }
  }

  /** Chunks with names as the converters make them and less than 2^63 bytes of
      code fit exactly when there are at most 65531 and their addresses have 64
      bits. */
  lemma FitsIff(chunks: seq<Chunk>)
    requires ShortNames(chunks) && Size(chunks) < M64 / 2
    ensures Fits(chunks) <==> |chunks| <= MAX_CHUNKS && Addressable(chunks)
  {
    hide Strtab, Payload, Size, HeadersOffset;
    if |chunks| <= MAX_CHUNKS && Addressable(chunks) {
      NamesFit(chunks);
      assert chunks[..|chunks|] == chunks;
      OffsetsFit(chunks);
    }
  }

  lemma NamesFit(chunks: seq<Chunk>)
    requires ShortNames(chunks) && |chunks| <= MAX_CHUNKS
    ensures forall i | 0 <= i <= |chunks| :: |Strtab(chunks[..i])| < M32
  {
    hide Strtab;
    forall i | 0 <= i <= |chunks| ensures |Strtab(chunks[..i])| < M32 {
      StrtabSize(chunks[..i]);
    }
  }

  lemma OffsetsFit(chunks: seq<Chunk>)
    requires |chunks| <= MAX_CHUNKS && Size(chunks) < M64 / 2 && |Strtab(chunks)| < M32
    ensures HeadersOffset(chunks) < M64
  {
    hide Strtab, Payload, Size;
    PayloadSize(chunks);
  }

  lemma {:induction false} SizeSplit(chunks: seq<Chunk>, n: nat)
    requires n <= |chunks|
    ensures Size(chunks) == Size(chunks[..n]) + Size(chunks[n..])
    decreases |chunks|
  {
    var m := |chunks|;
    if n == m {
      assert chunks[..n] == chunks && chunks[n..] == [];
    } else {
      SizeSplit(chunks[..m - 1], n);
      assert chunks[..m - 1][..n] == chunks[..n] && chunks[..m - 1][n..] == chunks[n..][..m - n - 1];
    }
  }

  /** Four bytes an instruction. */
  lemma {:induction false} SizeOfRuns(chunks: seq<Chunk>, runs: seq<Run>)
    requires HoldAll(chunks, runs)
    ensures Size(chunks) == 4 * |Flatten(runs)|
  {
    hide InsnsOf, BytesOf;
    if chunks != [] {
      var n := |chunks| - 1;
      assert Holds(chunks[n], runs[n]);
      SizeOfRuns(chunks[..n], runs[..n]);
    }
  }

  /** A chunk stands at its first instruction's address. */
  lemma {:induction false} StartsAccepted(chunks: seq<Chunk>, runs: seq<Run>, i: nat)
    requires HoldAll(chunks, runs) && i < |chunks| && chunks[i].data != []
    ensures exists x :: x in Flatten(runs) && x.addr == chunks[i].addr
    decreases |runs|
  {
    hide InsnsOf, BytesOf;
    var n := |runs| - 1;
    assert Holds(chunks[n], runs[n]);
    if i == n {
      FirstOfRun(runs[n]);
      assert InsnsOf(runs[n])[0] in Flatten(runs);
    } else {
      StartsAccepted(chunks[..n], runs[..n], i);
    }
  }

  lemma {:induction false} FirstOfRun(r: Run)
    requires r.words != []
    ensures InsnsOf(r)[0].addr == r.addr
    decreases |r.words|
  {
    if |r.words| > 1 {
      FirstOfRun(Run(r.addr, r.words[..|r.words| - 1]));
    }
  }
}
