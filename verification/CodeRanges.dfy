/**
 The kept ranges of a code section in main.c: everything outside them is
 masked with an undecodable word, in place; under -f they are the occurrences
 of one function in the section's anchor table.
 */
module CodeRanges {
  import opened Options
  import opened Widths
  import opened Anchors

  /** Section-relative, end-exclusive. */
  datatype Range = Range(start: U64, end: U64)

  ghost predicate SortedByStart(keep: seq<Range>) {
    forall i, j | 0 <= i < j < |keep| :: keep[i].start <= keep[j].start
  }

  /** x & ~3. */
  function Down4(x: U64): (r: U64)
    ensures r <= x
  {
    x - x % 4
  }

  /** (x + 3) & ~3 in 64 bits. */
  function Up4(x: U64): U64 {
    Down4((x + 3) % 0x1_0000_0000_0000_0000)
  }

  /** Byte B lies in the range rounded outward to whole words. */
  predicate InRounded(r: Range, b: nat) {
    Down4(r.start) <= b < Up4(r.end)
  }

  /** So it does when its word ends behind the start and begins before the end; if
      the end is not in the last word of the address space, where it wraps to
      nothing. For a range that is not empty: when the word holds a byte of it. */
  lemma RoundedIff(r: Range, b: nat)
    ensures InRounded(r, b) <==>
            r.end <= 0x1_0000_0000_0000_0000 - 4 && r.start < b / 4 * 4 + 4 && b / 4 * 4 < r.end
    ensures r.start < r.end <= 0x1_0000_0000_0000_0000 - 4 ==>
              (InRounded(r, b) <==> exists x: nat :: r.start <= x < r.end && x / 4 == b / 4)
  {
    if r.start < r.end && InRounded(r, b) {
      var x := if r.start < b / 4 * 4 then b / 4 * 4 else r.start;
      assert r.start <= x < r.end && x / 4 == b / 4;
    }
  }

  /** B lies in one of the first N ranges. */
  predicate CoveredBy(keep: seq<Range>, n: nat, b: nat)
    requires n <= |keep|
  {
    exists i | 0 <= i < n :: InRounded(keep[i], b)
  }

  lemma CoveredNext(keep: seq<Range>, n: nat, b: nat)
    requires n < |keep|
    ensures CoveredBy(keep, n + 1, b) <==> CoveredBy(keep, n, b) || InRounded(keep[n], b)
  {
    hide InRounded;
    if CoveredBy(keep, n, b) {
      var i :| 0 <= i < n && InRounded(keep[i], b);
      assert i < n + 1;
    }
  }

  lemma Down4Monotone(x: U64, y: U64)
    requires x <= y
    ensures Down4(x) <= Down4(y)
  {
  }

  function Min(a: nat, b: nat): nat { if a < b then a else b }

  /** Overwrites every byte outside the ranges, rounded outward to words, with
      0xff: one pass, one cursor. */
  method MaskOutsideRanges(buf: array<Byte>, size: nat, keep: seq<Range>)
    requires size <= buf.Length && size < 0x1_0000_0000_0000_0000 && SortedByStart(keep)
    modifies buf
    ensures forall b | 0 <= b < size ::
              buf[b] == if CoveredBy(keep, |keep|, b) then old(buf[b]) else 0xff
    ensures forall b | size <= b < buf.Length :: buf[b] == old(buf[b])
  {
    hide Down4, Up4, CoveredBy;
    var pos := 0;
    ghost var masked, n := 0, 0;
    assert forall b: nat :: !CoveredBy(keep, 0, b) by {
      NothingCovered(keep);
    }
    for i := 0 to |keep| + 1
      invariant pos <= size && masked <= size && n == Min(i, |keep|)
      invariant i == 0 ==> masked == 0
      invariant 0 < i <= |keep| ==> masked == Min(Down4(keep[i - 1].start), size)
      invariant i > |keep| ==> masked == size == pos
      invariant forall b | 0 <= b < pos ::
                  buf[b] == if CoveredBy(keep, n, b) then old(buf[b]) else 0xff
      invariant forall b: nat | pos <= b < size :: !CoveredBy(keep, n, b)
      invariant forall b: nat | b < pos && !CoveredBy(keep, n, b) :: b < masked
      invariant forall b | pos <= b < buf.Length :: buf[b] == if b < masked then 0xff else old(buf[b])
    {
      var start := if i < |keep| then Down4(keep[i].start) else size;
      var end := if i < |keep| then Up4(keep[i].end) else size;
      if i < |keep| {
        n := i + 1;
        forall b: nat ensures CoveredBy(keep, n, b) <==> CoveredBy(keep, i, b) || start <= b < end {
          CoveredNext(keep, i, b);
        }
        if i > 0 {
          Down4Monotone(keep[i - 1].start, keep[i].start);
        }
      }
      if start > size {
        start := size;
      }
      if end > size {
        end := size;
      }
      if start > pos {
        Fill(buf, pos, start);
      }
      if end > pos {
        pos := end;
      }
      masked := start;
    }
  }

  lemma NothingCovered(keep: seq<Range>)
    ensures forall b: nat :: !CoveredBy(keep, 0, b)
  {
  }

  /** memset(buf + from, 0xff, to - from). */
  method Fill(buf: array<Byte>, from: nat, to: nat)
    requires from <= to <= buf.Length
    modifies buf
    ensures forall b | 0 <= b < buf.Length :: buf[b] == if from <= b < to then 0xff else old(buf[b])
  {
    for k := from to to
      invariant forall b | 0 <= b < buf.Length :: buf[b] == if from <= b < k then 0xff else old(buf[b])
    {
      buf[k] := 0xff;
    }
  }

  // --- The occurrences of one function ---
  //
  // TABLE is a section's anchor table as AnchorsFinish leaves it.

  predicate Named(sym: Symbol, func: string) {
    sym.name == Some(func)
  }

  predicate Inside(sym: Symbol, base: U64, size: U64) {
    sym.vaddr >= base && sym.vaddr - base < size
  }

  /** The extent of the K-th anchor: its recorded size, or to the next anchor
      inside the section, or to the section's end. */
  function Extent(table: seq<Symbol>, k: nat, base: U64, size: U64): (r: Range)
    requires k < |table| && Inside(table[k], base, size)
    requires k + 1 < |table| ==> table[k].vaddr < table[k + 1].vaddr
    ensures r.start < r.end <= size && r.start == table[k].vaddr - base
    ensures k + 1 < |table| && table[k].size == 0 ==> r.end <= table[k + 1].vaddr - base
  {
    var start := table[k].vaddr - base;
    if table[k].size != 0 then
      Range(start, if table[k].size > size - start then size else start + table[k].size)
    else if k + 1 < |table| && table[k + 1].vaddr - base < size then
      Range(start, table[k + 1].vaddr - base)
    else
      Range(start, size)
  }

  /** The ranges of the first N anchors that are FUNC. */
  ghost function Kept(table: seq<Symbol>, n: nat, func: string, base: U64, size: U64): seq<Range>
    requires n <= |table| && Ascending(table)
  {
    if n == 0 then []
    else
      var rest := Kept(table, n - 1, func, base, size);
      if Named(table[n - 1], func) && Inside(table[n - 1], base, size)
      then rest + [Extent(table, n - 1, base, size)]
      else rest
  }

  ghost function Bytes(keep: seq<Range>): int {
    if keep == [] then 0 else Bytes(keep[..|keep| - 1]) + keep[|keep| - 1].end - keep[|keep| - 1].start
  }

  class FunctionSites {
    var sites: nat
    var bytes: nat

    constructor ()
      ensures sites == 0 && bytes == 0
    {
      sites, bytes := 0, 0;
    }

    /** The kept ranges of one section, and the running totals over all. */
    method KeepNamedFunction(table: seq<Symbol>, func: string, base: U64, size: U64)
      returns (keep: seq<Range>)
      requires Ascending(table)
      modifies this
      ensures keep == Kept(table, |table|, func, base, size)
      ensures sites == old(sites) + |keep| && bytes == old(bytes) + Bytes(keep)
    {
      keep := [];
      var n := 0;
      for k := 0 to |table|
        invariant n >= |Kept(table, k, func, base, size)|
        invariant n == 0 ==> Kept(table, k, func, base, size) == []
      {
        if Named(table[k], func) {
          n := n + 1;
        }
      }
      if n == 0 {
        return;
      }
      for k := 0 to |table|
        invariant keep == Kept(table, k, func, base, size)
        invariant sites == old(sites) + |keep| && bytes == old(bytes) + Bytes(keep)
      {
        if !Named(table[k], func) || table[k].vaddr < base || table[k].vaddr - base >= size {
          continue;
        }
        var start := table[k].vaddr - base;
        var end;
        if table[k].size != 0 {
          end := if table[k].size > size - start then size else start + table[k].size;
        } else if k + 1 < |table| && table[k + 1].vaddr - base < size {
          end := table[k + 1].vaddr - base;
        } else {
          end := size;
        }
        var before := keep;
        keep := keep + [Range(start, end)];
        assert keep[..|keep| - 1] == before;
        sites := sites + 1;
        bytes := bytes + (end - start);
      }
    }
  }

  /** RANGE is the extent of one of the first N anchors, an inside
      occurrence. */
  ghost predicate IsOccurrence(range: Range, table: seq<Symbol>, n: nat, func: string, base: U64, size: U64)
    requires n <= |table| && Ascending(table)
  {
    exists k | 0 <= k < n :: Named(table[k], func) && Inside(table[k], base, size)
                             && range == Extent(table, k, base, size)
  }

  /** The kept ranges are exactly the inside occurrences. */
  lemma {:induction false} KeptAreOccurrences(table: seq<Symbol>, n: nat, func: string, base: U64, size: U64,
                                              range: Range)
    requires n <= |table| && Ascending(table)
    ensures range in Kept(table, n, func, base, size) <==> IsOccurrence(range, table, n, func, base, size)
  {
    hide Extent, Named, Inside;
    if n > 0 {
      KeptAreOccurrences(table, n - 1, func, base, size, range);
      if IsOccurrence(range, table, n - 1, func, base, size) {
        var k :| 0 <= k < n - 1 && Named(table[k], func) && Inside(table[k], base, size)
                 && range == Extent(table, k, base, size);
        assert 0 <= k < n;
      }
    }
  }

  /** What the masking needs and more: ascending distinct starts, every range
      non-empty and inside the section. */
  lemma {:induction false} KeptIsSorted(table: seq<Symbol>, n: nat, func: string, base: U64, size: U64)
    requires n <= |table| && Ascending(table)
    ensures var keep := Kept(table, n, func, base, size);
            && SortedByStart(keep)
            && (forall i, j | 0 <= i < j < |keep| :: keep[i].start < keep[j].start)
            && (forall i | 0 <= i < |keep| :: keep[i].start < keep[i].end <= size)
  {
    hide Named;
    if n > 0 {
      KeptIsSorted(table, n - 1, func, base, size);
      var rest := Kept(table, n - 1, func, base, size);
      forall i | 0 <= i < |rest| ensures rest[i].start < table[n - 1].vaddr - base {
        KeptAreOccurrences(table, n - 1, func, base, size, rest[i]);
      }
    }
  }

  ghost predicate InOccurrence(b: nat, table: seq<Symbol>, func: string, base: U64, size: U64)
    requires Ascending(table)
  {
    exists r: Range :: IsOccurrence(r, table, |table|, func, base, size) && InRounded(r, b)
  }

  /** Under -f, a byte of the section survives exactly when it lies in some
      occurrence of the function, rounded outward to words. */
  method MaskOutsideFunction(buf: array<Byte>, table: seq<Symbol>, func: string, base: U64, size: U64,
                             totals: FunctionSites)
    requires size <= buf.Length && Ascending(table)
    modifies buf, totals
    ensures forall b | 0 <= b < size ::
              buf[b] == if InOccurrence(b, table, func, base, size) then old(buf[b]) else 0xff
    ensures forall b | size <= b < buf.Length :: buf[b] == old(buf[b])
  {
    hide InRounded, IsOccurrence, Kept, Bytes;
    var keep := totals.KeepNamedFunction(table, func, base, size);
    KeptIsSorted(table, |table|, func, base, size);
    MaskOutsideRanges(buf, size, keep);
    forall r: Range ensures r in keep <==> IsOccurrence(r, table, |table|, func, base, size) {
      KeptAreOccurrences(table, |table|, func, base, size, r);
    }
    forall b: nat ensures CoveredBy(keep, |keep|, b) <==> InOccurrence(b, table, func, base, size) {
      if CoveredBy(keep, |keep|, b) {
        var i :| 0 <= i < |keep| && InRounded(keep[i], b);
        assert keep[i] in keep;
      }
    }
  }
}
