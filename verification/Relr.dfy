/**
 The RELR decoding loop of main.c (SHT_RELR, the Relocation chapter of the
 System V gABI): even entries are addresses, odd ones bitmaps of the next 63
 eight-byte slots.
 */
module Relr {
  import opened Widths
  import opened Sequences
  import opened Arithmetic
  import opened Bits

  const SPAN := 504                        // 63 * 8

  /** e & (1ULL << b). */
  predicate Bit(e: U64, b: nat) {
    b in BitsOf(e, 64)
  }

  /** The slots of a bitmap from bit B up. */
  function Slots(e: U64, at: nat, b: nat): seq<nat>
    requires b <= 64
    decreases 64 - b
  {
    if b == 64 then []
    else (if b >= 1 && Bit(e, b) then [SlotAt(at, b)] else []) + Slots(e, at, b + 1)
  }

  /** where + (b - 1) * 8 in 64 bits. */
  function SlotAt(at: nat, b: nat): nat
    requires b >= 1
  {
    (at + (b - 1) * 8) % M64
  }

  /** Every slot the entries relocate, in the order visited; AT is where the
      next bitmap starts. */
  function Visited(entries: seq<U64>, at: nat): seq<nat> {
    if entries == [] then []
    else if !Bit(entries[0], 0) then [entries[0]] + Visited(entries[1..], (entries[0] + 8) % M64)
    else Slots(entries[0], at, 1) + Visited(entries[1..], (at + SPAN) % M64)
  }

  method VisitBitmap(e: U64, at: nat) returns (slots: seq<nat>)
    ensures slots == Slots(e, at, 1)
  {
    hide Bit, SlotAt;
    slots := [];
    for b := 1 to 64
      invariant slots + Slots(e, at, b) == Slots(e, at, 1)
    {
      Advance(slots, if Bit(e, b) then [SlotAt(at, b)] else [], Slots(e, at, b + 1));
      if Bit(e, b) {
        slots := slots + [SlotAt(at, b)];
      } else {
        Finished(slots);
      }
    }
    Finished(slots);
  }

  method VisitRelr(entries: seq<U64>) returns (visited: seq<nat>)
    ensures visited == Visited(entries, 0)
  {
    hide Bit, Slots;
    visited := [];
    var at: nat := 0;
    assert entries[0..] == entries && [] + Visited(entries, 0) == Visited(entries, 0);
    for r := 0 to |entries|
      invariant visited + Visited(entries[r..], at) == Visited(entries, 0)
    {
      ghost var rest := entries[r + 1..];
      var e := entries[r];
      assert entries[r..][0] == e && entries[r..][1..] == rest;
      if !Bit(e, 0) {
        Advance(visited, [e], Visited(rest, (e + 8) % M64));
        visited := visited + [e];
        at := (e + 8) % M64;
      } else {
        var slots := VisitBitmap(e, at);
        Advance(visited, slots, Visited(rest, (at + SPAN) % M64));
        visited := visited + slots;
        at := (at + SPAN) % M64;
      }
    }
    Finished(visited);
  }

  // --- The encoding ---

  ghost predicate Relocatable(addrs: seq<nat>) {
    && (forall i, j | 0 <= i < j < |addrs| :: addrs[i] < addrs[j])
    && (forall i | 0 <= i < |addrs| :: addrs[i] % 8 == 0 && addrs[i] < M64)
  }

  /** How many leading addresses a bitmap at BASE covers. */
  function Covered(addrs: seq<nat>, base: nat): (n: nat)
    ensures n <= |addrs|
    ensures forall i | 0 <= i < n :: base <= addrs[i] < base + SPAN
    ensures n < |addrs| ==> !(base <= addrs[n] < base + SPAN)
  {
    if addrs == [] || !(base <= addrs[0] < base + SPAN) then 0
    else
      var n := Covered(addrs[1..], base);
      assert forall i | 1 <= i < n + 1 :: addrs[i] == addrs[1..][i - 1];
      n + 1
  }

  /** The address of the slot bit B >= 1 stands for. */
  function SlotAddress(base: nat, b: nat): int {
    base + (b - 1) * 8
  }

  /** The bits of a bitmap word: its tag, and one per covered slot. */
  function SlotBits(chunk: seq<nat>, base: nat): (s: set<nat>)
    requires base % 8 == 0 && forall i | 0 <= i < |chunk| :: base <= chunk[i] && chunk[i] % 8 == 0
    ensures 0 in s
    ensures forall b: nat | b >= 1 :: b in s <==> SlotAddress(base, b) in chunk
  {
    if chunk == [] then {0} else SlotBits(chunk[1..], base) + {1 + (chunk[0] - base) / 8}
  }

  /** Address entries, each followed by bitmaps as long as they catch
      something. */
  function Encode(addrs: seq<nat>): seq<U64>
    requires Relocatable(addrs)
    decreases |addrs|, 1
  {
    if addrs == [] then [] else [addrs[0] as U64] + Bitmaps(addrs[1..], addrs[0] + 8)
  }

  lemma NumOfFits(s: set<nat>)
    ensures NumOf(s, 64) < M64
  {
    hide Pow2, NumOf;
    TwoTo64();
  }

  function Bitmaps(addrs: seq<nat>, base: nat): seq<U64>
    requires Relocatable(addrs) && base % 8 == 0
    decreases |addrs|, 2
  {
    var n := Covered(addrs, base);
    if n == 0 then Encode(addrs)
    else
      NumOfFits(SlotBits(addrs[..n], base));
      [NumOf(SlotBits(addrs[..n], base), 64)] + Bitmaps(addrs[n..], base + SPAN)
  }

  lemma EvenModulus(n: nat, k: nat)
    requires k > 0
    ensures n % (2 * k) % 2 == n % 2
  {
    var q, r := n / (2 * k), n % (2 * k);
    assert n == r + k * q * 2;
    ModMultiple(r, k * q, 2);
  }

  lemma LowestBitStep(n: nat, w: nat)
    requires w >= 2
    ensures 0 in BitsOf(n, w) <==> 0 in BitsOf(n % Pow2(w - 1), w - 1)
  {
    hide Pow2;
  }

  lemma {:induction false} LowestBit(n: nat, w: nat)
    requires w >= 1
    ensures 0 in BitsOf(n, w) <==> n % 2 == 1
  {
    hide BitsOf;
    if w == 1 {
      OneBit(n);
    } else {
      LowestBitStep(n, w);
      LowestBit(n % Pow2(w - 1), w - 1);
      EvenModulus(n, Pow2(w - 2));
    }
  }

  lemma OneBit(n: nat)
    ensures 0 in BitsOf(n, 1) <==> n % 2 == 1
  {
    assert Pow2(0) == 1 && BitsOf(n % 1, 0) == {};
  }

  // --- Decoding the encoding ---

  /** A bitmap word holds exactly the bits it was made of. */
  lemma BitmapBits(s: set<nat>, b: nat)
    requires b < 64
    ensures NumOf(s, 64) < M64
    ensures Bit(NumOf(s, 64), b) <==> b in s
  {
    TwoTo64();
    BitsOfNumOf(s, 64);
  }

  /** The slots of a word whose bits are a chunk's are the chunk, in order. */
  lemma {:induction false} SlotsOfChunk(e: U64, chunk: seq<nat>, base: nat, b: nat)
    requires 1 <= b <= 64 && base % 8 == 0 && Relocatable(chunk)
    requires forall i | 0 <= i < |chunk| :: SlotAddress(base, b) <= chunk[i] < base + SPAN
    requires forall j: nat | b <= j < 64 :: Bit(e, j) <==> SlotAddress(base, j) in chunk
    ensures Slots(e, base, b) == chunk
    decreases 64 - b
  {
    hide Bit, SlotAt, SlotAddress;
    if b < 64 {
      var here := SlotAddress(base, b);
      SlotPlace(base, b, chunk);
      var rest := if chunk != [] && chunk[0] == here then chunk[1..] else chunk;
      forall i | 0 <= i < |rest| ensures SlotAddress(base, b + 1) <= rest[i] < base + SPAN {
        NextSlot(here, rest[i]);
      }
      forall j: nat | b + 1 <= j < 64 ensures Bit(e, j) <==> SlotAddress(base, j) in rest {
        assert SlotAddress(base, j) > here by {
          SlotPlace(base, b, chunk);
        }
        assert SlotAddress(base, j) in chunk <==> SlotAddress(base, j) in rest;
      }
      SlotsOfChunk(e, rest, base, b + 1);
    } else {
      SlotPlace(base, b, chunk);
      assert First(chunk) >= 0;
    }
  }

  lemma SlotPlace(base: nat, b: nat, chunk: seq<nat>)
    requires 1 <= b <= 64 && base % 8 == 0 && Relocatable(chunk)
    ensures var here := SlotAddress(base, b);
            && here % 8 == 0 && base <= here && (here < M64 ==> SlotAt(base, b) == here)
            && SlotAddress(base, b + 1) == here + 8 && (b == 64 ==> here == base + SPAN)
            && (forall j: nat | j > b :: SlotAddress(base, j) > here)
            && (forall i | 0 <= i < |chunk| :: chunk[i] < M64)
  {
    if SlotAddress(base, b) < M64 {
      ModOnce(SlotAddress(base, b), M64);
    }
  }

  function First(s: seq<nat>): nat {
    if s == [] then 0 else s[0]
  }

  lemma NextSlot(a: nat, b: nat)
    requires a % 8 == 0 && b % 8 == 0 && a < b
    ensures a + 8 <= b
  {
  }

  lemma RelocatableParts(addrs: seq<nat>, n: nat)
    requires Relocatable(addrs) && n <= |addrs|
    ensures Relocatable(addrs[..n]) && Relocatable(addrs[n..])
  {
  }

  /** Decoding an encoding visits exactly its addresses, in order, wherever the
      decoder stood: each bitmap covers the 63 slots after the last, with no
      gap and no overlap. */
  lemma {:induction false} DecodeEncode(addrs: seq<nat>, at: nat)
    requires Relocatable(addrs)
    ensures Visited(Encode(addrs), at) == addrs
    decreases |addrs|, 1
  {
    hide Bit, Slots, Bitmaps;
    if addrs != [] {
      var first: U64 := addrs[0];
      var rest := Bitmaps(addrs[1..], addrs[0] + 8);
      assert ([first] + rest)[1..] == rest;
      AddressEntry(first);
      RelocatableParts(addrs, 1);
      BitmapsDecode(addrs[1..], addrs[0] + 8);
      assert [addrs[0]] + addrs[1..] == addrs;
    }
  }

  lemma AddressEntry(e: U64)
    requires e % 8 == 0
    ensures !Bit(e, 0)
  {
    LowestBit(e, 64);
  }

  lemma VisitedCons(e: U64, rest: seq<U64>, at: nat)
    ensures Visited([e] + rest, at)
            == if !Bit(e, 0) then [e] + Visited(rest, (e + 8) % M64)
               else Slots(e, at, 1) + Visited(rest, (at + SPAN) % M64)
  {
    hide Bit, Slots;
    assert ([e] + rest)[1..] == rest;
  }

  lemma {:induction false} BitmapsDecode(addrs: seq<nat>, base: nat)
    requires Relocatable(addrs) && base % 8 == 0
    ensures Visited(Bitmaps(addrs, base), base % M64) == addrs
    decreases |addrs|, 2
  {
    hide Bit, Slots, SlotBits, NumOf, Visited, Bitmaps, Covered;
    var n := Covered(addrs, base);
    BitmapsAre(addrs, base, n);
    if n == 0 {
      DecodeEncode(addrs, base % M64);
    } else {
      var chunk := addrs[..n];
      ModOnce(base, M64);
      BitmapWord(chunk, base);
      VisitedCons(NumOf(SlotBits(chunk, base), 64), Bitmaps(addrs[n..], base + SPAN), base % M64);
      BitmapsDecode(addrs[n..], base + SPAN);
      ModPlus(base, SPAN, M64);
      assert chunk + addrs[n..] == addrs;
    }
  }

  lemma BitmapsAre(addrs: seq<nat>, base: nat, n: nat)
    requires Relocatable(addrs) && base % 8 == 0 && n == Covered(addrs, base)
    ensures n == 0 ==> Bitmaps(addrs, base) == Encode(addrs)
    ensures n > 0 ==>
              && base < M64 && Relocatable(addrs[..n]) && Relocatable(addrs[n..])
              && NumOf(SlotBits(addrs[..n], base), 64) < M64
              && Bitmaps(addrs, base)
                 == [NumOf(SlotBits(addrs[..n], base), 64)] + Bitmaps(addrs[n..], base + SPAN)
  {
    hide NumOf, SlotBits, Encode, Covered;
    RelocatableParts(addrs, n);
    NumOfFits(SlotBits(addrs[..n], base));
    assert n > 0 ==> base <= addrs[0];
  }

  /** One bitmap word, made of a chunk that fits it, decodes to the chunk. */
  lemma BitmapWord(chunk: seq<nat>, base: nat)
    requires Relocatable(chunk) && base % 8 == 0
    requires forall i | 0 <= i < |chunk| :: base <= chunk[i] < base + SPAN
    ensures NumOf(SlotBits(chunk, base), 64) < M64
    ensures var e: U64 := NumOf(SlotBits(chunk, base), 64);
            Bit(e, 0) && Slots(e, base, 1) == chunk
  {
    hide Bit, Slots, NumOf;
    var bits := SlotBits(chunk, base);
    BitmapBits(bits, 0);
    var e: U64 := NumOf(bits, 64);
    forall j: nat | 1 <= j < 64 ensures Bit(e, j) <==> SlotAddress(base, j) in chunk {
      BitmapBits(bits, j);
    }
    SlotsOfChunk(e, chunk, base, 1);
  }
}
