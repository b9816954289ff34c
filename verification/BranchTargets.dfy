/**
 The branch-target bitsets of tools/pairscan.c and tools/defuse.c: one bit per
 4-byte word of a section, set where some direct branch lands.
 */
module BranchTargets {
  import opened Options
  import opened Widths
  import opened Branches

  /** The little-endian word at index I. */
  function WordAt(code: seq<Byte>, i: nat): Word
    requires 4 * i + 4 <= |code|
  {
    WordOf(code[4 * i..4 * i + 4])
  }

  /** The branch at word I lands at byte T of the section. */
  predicate LandsAt(code: seq<Byte>, i: nat, t: nat) {
    && 4 * i + 4 <= |code| && t < |code|
    && Displacement(WordAt(code, i)).Some?
    && 4 * i + 4 * Displacement(WordAt(code, i)).value == t
  }

  /** Some direct branch of the section lands at byte T. */
  ghost predicate IsLanding(code: seq<Byte>, t: nat) {
    exists i: nat :: LandsAt(code, i, t)
  }

  /** The displacement in bytes as tools/pairscan.c shifts it out. */
  function PairscanOffset(w: Word): Option<int> {
    if Top6(w) == 0x05 || Top6(w) == 0x25 then Some(UpAndDown(Imm26(w), 6) * 4)
    else if Top8(w) == 0x54 then Some(UpAndDown(Imm19(w), 13) * 4)
    else if Test6(w) == 0x1A then Some(UpAndDown(Imm19(w), 13) * 4)
    else if Test6(w) == 0x1B then Some(UpAndDown(Imm14(w), 18) * 4)
    else None
  }

  /** The same in tools/defuse.c. */
  function DefuseOffset(w: Word): Option<int> {
    if Top6(w) == 0x05 || Top6(w) == 0x25 then Some(UpAndDown(Imm26(w), 6) * 4)
    else if Top8(w) == 0x54 || Test6(w) == 0x1A then Some(UpAndDown(Imm19(w), 13) * 4)
    else if Test6(w) == 0x1B then Some(UpAndDown(Imm14(w), 18) * 4)
    else None
  }

  /** Both are the encoding's displacement, four bytes to the word. */
  lemma OffsetsAreDisplacements(w: Word)
    ensures PairscanOffset(w) == DefuseOffset(w)
            == (match Displacement(w) case None => None case Some(d) => Some(4 * d))
  {
    hide Top6, Top8, Test6, Imm26, Imm19, Imm14, UpAndDown, SignExtend;
    UpAndDownExtends(Imm26(w), 6);
    UpAndDownExtends(Imm19(w), 13);
    UpAndDownExtends(Imm14(w), 18);
  }

  /** The bits set so far are exactly the landings of the first N words. A
      byte of the bitset is the set of its one bits. */
  ghost predicate Marked(bits: seq<set<nat>>, code: seq<Byte>, n: nat) {
    forall word: nat | word < 8 * |bits| ::
      word % 8 in bits[word / 8] <==> exists i: nat :: i < n && LandsAt(code, i, 4 * word)
  }

  /** BITS with the bit for byte offset T set. */
  function Mark(bits: seq<set<nat>>, t: nat): (r: seq<set<nat>>)
    requires t / 4 / 8 < |bits|
    ensures |r| == |bits|
    ensures forall word: nat | word < 8 * |bits| ::
              word % 8 in r[word / 8] <==> word % 8 in bits[word / 8] || word == t / 4
  {
    bits[t / 4 / 8 := bits[t / 4 / 8] + {t / 4 % 8}]
  }

  /** Where the branch at word I lands, when that is in the section. */
  function Landing(code: seq<Byte>, i: nat): (t: Option<nat>)
    requires 4 * i + 4 <= |code|
    ensures t.Some? ==> t.value < |code| && t.value % 4 == 0
  {
    match Displacement(WordAt(code, i))
    case None => None
    case Some(d) => if 0 <= 4 * i + 4 * d < |code| then Some(4 * i + 4 * d) else None
  }

  lemma LandsWhere(code: seq<Byte>, i: nat, word: nat)
    requires 4 * i + 4 <= |code|
    ensures LandsAt(code, i, 4 * word) <==> Landing(code, i).Some? && Landing(code, i).value / 4 == word
  {
    hide Displacement, WordAt;
  }

  lemma MarkNext(bits: seq<set<nat>>, after: seq<set<nat>>, code: seq<Byte>, i: nat)
    requires 4 * i + 4 <= |code| && Marked(bits, code, i)
    requires match Landing(code, i)
             case None => after == bits
             case Some(t) => t / 4 / 8 < |bits| && after == Mark(bits, t)
    ensures Marked(after, code, i + 1)
  {
    hide Landing, LandsAt, Mark;
    forall word: nat | word < 8 * |after|
      ensures word % 8 in after[word / 8] <==> exists j: nat :: j < i + 1 && LandsAt(code, j, 4 * word)
    {
      LandsWhere(code, i, word);
      LandsNext(code, i, word);
      assert word % 8 in bits[word / 8] <==> exists j: nat :: j < i && LandsAt(code, j, 4 * word);
    }
  }

  lemma LandsNext(code: seq<Byte>, i: nat, word: nat)
    ensures (exists j: nat :: j < i + 1 && LandsAt(code, j, 4 * word))
            <==> LandsAt(code, i, 4 * word) || exists j: nat :: j < i && LandsAt(code, j, 4 * word)
  {
    hide LandsAt;
    if j: nat :| j < i && LandsAt(code, j, 4 * word) {
      assert j < i + 1;
    }
    if LandsAt(code, i, 4 * word) {
      assert i < i + 1;
    }
  }

  /** The bitset of tools/pairscan.c has a byte per eight whole words. */
  function Bitset(code: seq<Byte>): nat {
    (|code| / 4 + 7) / 8
  }

  /** A branch lands in the partial word after the last whole one. */
  ghost predicate LandsInTail(code: seq<Byte>) {
    |code| % 4 != 0 && IsLanding(code, |code| / 4 * 4)
  }

  /** Every landing has its bit in that bitset if and only if the whole words
      do not just fill it or none is in a trailing partial word. */
  lemma MarksFitIff(code: seq<Byte>)
    ensures (forall t: nat | IsLanding(code, t) :: t / 4 / 8 < Bitset(code))
            <==> |code| / 4 % 8 != 0 || !LandsInTail(code)
  {
    hide IsLanding;
    var words := |code| / 4;
    forall t: nat | IsLanding(code, t)
      ensures t / 4 / 8 < Bitset(code) <==> words % 8 != 0 || t < words * 4
      ensures t >= words * 4 ==> t == words * 4 && |code| % 4 != 0
    {
      LandingAligned(code, t);
      TailPlace(|code|, t);
      BitsetReach(words, t / 4);
    }
  }

  lemma LandingAligned(code: seq<Byte>, t: nat)
    requires IsLanding(code, t)
    ensures t % 4 == 0 && t < |code|
  {
    hide Displacement, WordAt;
  }

  lemma TailPlace(size: nat, t: nat)
    requires t % 4 == 0 && t < size
    ensures t / 4 <= size / 4 && (t / 4 < size / 4 <==> t < size / 4 * 4)
    ensures t >= size / 4 * 4 ==> t == size / 4 * 4 && size % 4 != 0
  {}

  lemma BitsetReach(words: nat, word: nat)
    requires word <= words
    ensures word / 8 < (words + 7) / 8 <==> words % 8 != 0 || word < words
  {}

  /** The scan of tools/pairscan.c. It writes outside its bitset, which INSIDE
      denies, exactly on a section with a landing that has no bit there. */
  method MarkBranchTargets(code: seq<Byte>) returns (bits: array<set<nat>>, inside: bool)
    ensures fresh(bits) && bits.Length == Bitset(code)
    ensures inside <==> |code| / 4 % 8 != 0 || !LandsInTail(code)
    ensures inside ==> Marked(bits[..], code, |code| / 4)
  {
    hide PairscanOffset, Displacement, WordAt, LandsInTail;
    var words := |code| / 4;
    MarksFitIff(code);
    bits := new set<nat>[(words + 7) / 8](_ => {});
    for i := 0 to words
      invariant Marked(bits[..], code, i)
      invariant forall j: nat, t: nat | j < i && LandsAt(code, j, t) :: t / 4 / 8 < bits.Length
    {
      ghost var before := bits[..];
      var w := WordAt(code, i);
      var off := PairscanOffset(w);
      OffsetsAreDisplacements(w);
      if off.Some? {
        var tgt := i * 4 + off.value;
        if 0 <= tgt < |code| {
          if tgt / 4 / 8 >= bits.Length {
            assert LandsAt(code, i, tgt) && IsLanding(code, tgt);
            return bits, false;
          }
          bits[tgt / 4 / 8] := bits[tgt / 4 / 8] + {tgt / 4 % 8};
          assert bits[..] == Mark(before, tgt);
        }
      }
      MarkNext(before, bits[..], code, i);
    }
    inside := true;
  }

  /** A 33-byte section whose first word branches to byte 32. */
  function TailSection(): (code: seq<Byte>)
    ensures |code| == 33
  {
    [8, 0, 0, 0x14] + seq(29, k => 0)
  }

  lemma TailSectionOverruns()
    ensures IsLanding(TailSection(), 32) && 32 / 4 / 8 >= Bitset(TailSection())
    ensures |TailSection()| / 4 % 8 == 0 && LandsInTail(TailSection())
  {
    var code := TailSection();
    assert WordAt(code, 0) == 0x1400_0008;
    assert Displacement(0x1400_0008) == Some(8);
    assert LandsAt(code, 0, 32);
    assert IsLanding(code, 32);
  }

  /** The test a scan makes at each instruction. */
  predicate IsTarget(bits: array<set<nat>>, off: nat)
    requires off / 4 / 8 < bits.Length
    reads bits
  {
    off / 4 % 8 in bits[off / 4 / 8]
  }

  /** A marked bitset answers whether a branch of the section lands there, for
      every word-aligned offset. */
  lemma TargetIffLanding(bits: array<set<nat>>, code: seq<Byte>, off: nat)
    requires Marked(bits[..], code, |code| / 4)
    requires off % 4 == 0 && off / 4 / 8 < bits.Length
    ensures IsTarget(bits, off) <==> IsLanding(code, off)
  {
    hide Displacement, WordAt;
    var word := off / 4;
    assert word % 8 in bits[..][word / 8] <==> exists i: nat :: i < |code| / 4 && LandsAt(code, i, 4 * word);
    if IsLanding(code, off) {
      var i: nat :| LandsAt(code, i, off);
      assert i < |code| / 4;
    }
  }

  /** The scan of tools/defuse.c, whose bitset has room for a landing in a
      trailing partial word. */
  method MarkDefuseTargets(code: seq<Byte>) returns (bits: array<set<nat>>)
    ensures fresh(bits) && bits.Length == |code| / 4 / 8 + 1
    ensures Marked(bits[..], code, |code| / 4)
  {
    hide DefuseOffset, Displacement, WordAt;
    var words := |code| / 4;
    bits := new set<nat>[words / 8 + 1](_ => {});
    for i := 0 to words
      invariant Marked(bits[..], code, i)
    {
      ghost var before := bits[..];
      var w := WordAt(code, i);
      var off := DefuseOffset(w);
      OffsetsAreDisplacements(w);
      if off.Some? {
        var t := i * 4 + off.value;
        if 0 <= t < |code| {
          bits[t / 4 / 8] := bits[t / 4 / 8] + {t / 4 % 8};
          assert bits[..] == Mark(before, t);
        }
      }
      MarkNext(before, bits[..], code, i);
    }
  }

  /** At every instruction the two scans answer alike. */
  lemma ScansAgree(pair: array<set<nat>>, defuse: array<set<nat>>, code: seq<Byte>, off: nat)
    requires off < |code| / 4 * 4 && off % 4 == 0
    requires pair.Length == Bitset(code) && Marked(pair[..], code, |code| / 4)
    requires defuse.Length == |code| / 4 / 8 + 1 && Marked(defuse[..], code, |code| / 4)
    ensures off / 4 / 8 < pair.Length && off / 4 / 8 < defuse.Length
    ensures IsTarget(pair, off) <==> IsTarget(defuse, off)
  {
    BitsetReach(|code| / 4, off / 4);
    TargetIffLanding(pair, code, off);
    TargetIffLanding(defuse, code, off);
  }
}
