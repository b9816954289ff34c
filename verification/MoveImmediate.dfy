/**
 The constant-materializing instructions: MOVZ, MOVN and ORR from the zero
 register. tools/net11scan.py reads the value one leaves; tools/rwfuzz.c
 chooses one that leaves a wanted value.
 */
module MoveImmediate {
  import opened Options
  import opened Widths
  import opened Arithmetic
  import opened Bits
  import opened Words
  import opened LogicalImmediate

  const OPC_MOVN := 0
  const OPC_ORR := 1
  const OPC_MOVZ := 2

  function LogimmValue(x: Word): Option<set<nat>> {
    Decode(NBit(x), Immr(x), Imms(x), Width(x))
  }

  function ShiftedImm(x: Word): set<nat> {
    Shl(BitsOf(Imm16(x), 16), 16 * Hw(x))
  }

  /** What is in all 64 bits of Rd after the word, if the word alone decides
      that: a W form clears the upper half. */
  function ConstValue(x: Word): Option<set<nat>> {
    if Opc(x) == OPC_ORR && Class(x) == LOGICAL_IMM && Rn(x) == 31 then LogimmValue(x)
    else if Opc(x) == OPC_MOVZ && Class(x) == MOVE_WIDE then
      if Sf(x) == 1 || Hw(x) < 2 then Some(ShiftedImm(x)) else None
    else if Opc(x) == OPC_MOVN && Class(x) == MOVE_WIDE then
      if Sf(x) == 1 then Some(Low(64) - ShiftedImm(x))
      else if Hw(x) < 2 then Some(Low(32) - ShiftedImm(x))
      else None
    else None
  }

  /** One halfword of a value, moved down and read as a number. */
  function Halfword(v: set<nat>, hw: nat): (n: nat)
    ensures n < 0x1_0000
  {
    assert Pow2(4) == 16 && Pow2(8) == 256 && Pow2(12) == 4096;
    NumOf(Shr(v, 16 * hw), 16)
  }

  lemma HalfwordBack(v: set<nat>, hw: nat)
    ensures Shl(BitsOf(Halfword(v, hw), 16), 16 * hw) == v * Span(16 * hw, 16)
  {
    BitsOfNumOf(Shr(v, 16 * hw), 16);
    var s := Shl(BitsOf(Halfword(v, hw), 16), 16 * hw);
    forall j: nat ensures j in s <==> j in v * Span(16 * hw, 16) {
      if j >= 16 * hw {
        assert j - 16 * hw in Shr(v, 16 * hw) <==> j in v;
      }
    }
  }

  /** What MoveWide leaves. */
  lemma MoveWideValue(sf: nat, hw: nat, v: set<nat>, d: nat)
    requires sf < 2 && hw < (if sf == 1 then 4 else 2) && d < 32
    ensures ConstValue(MoveWide(sf, OPC_MOVZ, hw, Halfword(v, hw), d)) == Some(v * Span(16 * hw, 16))
    ensures ConstValue(MoveWide(sf, OPC_MOVN, hw, Halfword(v, hw), d))
            == Some(Low(if sf == 1 then 64 else 32) - v * Span(16 * hw, 16))
  {
    hide MoveWide, Halfword, Span;
    HalfwordBack(v, hw);
  }

  lemma OrrValue(sf: nat, n: nat, immr: nat, imms: nat, d: nat)
    requires sf < 2 && n < 2 && immr < 64 && imms < 64 && d < 32
    ensures ConstValue(BitImm(sf, OPC_ORR, LOGICAL_IMM, n, immr, imms, 31, d))
            == Decode(n, immr, imms, if sf == 1 then 64 else 32)
  {
    hide BitImm, Decode;
  }

  /** No MOVZ or MOVN of this halfword leaves V. */
  ghost predicate WideMisses(sf: nat, hw: nat, v: set<nat>)
    requires sf < 2
  {
    && !(v <= Span(16 * hw, 16))
    && !(Low(if sf == 1 then 64 else 32) - v <= Span(16 * hw, 16))
  }

  lemma WideMissesAll(x: Word, v: set<nat>)
    requires Class(x) == MOVE_WIDE && v <= Low(Width(x))
    requires WideMisses(Sf(x), Hw(x), v)
    ensures ConstValue(x) != Some(v)
  {
    hide Sf, Hw, Class, Opc, Imm16, Span, ShiftedImm, BitsOf, Low;
    ShiftedImmBelow(x);
    ComplementBack(v, ShiftedImm(x), Low(Width(x)));
  }

  lemma ComplementBack(v: set<nat>, s: set<nat>, all: set<nat>)
    ensures v == all - s ==> all - v <= s
  {
  }

  lemma ShiftedImmBelow(x: Word)
    ensures ShiftedImm(x) <= Span(16 * Hw(x), 16)
  {
  }

  /** A value inside, or outside but for, one halfword is that halfword. */
  lemma SpanHolds(v: set<nat>, half: set<nat>, width: nat)
    requires width <= 64 && v <= Low(width)
    ensures v - half == {} ==> v * half == v
    ensures Low(width) - v - half == {} ==> Low(width) - (Low(64) - v) * half == v
  {
    if Low(width) - v - half == {} {
      forall j: nat | j < width ensures j in v || j in half {
        assert j !in Low(width) - v - half;
      }
    }
  }

  /** At 32 bits, N = 1 is reserved and the top bit of immr is ignored. */
  lemma NarrowEncodings(r: nat, s: nat)
    requires r < 64 && s < 64
    ensures Decode(1, r, s, 32) == None
    ensures r >= 32 ==> Decode(0, r, s, 32) == Decode(0, r - 32, s, 32)
  {
    hide Tile, Rotated, Pow2, BitLength, Low;
    ElementSize(64 + (63 - s));
    if s < 63 && r >= 32 {
      ElementSize(63 - s);
      var esize := Pow2(BitLength(63 - s) - 1);
      ModMultiple(r - 32, 32 / esize, esize);
    }
  }

  /** With every halfword and every encoding refused, no word of the width
      leaves V. */
  lemma NothingLeft(w: Word, v: set<nat>, width: nat)
    requires width == Width(w) && v <= Low(width)
    requires forall h: nat | h < width / 16 :: WideMisses(Sf(w), h, v)
    requires forall n: nat, r: nat, s: nat | n <= Sf(w) && r < width && s < 64 ::
               Decode(n, r, s, width) != Some(v)
    ensures ConstValue(w) != Some(v)
  {
    hide Decode, Hw, Class, Opc, Imm16, Immr, Imms, NBit, WideMisses;
    if Opc(w) == OPC_ORR && Class(w) == LOGICAL_IMM && Rn(w) == 31 {
      NarrowEncodings(Immr(w), Imms(w));
    } else if Class(w) == MOVE_WIDE && Hw(w) < width / 16 {
      WideMissesAll(w, v);
    }
  }

  /** Some word of that width leaves V. */
  ghost predicate OneMove(x: bool, v: set<nat>) {
    exists w: Word :: Sf(w) == (if x then 1 else 0) && ConstValue(w) == Some(v)
  }

  /** MOV Rd, #V as one instruction: MOVZ, MOVN, or ORR from ZR. */
  method MovImm(x: bool, d: nat, v: set<nat>) returns (ok: bool, out: Word)
    requires d < 32 && v <= Low(64)
    ensures ok ==> Sf(out) == (if x then 1 else 0) && Rd(out) == d
    ensures ok ==> ConstValue(out) == Some(v * Low(if x then 64 else 32))
    ensures ok <==> OneMove(x, v * Low(if x then 64 else 32))
  {
    hide Decode, ConstValue, Low, Span, Sf, Rd, Halfword, BitImm, MoveWide;
    out := 0;
    var width := if x then 64 else 32;
    var sf := if x then 1 else 0;
    var v' := v * Low(width);
    for hw := 0 to width / 16
      invariant forall h: nat | h < hw :: WideMisses(sf, h, v')
    {
      var half := Span(16 * hw, 16);
      if v' - half == {} {
        MoveWideValue(sf, hw, v', d);
        SpanHolds(v', half, width);
        return true, MoveWide(sf, OPC_MOVZ, hw, Halfword(v', hw), d);
      }
      if Low(width) - v' - half == {} {
        MoveWideValue(sf, hw, Low(64) - v', d);
        SpanHolds(v', half, width);
        return true, MoveWide(sf, OPC_MOVN, hw, Halfword(Low(64) - v', hw), d);
      }
    }
    for n := 0 to if x then 2 else 1
      invariant forall n': nat, r: nat, s: nat | n' < n && r < width && s < 64 ::
                  Decode(n', r, s, width) != Some(v')
    {
      for immr := 0 to width
        invariant forall r: nat, s: nat | r < immr && s < 64 :: Decode(n, r, s, width) != Some(v')
      {
        for imms := 0 to 64
          invariant forall s: nat | s < imms :: Decode(n, immr, s, width) != Some(v')
        {
          var got, m := BitmaskValue(n, immr, imms, width);
          if got && m == v' {
            OrrValue(sf, n, immr, imms, d);
            out := BitImm(sf, OPC_ORR, LOGICAL_IMM, n, immr, imms, 31, d);
            return true, out;
          }
        }
      }
    }
    forall w: Word | Sf(w) == sf ensures ConstValue(w) != Some(v') {
      NothingLeft(w, v', width);
    }
    return false, out;
  }

  lemma ShiftedNarrow(w: Word)
    requires Hw(w) < 2
    ensures ShiftedImm(w) <= Low(32)
  {}

  lemma LogimmBelow(x: Word)
    requires LogimmValue(x).Some?
    ensures LogimmValue(x).value <= Low(Width(x))
  {
    hide Decode;
    DecodeIsPattern(NBit(x), Immr(x), Imms(x), Width(x));
  }

  /** A W word leaves nothing in the upper half. */
  lemma NarrowValue(w: Word)
    requires Sf(w) == 0 && ConstValue(w).Some?
    ensures ConstValue(w).value <= Low(32)
  {
    hide LogimmValue, ShiftedImm, Low, Class, Opc, Rn, Hw;
    if LogimmValue(w).Some? {
      LogimmBelow(w);
    }
    if Hw(w) < 2 {
      ShiftedNarrow(w);
    }
  }

  /** Some word at all leaves V exactly when the search succeeds at 64 bits, or
      V is narrow and it succeeds at 32. */
  lemma SomeMoveIff(v: set<nat>)
    ensures (exists w: Word :: ConstValue(w) == Some(v)) <==> OneMove(true, v) || (v <= Low(32) && OneMove(false, v))
  {
    hide ConstValue, Low;
    if w: Word :| ConstValue(w) == Some(v) {
      if Sf(w) == 0 {
        NarrowValue(w);
        assert OneMove(false, v);
      } else {
        assert OneMove(true, v);
      }
    }
  }

  /** The one bits of 0xEDCB. */
  function Edcb(): set<nat> {
    {0, 1, 3, 6, 7, 8, 10, 11, 13, 14, 15}
  }

  /** No rotated run repeats to 64 bits with nothing in the upper half and with
      bits 2 and 5 each the last before a zero. */
  lemma NoRunTwice(v: set<nat>)
    requires v <= Low(32) && 2 in v && 3 !in v && 5 in v && 6 !in v
    ensures !IsPattern(v, 64)
  {
    hide Pattern;
    if esize: nat, len: nat, rot: nat :| ValidShape(esize, len, rot, 64) && v == Pattern(esize, len, rot, 64) {
      RunHasOneEnd(esize, len, rot);
    }
  }

  /** A short element repeats 32 bits up; a long one has one last bit. */
  lemma RunHasOneEnd(esize: nat, len: nat, rot: nat)
    requires ValidShape(esize, len, rot, 64)
    ensures var v := Pattern(esize, len, rot, 64);
            if esize < 64 then 2 in v <==> 34 in v else !(2 in v && 3 !in v && 5 in v && 6 !in v)
  {
    hide Pattern;
    if esize < 64 {
      HalfTurn(2 + rot, esize);
    } else if (2 + rot) % 64 < len <= (3 + rot) % 64 && (5 + rot) % 64 < len <= (6 + rot) % 64 {
      LastOfRun(2, rot, len);
      LastOfRun(5, rot, len);
    }
  }

  lemma LastOfRun(j: nat, rot: nat, len: nat)
    requires j < 63 && rot < 64 && (j + rot) % 64 < len <= (j + 1 + rot) % 64
    ensures (j + rot) % 64 == len - 1
  {}

  lemma HalfTurn(a: nat, esize: nat)
    requires esize in {2, 4, 8, 16, 32}
    ensures (a + 32) % esize == a % esize
  {
    assert 32 / esize * esize == 32;
    ModMultiple(a, 32 / esize, esize);
  }

  /** 0xFFFF1234 is left by MOVN Wd, #0xEDCB and by no X word, so the search at
      64 bits alone would miss it. */
  lemma NarrowOnly()
    ensures var v := Low(32) - Edcb(); OneMove(false, v) && !OneMove(true, v)
  {
    hide Decode, Halfword, MoveWide, ConstValue, Low, Span, IsPattern, OneMove;
    var v: set<nat> := Low(32) - Edcb();
    EdcbIsHalfword();
    MoveWideValue(0, 0, Edcb(), 0);
    assert OneMove(false, v) by {
      FoundMove(MoveWide(0, OPC_MOVN, 0, Halfword(Edcb(), 0), 0), v);
    }
    NoRunTwice(v);
    forall h: nat | h < 4 ensures WideMisses(1, h, v) {
      SpansMiss(h, v);
    }
    forall n: nat, r: nat, s: nat | n <= 1 && r < 64 && s < 64 ensures Decode(n, r, s, 64) != Some(v) {
      DecodedPattern(n, r, s);
    }
    if OneMove(true, v) {
      var w := AMove(true, v);
      NothingLeft(w, v, 64);
    }
  }

  lemma EdcbIsHalfword()
    ensures Edcb() * Span(0, 16) == Edcb()
  {
    assert forall j | j in Edcb() :: j in Span(0, 16);
  }

  lemma FoundMove(w: Word, v: set<nat>)
    requires Sf(w) == 0 && ConstValue(w) == Some(v)
    ensures OneMove(false, v)
  {
    hide ConstValue;
  }

  lemma AMove(x: bool, v: set<nat>) returns (w: Word)
    requires OneMove(x, v)
    ensures Sf(w) == (if x then 1 else 0) && ConstValue(w) == Some(v)
  {
    hide ConstValue;
    w :| Sf(w) == (if x then 1 else 0) && ConstValue(w) == Some(v);
  }

  lemma DecodedPattern(n: nat, r: nat, s: nat)
    requires n <= 1 && r < 64 && s < 64
    ensures Decode(n, r, s, 64).Some? ==> IsPattern(Decode(n, r, s, 64).value, 64)
  {
    hide Decode, Pattern;
    if Decode(n, r, s, 64).Some? {
      DecodeIsPattern(n, r, s, 64);
    }
  }

  lemma InSpan(h: nat, j: nat)
    ensures j in Span(16 * h, 16) <==> 16 * h <= j < 16 * h + 16
  {}

  lemma NarrowOnlyBits()
    ensures var v, all := Low(32) - Edcb(), Low(64);
            2 in v && 31 in v && 0 in all - v && 40 in all - v
  {
    hide Low;
    assert Edcb() * {2, 31, 40} == {} && 0 in Edcb();
  }

  lemma SpansMiss(h: nat, v: set<nat>)
    requires h < 4 && v == Low(32) - Edcb()
    ensures WideMisses(1, h, v)
  {
    hide Span, Low, Edcb;
    NarrowOnlyBits();
    InSpan(h, 2);
    InSpan(h, 31);
    InSpan(h, 0);
    InSpan(h, 40);
  }
}
