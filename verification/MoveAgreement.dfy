/**
 The two readings of a MOVZ or MOVN, as a set of one bits by the Python scanner
 and in halfwords by the C one, are one value.
 */
module MoveAgreement {
  import opened Options
  import opened Widths
  import opened Arithmetic
  import opened Bits
  import opened Words
  import MoveImmediate
  import SplitAdd

  /** The low A bits and the B bits above them. */
  lemma {:induction false} NumOfJoin(s: set<nat>, a: nat, b: nat)
    ensures NumOf(s, a + b) == NumOf(s, a) + Pow2(a) * NumOf(Shr(s, a), b)
  {
    hide Shr;
    if b > 0 {
      NumOfJoin(s, a, b - 1);
      Pow2Add(a, b - 1);
      var high, top := NumOf(Shr(s, a), b - 1), Pow2(b - 1);
      Distributes(Pow2(a), high, top);
      assert a + b - 1 in s <==> b - 1 in Shr(s, a);
    }
  }

  lemma Distributes(m: nat, x: nat, y: nat)
    ensures m * (x + y) == m * x + m * y
  {}

  lemma {:induction false} NumOfNot(s: set<nat>, w: nat)
    ensures NumOf(Low(w) - s, w) + NumOf(s, w) == Pow2(w) - 1
  {
    if w > 0 {
      NumOfNot(s, w - 1);
      NumOfBelow(Low(w) - s, Low(w - 1) - s, w - 1);
    }
  }

  lemma {:induction false} NumOfNone(w: nat)
    ensures NumOf({}, w) == 0
  {
    if w > 0 {
      NumOfNone(w - 1);
    }
  }

  /** Halfword K of S. */
  function HalfOf(s: set<nat>, k: nat): nat {
    NumOf(Shr(s, 16 * k), 16)
  }

  lemma HalfPowers()
    ensures Pow2(16) == 0x1_0000 && Pow2(32) == 0x1_0000_0000 && Pow2(48) == 0x1_0000_0000_0000
  {
    hide Pow2;
    EightBits();
    Pow2Add(8, 8);
    Pow2Add(16, 16);
    Pow2Add(32, 16);
  }

  lemma FourHalves(s: set<nat>)
    ensures NumOf(s, 64) == HalfOf(s, 0) + HalfOf(s, 1) * 0x1_0000 + HalfOf(s, 2) * 0x1_0000_0000
                            + HalfOf(s, 3) * 0x1_0000_0000_0000
  {
    hide Pow2, NumOf;
    HalfPowers();
    NumOfJoin(s, 16, 16);
    NumOfJoin(s, 32, 16);
    NumOfJoin(s, 48, 16);
    assert Shr(s, 0) == s;
  }

  /** Halfword K of an immediate shifted to halfword HW, and of its complement. */
  lemma HalfOfShifted(b: set<nat>, hw: nat, k: nat)
    requires b <= Low(16)
    ensures HalfOf(Shl(b, 16 * hw), k) == if k == hw then NumOf(b, 16) else 0
  {
    hide Low, Shl, Shr, NumOf;
    var s := Shr(Shl(b, 16 * hw), 16 * k);
    forall j: nat ensures j in s * Low(16) <==> k == hw && j in b * Low(16) {
      ShiftedBit(b, hw, k, j);
    }
    NumOfNone(16);
    if k == hw {
      assert s * Low(16) == b * Low(16);
      NumOfBelow(s, b, 16);
    } else {
      assert s * Low(16) == {} * Low(16);
      NumOfBelow(s, {}, 16);
    }
  }

  lemma ShiftedBit(b: set<nat>, hw: nat, k: nat, j: nat)
    requires b <= Low(16)
    ensures j in Shr(Shl(b, 16 * hw), 16 * k) * Low(16) <==> k == hw && j in b * Low(16)
  {
    hide Low, Shl, Shr;
  }

  lemma HalfOfComplement(s: set<nat>, w: nat, k: nat)
    requires w == 32 || w == 64
    ensures HalfOf(Low(w) - s, k) == if 16 * k < w then 0xFFFF - HalfOf(s, k) else 0
  {
    hide Shr, Low;
    HalfPowers();
    var t, u := Shr(Low(w) - s, 16 * k), Shr(s, 16 * k);
    if 16 * k < w {
      assert t * Low(16) == (Low(16) - u) * Low(16);
      NumOfBelow(t, Low(16) - u, 16);
      NumOfNot(u, 16);
    } else {
      assert t * Low(16) == {} * Low(16);
      NumOfBelow(t, {}, 16);
      NumOfNone(16);
    }
  }

  /** What a MOVZ or MOVN leaves is the same number in both readings. */
  lemma MovesAgree(w: Word, before: SplitAdd.Halves)
    requires SplitAdd.IsMoveWide(w) && Opc(w) != 3
    ensures MoveImmediate.ConstValue(w).Some?
    ensures NumOf(MoveImmediate.ConstValue(w).value, 64) == SplitAdd.NumberOf(SplitAdd.Wide(w, before))
  {
    hide NumOf, SplitAdd.Wide, MoveImmediate.ConstValue;
    WideHalf(w, before, 0);
    WideHalf(w, before, 1);
    WideHalf(w, before, 2);
    WideHalf(w, before, 3);
    FourHalves(MoveImmediate.ConstValue(w).value);
  }

  lemma WideHalf(w: Word, before: SplitAdd.Halves, k: nat)
    requires SplitAdd.IsMoveWide(w) && Opc(w) != 3 && k < 4
    ensures MoveImmediate.ConstValue(w).Some?
    ensures HalfOf(MoveImmediate.ConstValue(w).value, k) == SplitAdd.Wide(w, before)[k]
  {
    hide NumOf, BitsOf, Low, Shl, HalfOf, SplitAdd.Wide, SplitAdd.IsMoveWide, MoveImmediate.ConstValue;
    var b := BitsOf(Imm16(w), 16);
    HalfPowers();
    NumOfBitsOf(Imm16(w), 16);
    ConstShape(w);
    WideShape(w, before, k);
    hide Sf, Opc, Hw, Imm16;
    HalfOfShifted(b, Hw(w), k);
    HalfOfComplement(Shl(b, 16 * Hw(w)), if Sf(w) == 1 then 64 else 32, k);
  }

  lemma ConstShape(w: Word)
    requires SplitAdd.IsMoveWide(w) && Opc(w) != 3
    ensures var s := Shl(BitsOf(Imm16(w), 16), 16 * Hw(w));
            MoveImmediate.ConstValue(w)
            == Some(if Opc(w) == 2 then s else Low(if Sf(w) == 1 then 64 else 32) - s)
  {
    hide BitsOf, Low, Shl, Sf, Opc, Class, Hw, Imm16;
  }

  lemma WideShape(w: Word, before: SplitAdd.Halves, k: nat)
    requires SplitAdd.IsMoveWide(w) && Opc(w) != 3 && k < 4
    ensures SplitAdd.Wide(w, before)[k]
            == var half := if k == Hw(w) then Imm16(w) else 0;
               if Opc(w) == 2 then half else if Sf(w) == 1 || k < 2 then 0xFFFF - half else 0
  {
    hide Sf, Opc, Class, Hw, Imm16;
  }
}
