/**
 The condition flags of CMP and CMN at any register width, as
 tools/net11scan.py computes them, and the shared pseudocode of the Arm
 Architecture Reference Manual they stand for.
 */
module Nzcv {
  import opened Arithmetic

  datatype Flags = Flags(n: bool, z: bool, c: bool, v: bool)

  /** ConditionHolds on a 4-bit condition code. */
  function CondHolds(cond: nat, f: Flags): bool
    requires cond < 16
  {
    var r := match cond / 2
      case 0 => f.z
      case 1 => f.c
      case 2 => f.n
      case 3 => f.v
      case 4 => f.c && !f.z
      case 5 => f.n == f.v
      case 6 => f.n == f.v && !f.z
      case _ => true;
    if cond % 2 == 1 && cond != 15 then !r else r
  }

  /** NZCV of CMP (or CMN) X, #K at a width of W bits: both operands are
      reduced to the width first. */
  function Compare(x: int, k: int, w: nat, cmn: bool): Flags
    requires w >= 1
  {
    CompareMasked(x % Pow2(w), k % Pow2(w), w, cmn)
  }

  function CompareMasked(x: nat, k: nat, w: nat, cmn: bool): Flags
    requires w >= 1
  {
    var mask := Pow2(w) - 1;
    var half := Pow2(w - 1);
    if cmn then
      var full := x + k;
      var res := full % (mask + 1);
      Flags(res / half != 0, res == 0, full > mask,
            x / half == k / half && res / half != x / half)
    else
      var res := (x - k) % (mask + 1);
      Flags(res / half != 0, res == 0, x >= k,
            x / half != k / half && res / half != x / half)
  }

  // The reference: AddWithCarry of the Arm ARM's shared pseudocode.

  /** SInt: the two's complement reading of a w-bit value. */
  function SInt(x: nat, w: nat): int
    requires w >= 1
  {
    if x < Pow2(w - 1) then x else x - Pow2(w)
  }

  function AddWithCarry(x: nat, y: nat, carry: nat, w: nat): Flags
    requires w >= 1
  {
    var unsignedSum := x + y + carry;
    var signedSum := SInt(x, w) + SInt(y, w) + carry;
    var result := unsignedSum % Pow2(w);
    Flags(result >= Pow2(w - 1), result == 0, result != unsignedSum, SInt(result, w) != signedSum)
  }

  /** A compare of in-range operands, with the modulus taken apart. */
  ghost function Reduced(x: nat, k: nat, w: nat, cmn: bool): Flags
    requires w >= 1
  {
    var half, m := Pow2(w - 1), Pow2(w);
    var res := if cmn then (if x + k >= m then x + k - m else x + k)
               else (if x >= k then x - k else x - k + m);
    Flags(res >= half, res == 0, if cmn then x + k >= m else x >= k,
          if cmn then (x >= half) == (k >= half) && (res >= half) != (x >= half)
          else (x >= half) != (k >= half) && (res >= half) != (x >= half))
  }

  lemma MaskedReduced(x: nat, k: nat, w: nat, cmn: bool)
    requires w >= 1 && x < Pow2(w) && k < Pow2(w)
    ensures CompareMasked(x, k, w, cmn) == Reduced(x, k, w, cmn)
  {
    var half, m := Pow2(w - 1), Pow2(w);
    ModOnce(if cmn then x + k else x - k, m);
    TopBit(x, half);
    TopBit(k, half);
    TopBit(if cmn then (if x + k >= m then x + k - m else x + k)
           else (if x >= k then x - k else x - k + m), half);
  }

  lemma CompareReduced(x: int, k: int, w: nat, cmn: bool)
    requires w >= 1
    ensures Compare(x, k, w, cmn) == Reduced(x % Pow2(w), k % Pow2(w), w, cmn)
  {
    MaskedReduced(x % Pow2(w), k % Pow2(w), w, cmn);
  }

  lemma CompareInRange(x: int, k: int, w: nat, cmn: bool)
    requires w >= 1
    requires 0 <= x < Pow2(w) && 0 <= k < Pow2(w)
    ensures Compare(x, k, w, cmn) == Reduced(x, k, w, cmn)
  {
    CompareReduced(x, k, w, cmn);
    ModOnce(x, Pow2(w));
    ModOnce(k, Pow2(w));
  }

  lemma AddReduced(x: nat, y: nat, carry: nat, w: nat)
    requires w >= 1 && x < Pow2(w) && y < Pow2(w) && carry <= 1
    ensures var half, m := Pow2(w - 1), Pow2(w);
            var sum := x + y + carry;
            var res := if sum >= m then sum - m else sum;
            AddWithCarry(x, y, carry, w)
            == Flags(res >= half, res == 0, sum >= m,
                     (x >= half) == (y >= half) && (res >= half) != (x >= half))
  {
    ModOnce(x + y + carry, Pow2(w));
  }

  /** CMP is AddWithCarry of X and NOT(K) with carry in, CMN is
      AddWithCarry of X and K without: every flag, for every operand. */
  lemma CompareIsAddWithCarry(x: int, k: int, w: nat, cmn: bool)
    requires w >= 1
    requires 0 <= x < Pow2(w) && 0 <= k < Pow2(w)
    ensures Compare(x, k, w, cmn)
            == if cmn then AddWithCarry(x, k, 0, w) else AddWithCarry(x, Pow2(w) - 1 - k, 1, w)
  {
    CompareInRange(x, k, w, cmn);
    AddReduced(x, if cmn then k else Pow2(w) - 1 - k, if cmn then 0 else 1, w);
  }

  /** V does not fit w bits as a signed number. */
  predicate Overflows(v: int, w: nat)
    requires w >= 1
  {
    v + Pow2(w - 1) < 0 || v >= Pow2(w - 1)
  }

  /** What each condition means after CMP: equality, the unsigned and the
      signed order of the operands, the sign of their difference at the width,
      and whether it overflows. */
  lemma ConditionMeaning(x: int, k: int, w: nat)
    requires w >= 1
    requires 0 <= x < Pow2(w) && 0 <= k < Pow2(w)
    ensures var f := Compare(x, k, w, false);
            && (CondHolds(0, f) <==> x == k) && (CondHolds(1, f) <==> x != k)
            && (CondHolds(2, f) <==> x >= k) && (CondHolds(3, f) <==> x < k)
            && (CondHolds(8, f) <==> x > k) && (CondHolds(9, f) <==> x <= k)
            && (CondHolds(10, f) <==> SInt(x, w) >= SInt(k, w))
            && (CondHolds(11, f) <==> SInt(x, w) < SInt(k, w))
            && (CondHolds(12, f) <==> SInt(x, w) > SInt(k, w))
            && (CondHolds(13, f) <==> SInt(x, w) <= SInt(k, w))
            && (CondHolds(4, f) <==> (x - k) % Pow2(w) >= Pow2(w - 1))
            && (CondHolds(5, f) <==> (x - k) % Pow2(w) < Pow2(w - 1))
            && (CondHolds(6, f) <==> Overflows(SInt(x, w) - SInt(k, w), w))
            && (CondHolds(7, f) <==> !Overflows(SInt(x, w) - SInt(k, w), w))
            && CondHolds(14, f) && CondHolds(15, f)
  {
    CompareInRange(x, k, w, false);
    ModOnce(x - k, Pow2(w));
  }

  /** What each means after CMN: of the sum instead. */
  lemma CmnMeaning(x: int, k: int, w: nat)
    requires w >= 1
    requires 0 <= x < Pow2(w) && 0 <= k < Pow2(w)
    ensures var f, sum, signed := Compare(x, k, w, true), x + k, SInt(x, w) + SInt(k, w);
            && (CondHolds(0, f) <==> sum % Pow2(w) == 0) && (CondHolds(1, f) <==> sum % Pow2(w) != 0)
            && (CondHolds(2, f) <==> sum >= Pow2(w)) && (CondHolds(3, f) <==> sum < Pow2(w))
            && (CondHolds(4, f) <==> sum % Pow2(w) >= Pow2(w - 1))
            && (CondHolds(5, f) <==> sum % Pow2(w) < Pow2(w - 1))
            && (CondHolds(6, f) <==> Overflows(signed, w)) && (CondHolds(7, f) <==> !Overflows(signed, w))
            && (CondHolds(8, f) <==> sum > Pow2(w)) && (CondHolds(9, f) <==> sum <= Pow2(w))
            && (CondHolds(10, f) <==> signed >= 0) && (CondHolds(11, f) <==> signed < 0)
            && (CondHolds(12, f) <==> signed > 0) && (CondHolds(13, f) <==> signed <= 0)
            && CondHolds(14, f) && CondHolds(15, f)
  {
    CompareInRange(x, k, w, true);
    ModOnce(x + k, Pow2(w));
  }

  /** The flags as the four bits N, Z, C, V of an immediate. */
  function Nibble(f: Flags): (n: nat)
    ensures n < 16
  {
    (if f.n then 8 else 0) + (if f.z then 4 else 0) + (if f.c then 2 else 0) + (if f.v then 1 else 0)
  }

  lemma NibbleUnique(f: Flags, g: Flags)
    ensures Nibble(f) == Nibble(g) ==> f == g
  {}
}
