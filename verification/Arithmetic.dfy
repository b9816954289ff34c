/** Powers of two and the modular arithmetic the other modules share. */
module Arithmetic {

  function Pow2(e: nat): (p: nat)
    ensures p > 0
  {
    if e == 0 then 1 else 2 * Pow2(e - 1)
  }

  lemma Pow2Grows(a: nat, b: nat)
    requires a <= b
    ensures Pow2(a) <= Pow2(b)
  {
    if a < b {
      Pow2Grows(a, b - 1);
    }
  }

  lemma ModOnce(a: int, m: int)
    requires m > 0
    ensures 0 <= a < m ==> a % m == a
    ensures m <= a < 2 * m ==> a % m == a - m
    ensures -m <= a < 0 ==> a % m == a + m
  {
    if m <= a < 2 * m {
      ModShift(a - m, 1, m);
    } else if -m <= a < 0 {
      ModShift(a + m, -1, m);
    }
  }

  lemma ModShift(r: int, q: int, m: int)
    requires 0 <= r < m
    ensures (r + q * m) % m == r
    ensures (r + q * m) / m == q
  {
    var a := r + q * m;
    var d := q - a / m;
    assert d * m == a % m - r by {
      assert a == m * (a / m) + a % m;
    }
    if d >= 1 {
      MulAtLeast(d, m);
    } else if d <= -1 {
      MulAtLeast(-d, m);
    }
  }

  lemma MulAtLeast(d: int, m: int)
    requires d >= 1 && m >= 0
    ensures d * m >= m && -d * m <= -m
  {
  }

  lemma TopBit(x: int, half: int)
    requires half > 0 && 0 <= x < 2 * half
    ensures x / half == if x >= half then 1 else 0
  {
    ModOnce(x, half);
    assert x == half * (x / half) + x % half;
  }

  lemma ModPlus(a: int, b: int, m: int)
    requires m > 0
    ensures (a % m + b) % m == (a + b) % m
  {
    var r, q := (a % m + b) % m, (a % m + b) / m;
    assert a + b == r + (q + a / m) * m;
    ModShift(r, q + a / m, m);
  }

  lemma ModMultiple(a: int, q: int, m: int)
    requires m > 0
    ensures (a + q * m) % m == a % m
  {
    assert a + q * m == a % m + (q + a / m) * m;
    ModShift(a % m, q + a / m, m);
  }

  lemma ModNeg(a: int, m: int)
    requires m > 0
    ensures -a % m == if a % m == 0 then 0 else m - a % m
  {
    if a % m == 0 {
      assert -a == 0 + -(a / m) * m;
      ModShift(0, -(a / m), m);
    } else {
      assert -a == (m - a % m) + (-(a / m) - 1) * m;
      ModShift(m - a % m, -(a / m) - 1, m);
    }
  }

  lemma MulMonotone(a: nat, b: nat, m: nat)
    requires a <= b
    ensures a * m <= b * m
  {
  }

  lemma {:induction false} Pow2Add(a: nat, b: nat)
    ensures Pow2(a + b) == Pow2(a) * Pow2(b)
  {
    if b > 0 {
      Pow2Add(a, b - 1);
      assert Pow2(a + b) == 2 * Pow2(a + (b - 1));
      assert Pow2(a) * Pow2(b) == 2 * (Pow2(a) * Pow2(b - 1));
    }
  }

  lemma TwoTo64()
    ensures Pow2(64) == 0x1_0000_0000_0000_0000
  {
    hide Pow2;
    EightBits();
    Pow2Add(8, 8);
    Pow2Add(16, 16);
    Pow2Add(32, 32);
  }

  lemma EightBits()
    ensures Pow2(8) == 0x100
  {
    assert Pow2(4) == 16;
  }
}
