/**
 Machine values as the sets of their one bits: AND is intersection, OR is
 union, NOT at a width is the complement in the width's positions. A value is
 below 2^k exactly when all its bits are below k.
 */
module Bits {
  import opened Arithmetic

  /** 2^k - 1. */
  function Low(k: nat): (s: set<nat>)
    ensures forall i: nat :: i in s <==> i < k
  {
    if k == 0 then {} else Low(k - 1) + {k - 1}
  }

  function Shr(s: set<nat>, r: nat): (t: set<nat>)
    ensures forall j: nat :: j in t <==> j + r in s
  {
    var t: set<nat> := set i | i in s && r <= i :: i - r;
    ShrBits(s, r, t);
    t
  }

  lemma ShrBits(s: set<nat>, r: nat, t: set<nat>)
    requires t == set i | i in s && r <= i :: i - r
    ensures forall j: nat :: j in t <==> j + r in s
  {
    forall j: nat ensures j in t <==> j + r in s {
      var i := j + r;
      if i in s {
        assert i - r in t;
      }
    }
  }

  function Shl(s: set<nat>, k: nat): (t: set<nat>)
    ensures forall j: nat :: j in t <==> j >= k && j - k in s
  {
    var t: set<nat> := set i | i in s :: i + k;
    ShlBits(s, k, t);
    t
  }

  lemma ShlBits(s: set<nat>, k: nat, t: set<nat>)
    requires t == set i | i in s :: i + k
    ensures forall j: nat :: j in t <==> j >= k && j - k in s
  {
    forall j: nat ensures j in t <==> j >= k && j - k in s {
      if j >= k && j - k in s {
        var i := j - k;
        assert i + k in t;
      }
    }
  }

  /** The positions sh .. sh+n-1. */
  function Span(sh: nat, n: nat): set<nat> {
    Shl(Low(n), sh)
  }

  // Between bit sets and numbers.

  /** The number whose bits below W are those of S. */
  function NumOf(s: set<nat>, w: nat): (n: nat)
    ensures n < Pow2(w)
  {
    if w == 0 then 0
    else NumOf(s, w - 1) + if w - 1 in s then Pow2(w - 1) else 0
  }

  /** The one bits of N, below W. */
  function BitsOf(n: nat, w: nat): (s: set<nat>)
    ensures s <= Low(w)
    decreases w
  {
    if w == 0 then {}
    else if n / Pow2(w - 1) % 2 == 1 then BitsOf(n % Pow2(w - 1), w - 1) + {w - 1}
    else BitsOf(n % Pow2(w - 1), w - 1)
  }

  lemma TopSplit(n: nat, w: nat)
    requires w >= 1 && n < Pow2(w)
    ensures n / Pow2(w - 1) == if n >= Pow2(w - 1) then 1 else 0
    ensures n % Pow2(w - 1) == if n >= Pow2(w - 1) then n - Pow2(w - 1) else n
  {
    TopBit(n, Pow2(w - 1));
    ModOnce(n, Pow2(w - 1));
  }

  lemma {:induction false} NumOfBitsOf(n: nat, w: nat)
    requires n < Pow2(w)
    ensures NumOf(BitsOf(n, w), w) == n
  {
    if w > 0 {
      TopSplit(n, w);
      NumOfBitsOf(n % Pow2(w - 1), w - 1);
      NumOfBelow(BitsOf(n, w), BitsOf(n % Pow2(w - 1), w - 1), w - 1);
    }
  }

  /** NumOf looks at the bits below W only. */
  lemma {:induction false} NumOfBelow(s: set<nat>, t: set<nat>, w: nat)
    requires s * Low(w) == t * Low(w)
    ensures NumOf(s, w) == NumOf(t, w)
  {
    if w > 0 {
      assert s * Low(w - 1) == s * Low(w) * Low(w - 1);
      assert t * Low(w - 1) == t * Low(w) * Low(w - 1);
      assert w - 1 in s <==> w - 1 in s * Low(w);
      assert w - 1 in t <==> w - 1 in t * Low(w);
      NumOfBelow(s, t, w - 1);
    }
  }

  lemma {:induction false} BitsOfNumOf(s: set<nat>, w: nat)
    ensures BitsOf(NumOf(s, w), w) == s * Low(w)
  {
    if w > 0 {
      TopSplit(NumOf(s, w), w);
      assert NumOf(s, w) % Pow2(w - 1) == NumOf(s, w - 1);
      BitsOfNumOf(s, w - 1);
    }
  }
}
