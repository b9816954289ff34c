/**
 Splitting an ADD or SUB of a MOV-chain constant into two immediate
 instructions, as tools/rwfuzz.c does. A register value is a number below
 2^64; a chain is evaluated in four halfwords.
 */
module SplitAdd {
  import opened Options
  import opened Widths
  import opened Arithmetic
  import opened Words

  const M24 := 0x100_0000

  type Halves = h: seq<nat> | |h| == 4 && forall i | 0 <= i < 4 :: h[i] < 0x1_0000
    witness [0, 0, 0, 0]

  function HalvesOf(n: nat): Halves {
    [n % 0x1_0000, n / 0x1_0000 % 0x1_0000, n / 0x1_0000_0000 % 0x1_0000, n / 0x1_0000_0000_0000 % 0x1_0000]
  }

  function NumberOf(h: Halves): (n: nat)
    ensures n < M64
  {
    h[0] + h[1] * 0x1_0000 + h[2] * 0x1_0000_0000 + h[3] * 0x1_0000_0000_0000
  }

  lemma HalvesRoundTrip(h: Halves)
    ensures HalvesOf(NumberOf(h)) == h
  {
    var n := NumberOf(h);
    assert n / 0x1_0000 == h[1] + h[2] * 0x1_0000 + h[3] * 0x1_0000_0000;
    assert n / 0x1_0000_0000 == h[2] + h[3] * 0x1_0000;
    assert n / 0x1_0000_0000_0000 == h[3];
  }

  function Not(h: Halves): Halves {
    [0xFFFF - h[0], 0xFFFF - h[1], 0xFFFF - h[2], 0xFFFF - h[3]]
  }

  function LowHalves(h: Halves): Halves { [h[0], h[1], 0, 0] }

  // --- What the instructions do ---

  /** The 32 register slots; slot 31 reads as zero and is never written. */
  type Regs = r: seq<nat> | |r| == 32 && r[31] == 0 && forall i | 0 <= i < 32 :: r[i] < M64
    witness seq(32, i => 0)

  function Write(regs: Regs, d: nat, v: nat): Regs
    requires d < 32 && v < M64
  {
    if d == 31 then regs else regs[d := v]
  }

  predicate IsMoveWide(w: Word) { Class(w) == MOVE_WIDE && Opc(w) != 1 && (Sf(w) == 1 || Hw(w) < 2) }

  /** ADD or SUB of two unshifted registers, not setting flags. */
  predicate IsAddSubReg(w: Word) { Op5(w) == 0x0B && SBit(w) == 0 && Bit21(w) == 0 && Imms(w) == 0 }

  /** ADD or SUB immediate between general registers, not setting flags. */
  predicate IsAddSubImm(w: Word) {
    Op5(w) == 0x11 && SBit(w) == 0 && Bit23(w) == 0 && Rn(w) != 31 && Rd(w) != 31
  }

  predicate Supported(w: Word) { w == NOP || IsMoveWide(w) || IsAddSubReg(w) || IsAddSubImm(w) }

  function Modulus(w: Word): (m: nat)
    ensures m == M32 || m == M64
  {
    if Sf(w) == 1 then M64 else M32
  }

  /** MOVN, MOVZ and MOVK on the halfwords of the destination; a W write
      clears the upper two. */
  function Wide(w: Word, before: Halves): Halves {
    var after := if Opc(w) == 3 then before[Hw(w) := Imm16(w)]
                  else if Opc(w) == 2 then [0, 0, 0, 0][Hw(w) := Imm16(w)]
                  else Not([0, 0, 0, 0][Hw(w) := Imm16(w)]);
    if Sf(w) == 1 then after else LowHalves(after)
  }

  function Exec(w: Word, regs: Regs): Regs
    requires Supported(w)
  {
    if w == NOP then regs
    else if IsMoveWide(w) then Write(regs, Rd(w), NumberOf(Wide(w, HalvesOf(regs[Rd(w)]))))
    else
      var m := Modulus(w);
      var b := if IsAddSubReg(w) then regs[Rm(w)]
               else if NBit(w) == 1 then Imm12(w) * 0x1000 else Imm12(w);
      Write(regs, Rd(w), (if SubBit(w) == 1 then regs[Rn(w)] - b else regs[Rn(w)] + b) % m)
  }

  predicate AllSupported(code: seq<Word>) {
    forall i | 0 <= i < |code| :: Supported(code[i])
  }

  function Run(code: seq<Word>, regs: Regs): Regs
    requires AllSupported(code)
  {
    if code == [] then regs else Run(code[1..], Exec(code[0], regs))
  }

  /** ADD/SUB immediate, the immediate optionally shifted left by 12. */
  function AddSubImm(x: bool, sub: bool, d: nat, n: nat, i: nat, lsl12: bool): (w: Word)
    requires d < 32 && n < 32 && i < 0x1000
    ensures Sf(w) == (if x then 1 else 0) && SubBit(w) == (if sub then 1 else 0)
    ensures Op5(w) == 0x11 && SBit(w) == 0 && Bit23(w) == 0 && NBit(w) == (if lsl12 then 1 else 0)
    ensures Imm12(w) == i && Rn(w) == n && Rd(w) == d && w != NOP
  {
    AddSubImmFields(if x then 1 else 0, if sub then 1 else 0, if lsl12 then 1 else 0, i, n, d);
    (if x then 0x8000_0000 else 0) + (if sub then 0x5100_0000 else 0x1100_0000)
    + (if lsl12 then 0x40_0000 else 0) + i * 0x400 + n * 0x20 + d
  }

  lemma AddSubImmFields(sf: nat, sub: nat, sh: nat, i: nat, n: nat, d: nat)
    requires sf < 2 && sub < 2 && sh < 2 && i < 0x1000 && n < 32 && d < 32
    ensures var w := sf * 0x8000_0000 + sub * 0x4000_0000 + 0x1100_0000 + sh * 0x40_0000 + i * 0x400 + n * 0x20 + d;
            && w / 0x8000_0000 == sf && w / 0x4000_0000 % 2 == sub && w / 0x2000_0000 % 2 == 0
            && w / 0x100_0000 % 32 == 0x11 && w / 0x80_0000 % 2 == 0 && w / 0x40_0000 % 2 == sh
            && w / 0x400 % 0x1000 == i && w / 0x20 % 32 == n && w % 32 == d && w != NOP
  {
    var w := sf * 0x8000_0000 + sub * 0x4000_0000 + 0x1100_0000 + sh * 0x40_0000 + i * 0x400 + n * 0x20 + d;
    assert w / 0x4000_0000 == sf * 2 + sub;
    assert w / 0x2000_0000 == sf * 4 + sub * 2;
    assert w / 0x100_0000 == sf * 0x80 + sub * 0x40 + 0x11;
    assert w / 0x80_0000 == sf * 0x100 + sub * 0x80 + 0x22;
    assert w / 0x40_0000 == sf * 0x200 + sub * 0x100 + 0x44 + sh;
    assert w / 0x400 == (sf * 0x200 + sub * 0x100 + 0x44 + sh) * 0x1000 + i;
    assert w / 0x20 == ((sf * 0x200 + sub * 0x100 + 0x44 + sh) * 0x1000 + i) * 32 + n;
  }

  // --- The MOV chain ---

  predicate IsMovk(w: Word, c: nat, x: bool) {
    Class(w) == MOVE_WIDE && Opc(w) == 3 && Rd(w) == c && (Sf(w) == 1) == x
  }

  predicate IsMovBase(w: Word, c: nat, x: bool) {
    Class(w) == MOVE_WIDE && (Opc(w) == 0 || Opc(w) == 2) && Rd(w) == c && (Sf(w) == 1) == x
  }

  predicate IsChain(code: seq<Word>, c: nat, x: bool) {
    && |code| >= 1 && IsMovBase(code[0], c, x)
    && forall k | 1 <= k < |code| :: IsMovk(code[k], c, x)
  }

  function ChainBase(w: Word): Halves {
    var h := [0, 0, 0, 0][Hw(w) := Imm16(w)];
    if Opc(w) == 0 then Not(h) else h
  }

  /** The chain evaluated at 64 bits, whatever its width. */
  function ChainHalves(code: seq<Word>): Halves
    requires |code| >= 1
  {
    if |code| == 1 then ChainBase(code[0])
    else ChainHalves(code[..|code| - 1])[Hw(code[|code| - 1]) := Imm16(code[|code| - 1])]
  }

  function ChainValue(code: seq<Word>, x: bool): (n: nat)
    requires |code| >= 1
    ensures n < M64
  {
    NumberOf(if x then ChainHalves(code) else LowHalves(ChainHalves(code)))
  }

  lemma {:induction false} RunAppend(a: seq<Word>, b: seq<Word>, regs: Regs)
    requires AllSupported(a) && AllSupported(b) && AllSupported(a + b)
    ensures Run(a + b, regs) == Run(b, Run(a, regs))
  {
    if a == [] {
      assert a + b == b;
    } else {
      assert (a + b)[1..] == a[1..] + b;
      assert (a + b)[0] == a[0];
      RunAppend(a[1..], b, Exec(a[0], regs));
    }
  }

  lemma RunOne(w: Word, regs: Regs)
    requires Supported(w)
    ensures Run([w], regs) == Exec(w, regs)
  {
    assert [w][1..] == [];
  }

  /** One more MOVK. */
  lemma WideAfterChain(init: seq<Word>, last: Word, c: nat, x: bool, regs: Regs)
    requires |init| >= 1 && IsMovk(last, c, x) && IsMoveWide(last) && c < 31
    ensures Exec(last, regs[c := ChainValue(init, x)]) == regs[c := ChainValue(init + [last], x)]
  {
    hide Exec, ChainHalves, NumberOf, HalvesOf, Sf, Class, Imm16, Rd, Hw, IsMoveWide;
    var h := if x then ChainHalves(init) else LowHalves(ChainHalves(init));
    var mid: Regs := regs[c := ChainValue(init, x)];
    HalvesRoundTrip(h);
    ExecWide(last, c, x, mid, h);
    ChainGrows(init, last);
    assert mid[c := ChainValue(init + [last], x)] == regs[c := ChainValue(init + [last], x)];
  }

  lemma ChainGrows(init: seq<Word>, last: Word)
    requires |init| >= 1
    ensures ChainHalves(init + [last]) == ChainHalves(init)[Hw(last) := Imm16(last)]
  {
    hide Hw, Imm16;
    assert (init + [last])[..|init|] == init;
  }

  /** Evaluating the chain at 64 bits and cutting to its width once is what
      executing its MOVZ or MOVN and any number of MOVKs leaves. */
  lemma {:induction false} ChainRuns(code: seq<Word>, c: nat, x: bool, regs: Regs)
    requires IsChain(code, c, x) && c < 31
    requires forall k | 0 <= k < |code| :: IsMoveWide(code[k])
    ensures Run(code, regs) == regs[c := ChainValue(code, x)]
  {
    hide Exec, NumberOf, HalvesOf, Sf, Class, Opc, Imm16, Rd, Hw, IsMoveWide, IsMovk, IsMovBase;
    var n := |code| - 1;
    var last := code[n];
    if n == 0 {
      assert code == [last];
      RunOne(last, regs);
      BaseRuns(last, c, x, regs);
    } else {
      var init := code[..n];
      assert code == init + [last];
      ChainRuns(init, c, x, regs);
      RunAppend(init, [last], regs);
      RunOne(last, Run(init, regs));
      WideAfterChain(init, last, c, x, regs);
    }
  }

  lemma BaseRuns(w: Word, c: nat, x: bool, regs: Regs)
    requires IsMovBase(w, c, x) && IsMoveWide(w) && c < 31
    ensures Exec(w, regs) == regs[c := ChainValue([w], x)]
  {
    hide Exec, NumberOf, HalvesOf, Imm16, Hw;
    ExecWide(w, c, x, regs, HalvesOf(regs[c]));
  }

  lemma ExecWide(w: Word, c: nat, x: bool, regs: Regs, h: Halves)
    requires IsMoveWide(w) && (IsMovBase(w, c, x) || IsMovk(w, c, x)) && c < 31
    requires HalvesOf(regs[c]) == h
    ensures var after := if Opc(w) == 3 then h[Hw(w) := Imm16(w)] else ChainBase(w);
            Exec(w, regs) == regs[c := NumberOf(if x then after else LowHalves(after))]
  {
    hide HalvesOf, NumberOf, Imm16, Hw, Opc, Sf, Class, Rd;
    NopIsNoMove(w);
  }

  lemma NopIsNoMove(w: Word)
    requires Class(w) == MOVE_WIDE
    ensures w != NOP
  {
  }

  // --- The split ---

  /** Rd := other +/- (hi << 12) +/- lo in place of the chain first..i-1 and
      the ADD or SUB at i. */
  datatype Split = Split(first: nat, c: nat, d: nat, other: nat, x: bool, sub: bool, hi: nat, lo: nat)

  /** The chain's first word, scanning back over MOVKs. */
  function ChainStart(prog: seq<Word>, bodyStart: nat, at: nat, c: nat, x: bool): (first: nat)
    requires at < |prog|
    ensures first <= at && (bodyStart <= at ==> bodyStart <= first)
    ensures forall k | first < k <= at :: IsMovk(prog[k], c, x)
  {
    if at > bodyStart && IsMovk(prog[at], c, x) then ChainStart(prog, bodyStart, at - 1, c, x) else at
  }

  function SplitOf(prog: seq<Word>, bodyStart: nat, i: nat): Option<Split>
    requires i < |prog|
  {
    var cons := prog[i];
    if Op5(cons) != 0x0B || Bit21(cons) != 0 || i < bodyStart + 2 then None
    else
      var c, xc := Rd(prog[i - 1]), Sf(prog[i - 1]) == 1;
      var first := ChainStart(prog, bodyStart, i - 1, c, xc);
      if !IsMovBase(prog[first], c, xc) || first == i - 1 then None
      else
        var other :=
          if Rm(cons) == c && Rn(cons) != c then Rn(cons)
          else if SubBit(cons) == 0 && Rn(cons) == c && Rm(cons) != c then Rm(cons)
          else 31;
        if other == 31 || Rd(cons) == 31 then None
        else
          var m := Modulus(cons);
          var v := ChainValue(prog[first..i], xc) % m;
          var crossed := v >= M24;
          var mag := if crossed then m - v else v;
          if mag >= M24 || mag / 0x1000 == 0 || mag % 0x1000 == 0 then None
          else Some(Split(first, c, Rd(cons), other, Sf(cons) == 1, (SubBit(cons) == 1) != crossed,
                          mag / 0x1000, mag % 0x1000))
  }

  /** The words the span becomes. */
  function SplitWords(s: Split, i: nat): seq<Word>
    requires s.first + 2 <= i && s.d < 32 && s.other < 32 && s.hi < 0x1000 && s.lo < 0x1000
  {
    seq(i - 1 - s.first, k => NOP)
    + [AddSubImm(s.x, s.sub, s.d, s.other, s.hi, true), AddSubImm(s.x, s.sub, s.d, s.d, s.lo, false)]
  }

  lemma SplitFields(prog: seq<Word>, bodyStart: nat, i: nat)
    requires i < |prog| && SplitOf(prog, bodyStart, i).Some?
    ensures var s := SplitOf(prog, bodyStart, i).value;
            && bodyStart <= s.first && s.first + 2 <= i && s.c < 32 && s.d < 31 && s.other < 31
            && s.other != s.c && 1 <= s.hi <= 0xFFF && 1 <= s.lo <= 0xFFF
            && IsChain(prog[s.first..i], s.c, Sf(prog[i - 1]) == 1)
  {
    hide Sf, Rd, Class, Opc, Op5, Bit21, SubBit, Rm, Rn, ChainValue;
    var c, xc := Rd(prog[i - 1]), Sf(prog[i - 1]) == 1;
    var first := ChainStart(prog, bodyStart, i - 1, c, xc);
    forall k | 1 <= k < i - first ensures IsMovk(prog[first..i][k], c, xc) {
      assert prog[first..i][k] == prog[first + k];
    }
  }

  lemma ChainFirst(words: seq<Word>, first: nat, i: nat)
    requires first < i <= |words|
    ensures ChainHalves(words[first..i][..1]) == ChainBase(words[first])
  {
    assert words[first..i][..1] == [words[first]];
  }

  lemma ChainNext(words: seq<Word>, first: nat, i: nat, k: nat)
    requires first < k < i <= |words|
    ensures ChainHalves(words[first..i][..k + 1 - first])
            == ChainHalves(words[first..i][..k - first])[Hw(words[k]) := Imm16(words[k])]
  {
    hide Hw, Imm16;
    var longer := words[first..i][..k + 1 - first];
    assert longer[..|longer| - 1] == words[first..i][..k - first];
  }

  /** The loop over the chain's words. */
  method ChainConstant(prog: array<Word>, first: nat, i: nat, xc: bool) returns (v: nat)
    requires first < i <= prog.Length
    ensures v == ChainValue(prog[first..i], xc)
  {
    hide Hw, Imm16, Opc, NumberOf, Not, LowHalves;
    ghost var words := prog[..];
    ghost var code := words[first..i];
    ChainFirst(words, first, i);
    var h: Halves := [0, 0, 0, 0][Hw(prog[first]) := Imm16(prog[first])];
    if Opc(prog[first]) == 0 {
      h := Not(h);
    }
    for k := first + 1 to i
      invariant h == ChainHalves(code[..k - first])
    {
      ChainNext(words, first, i, k);
      h := h[Hw(prog[k]) := Imm16(prog[k])];
    }
    assert code[..i - first] == code == prog[first..i];
    v := NumberOf(if xc then h else LowHalves(h));
  }

  method WriteSplit(alt: array<Word>, s: Split, i: nat)
    requires s.first + 2 <= i < alt.Length && s.d < 32 && s.other < 32 && s.hi < 0x1000 && s.lo < 0x1000
    modifies alt
    ensures alt[s.first..i + 1] == SplitWords(s, i)
    ensures alt[..s.first] == old(alt[..s.first]) && alt[i + 1..] == old(alt[i + 1..])
  {
    hide AddSubImm, NOP;
    for k := s.first to i - 1
      invariant alt[..s.first] == old(alt[..s.first]) && alt[k..] == old(alt[k..])
      invariant forall j | s.first <= j < k :: alt[j] == NOP
    {
      alt[k] := NOP;
    }
    alt[i - 1] := AddSubImm(s.x, s.sub, s.d, s.other, s.hi, true);
    alt[i] := AddSubImm(s.x, s.sub, s.d, s.d, s.lo, false);
  }

  /** Back over the MOVKs to the chain's first word. */
  method FindChain(prog: array<Word>, bodyStart: nat, i: nat, c: nat, xc: bool) returns (first: nat)
    requires bodyStart + 2 <= i < prog.Length
    ensures first == ChainStart(prog[..], bodyStart, i - 1, c, xc)
  {
    hide IsMovk;
    first := i - 1;
    ghost var start := ChainStart(prog[..], bodyStart, i - 1, c, xc);
    while first > bodyStart && IsMovk(prog[first], c, xc)
      invariant bodyStart <= first <= i - 1
      invariant ChainStart(prog[..], bodyStart, first, c, xc) == start
    {
      first := first - 1;
    }
  }

  predicate TwoImmediates(v: int, hi: nat, lo: nat) {
    1 <= hi <= 0xFFF && 1 <= lo <= 0xFFF && v == hi * 0x1000 + lo
  }

  ghost predicate Splits(v: int) {
    exists hi: nat, lo: nat :: TwoImmediates(v, hi, lo)
  }

  lemma SplitsIff(v: int)
    ensures Splits(v) <==> 0 <= v < M24 && v / 0x1000 != 0 && v % 0x1000 != 0
  {
    if hi: nat, lo: nat :| TwoImmediates(v, hi, lo) {
      ModShift(lo, hi, 0x1000);
    } else if 0 <= v < M24 && v / 0x1000 != 0 && v % 0x1000 != 0 {
      assert TwoImmediates(v, v / 0x1000, v % 0x1000);
    }
  }

  /** A constant is split exactly when it, or its negation at the width, is made
      of two immediates that are not zero. */
  lemma MagnitudeIff(v: nat, m: nat)
    requires v < m && (m == M32 || m == M64)
    ensures var mag := if v >= M24 then m - v else v;
            mag < M24 && mag / 0x1000 != 0 && mag % 0x1000 != 0 <==> Splits(v) || Splits(m - v)
  {
    SplitsIff(v);
    SplitsIff(m - v);
  }

  /** The two immediates of V below M, or of M - V when V is past 24 bits. */
  method Magnitude(v: nat, m: nat) returns (ok: bool, crossed: bool, hi: nat, lo: nat)
    requires v < m
    ensures crossed == (v >= M24)
    ensures var mag := if crossed then m - v else v;
            && hi == mag / 0x1000 && lo == mag % 0x1000
            && (ok <==> mag < M24 && hi != 0 && lo != 0)
  {
    var mag := v;
    crossed := false;
    if v >= M24 {
      mag := m - v;
      crossed := true;
    }
    hi, lo := mag / 0x1000, mag % 0x1000;
    ok := mag < M24 && hi != 0 && lo != 0;
  }

  method SplitControl(prog: array<Word>, alt: array<Word>, bodyStart: nat, i: nat) returns (ok: bool)
    requires prog != alt && i < prog.Length == alt.Length
    modifies alt
    ensures ok <==> SplitOf(prog[..], bodyStart, i).Some?
    ensures ok ==> var s := SplitOf(prog[..], bodyStart, i).value;
                   && s.first + 2 <= i && s.d < 32 && s.other < 32 && s.hi < 0x1000 && s.lo < 0x1000
                   && alt[s.first..i + 1] == SplitWords(s, i)
                   && alt[..s.first] == old(alt[..s.first]) && alt[i + 1..] == old(alt[i + 1..])
    ensures !ok ==> alt[..] == old(alt[..])
  {
    hide Sf, Rd, Class, Opc, Op5, Bit21, SubBit, Rm, Rn, ChainValue, Modulus, SplitWords, IsMovk, IsMovBase, ChainStart;
    var cons := prog[i];
    if Op5(cons) != 0x0B || Bit21(cons) != 0 || i < bodyStart + 2 {
      return false;
    }
    var sub := SubBit(cons) == 1;
    var d, n, m := Rd(cons), Rn(cons), Rm(cons);
    var c, xc := Rd(prog[i - 1]), Sf(prog[i - 1]) == 1;
    var first := FindChain(prog, bodyStart, i, c, xc);
    if !IsMovBase(prog[first], c, xc) || first == i - 1 {
      return false;
    }
    var v := ChainConstant(prog, first, i, xc);
    assert prog[..][first..i] == prog[first..i];
    var other;
    if m == c && n != c {
      other := n;
    } else if !sub && n == c && m != c {
      other := m;
    } else {
      return false;
    }
    if other == 31 || d == 31 {
      return false;
    }
    var modulus := Modulus(cons);
    var split, crossed, hi, lo := Magnitude(v % modulus, modulus);
    if !split {
      return false;
    }
    WriteSplit(alt, Split(first, c, d, other, Sf(cons) == 1, sub != crossed, hi, lo), i);
    return true;
  }

  // --- The split computes what the chain did ---

  /** The same Rd, and every register but the constant's as before. */
  ghost predicate SameOutcome(code: seq<Word>, alt: seq<Word>, c: nat, d: nat)
    requires d < 32
    requires AllSupported(code) && AllSupported(alt)
  {
    forall regs: Regs, r | 0 <= r < 32 && (r != c || r == d) ::
      Run(alt, regs)[r] == Run(code, regs)[r]
  }

  lemma {:induction false} RunNops(code: seq<Word>, regs: Regs)
    requires forall k | 0 <= k < |code| :: code[k] == NOP
    ensures AllSupported(code)
    ensures Run(code, regs) == regs
  {
    if code != [] {
      RunNops(code[1..], regs);
    }
  }

  lemma RunSplit(s: Split, i: nat, regs: Regs)
    requires s.first + 2 <= i && s.d < 31 && s.other < 31 && s.hi < 0x1000 && s.lo < 0x1000
    ensures AllSupported(SplitWords(s, i))
    ensures var m := if s.x then M64 else M32;
            var once := (if s.sub then regs[s.other] - s.hi * 0x1000 else regs[s.other] + s.hi * 0x1000) % m;
            Run(SplitWords(s, i), regs) == regs[s.d := (if s.sub then once - s.lo else once + s.lo) % m]
  {
    hide AddSubImm, NOP, Run, Exec;
    var nops := seq(i - 1 - s.first, k => NOP);
    var one := AddSubImm(s.x, s.sub, s.d, s.other, s.hi, true);
    var two := AddSubImm(s.x, s.sub, s.d, s.d, s.lo, false);
    assert SplitWords(s, i) == nops + [one, two] && [one, two] == [one] + [two];
    RunNops(nops, regs);
    ExecImm(s.x, s.sub, s.d, s.other, s.hi, true, regs);
    var mid := Exec(one, regs);
    ExecImm(s.x, s.sub, s.d, s.d, s.lo, false, mid);
    RunAppend(nops, [one, two], regs);
    RunAppend([one], [two], regs);
    RunOne(one, regs);
    RunOne(two, mid);
  }

  lemma ExecImm(x: bool, sub: bool, d: nat, n: nat, i: nat, lsl12: bool, regs: Regs)
    requires d < 31 && n < 31 && i < 0x1000
    ensures var w := AddSubImm(x, sub, d, n, i, lsl12);
            var m := if x then M64 else M32;
            var b := if lsl12 then i * 0x1000 else i;
            Supported(w) && Exec(w, regs) == regs[d := (if sub then regs[n] - b else regs[n] + b) % m]
  {
    hide AddSubImm, Class, Opc, Hw, HalvesOf, NumberOf;
    var w := AddSubImm(x, sub, d, n, i, lsl12);
    ImmIsNoMove(w);
  }

  lemma ImmIsNoMove(w: Word)
    requires Op5(w) == 0x11
    ensures Class(w) != MOVE_WIDE
  {
  }

  /** The consumer after the chain. */
  lemma RunConsumer(prog: seq<Word>, bodyStart: nat, i: nat, regs: Regs)
    requires i < |prog| && SplitOf(prog, bodyStart, i).Some? && IsAddSubReg(prog[i])
    requires var s := SplitOf(prog, bodyStart, i).value;
             s.c < 31 && forall k | s.first <= k < i :: IsMoveWide(prog[k])
    ensures var s := SplitOf(prog, bodyStart, i).value;
            && s.first <= i && AllSupported(prog[s.first..i + 1])
            && var v := ChainValue(prog[s.first..i], Sf(prog[i - 1]) == 1);
               Run(prog[s.first..i + 1], regs)
               == regs[s.c := v][s.d := (if SubBit(prog[i]) == 1 then regs[s.other] - v else regs[s.other] + v)
                                        % Modulus(prog[i])]
  {
    hide Sf, Class, Opc, Op5, Bit21, Rd, Rm, Rn, ChainValue, NOP, Run, Exec, SubBit;
    var s := SplitOf(prog, bodyStart, i).value;
    SplitFields(prog, bodyStart, i);
    var chain := prog[s.first..i];
    assert prog[s.first..i + 1] == chain + [prog[i]];
    ChainRuns(chain, s.c, Sf(prog[i - 1]) == 1, regs);
    RunAppend(chain, [prog[i]], regs);
    var mid := Run(chain, regs);
    RunOne(prog[i], mid);
    ExecReg(prog[i], mid);
  }

  lemma ExecReg(w: Word, regs: Regs)
    requires IsAddSubReg(w) && Rd(w) != 31
    ensures Exec(w, regs)
            == regs[Rd(w) := (if SubBit(w) == 1 then regs[Rn(w)] - regs[Rm(w)] else regs[Rn(w)] + regs[Rm(w)])
                             % Modulus(w)]
  {
    hide Class, Opc, Hw, HalvesOf, NumberOf, Bit21, Imms, SBit;
    RegIsNoMove(w);
  }

  lemma RegIsNoMove(w: Word)
    requires Op5(w) == 0x0B
    ensures Class(w) != MOVE_WIDE && w != NOP
  {
  }

  /** The two immediates add up to the constant, modulo the width. */
  lemma SplitArithmetic(a: nat, v: nat, m: nat, sub: bool)
    requires (m == M32 || m == M64) && a < M64 && v < M64
    ensures var r := v % m;
            var crossed := r >= M24;
            var mag := if crossed then m - r else r;
            var down := sub != crossed;
            var once := (if down then a - mag / 0x1000 * 0x1000 else a + mag / 0x1000 * 0x1000) % m;
            (if down then once - mag % 0x1000 else once + mag % 0x1000) % m
            == (if sub then a - v else a + v) % m
  {
    var r := v % m;
    var crossed := r >= M24;
    var mag := if crossed then m - r else r;
    var down := sub != crossed;
    var high, low := mag / 0x1000 * 0x1000, mag % 0x1000;
    var sum, k := if down then a - mag else a + mag, v / m;
    ModPlus(if down then a - high else a + high, if down then -low else low, m);
    assert v == r + k * m;
    var turns := if crossed then (if sub then -k - 1 else k + 1) else (if sub then -k else k);
    WholeTurns(k, m);
    assert (if sub then a - v else a + v) == sum + turns * m;
    ModMultiple(sum, turns, m);
  }

  lemma WholeTurns(k: int, m: int)
    ensures (-k - 1) * m == -(k * m) - m && (k + 1) * m == k * m + m && -k * m == -(k * m)
  {}

  lemma SplitSound(prog: seq<Word>, bodyStart: nat, i: nat)
    requires i < |prog| && SplitOf(prog, bodyStart, i).Some? && IsAddSubReg(prog[i])
    requires var s := SplitOf(prog, bodyStart, i).value;
             s.c < 31 && forall k | s.first <= k < i :: IsMoveWide(prog[k])
    ensures var s := SplitOf(prog, bodyStart, i).value;
            && s.first + 2 <= i && s.d < 31 && s.other < 31 && s.hi < 0x1000 && s.lo < 0x1000
            && AllSupported(prog[s.first..i + 1])
            && AllSupported(SplitWords(s, i))
            && SameOutcome(prog[s.first..i + 1], SplitWords(s, i), s.c, s.d)
  {
    hide AllSupported, Run, SplitOf, SplitWords, IsAddSubReg, IsMoveWide;
    SplitFields(prog, bodyStart, i);
    var s := SplitOf(prog, bodyStart, i).value;
    SameAt(prog, bodyStart, i, seq(32, k => 0));
    forall regs: Regs, r | 0 <= r < 32 && (r != s.c || r == s.d)
      ensures Run(SplitWords(s, i), regs)[r] == Run(prog[s.first..i + 1], regs)[r]
    {
      SameAt(prog, bodyStart, i, regs);
    }
  }

  lemma SameAt(prog: seq<Word>, bodyStart: nat, i: nat, regs: Regs)
    requires i < |prog| && SplitOf(prog, bodyStart, i).Some? && IsAddSubReg(prog[i])
    requires var s := SplitOf(prog, bodyStart, i).value;
             s.c < 31 && forall k | s.first <= k < i :: IsMoveWide(prog[k])
    ensures var s := SplitOf(prog, bodyStart, i).value;
            && s.first + 2 <= i && s.d < 31 && s.other < 31 && s.hi < 0x1000 && s.lo < 0x1000
            && AllSupported(prog[s.first..i + 1]) && AllSupported(SplitWords(s, i))
            && forall r | 0 <= r < 32 && (r != s.c || r == s.d) ::
                 Run(SplitWords(s, i), regs)[r] == Run(prog[s.first..i + 1], regs)[r]
  {
    hide AllSupported, Run, SplitOf, SplitWords, IsAddSubReg, IsMoveWide, SubBit, ChainValue, Modulus;
    SplitFields(prog, bodyStart, i);
    var s := SplitOf(prog, bodyStart, i).value;
    RunSplit(s, i, regs);
    RunConsumer(prog, bodyStart, i, regs);
    SplitResult(prog, bodyStart, i, regs[s.other]);
  }

  lemma SplitResult(prog: seq<Word>, bodyStart: nat, i: nat, a: nat)
    requires i < |prog| && SplitOf(prog, bodyStart, i).Some? && a < M64
    requires SplitOf(prog, bodyStart, i).value.first < i
    ensures var s := SplitOf(prog, bodyStart, i).value;
            var v := ChainValue(prog[s.first..i], Sf(prog[i - 1]) == 1);
            var m := if s.x then M64 else M32;
            var once := (if s.sub then a - s.hi * 0x1000 else a + s.hi * 0x1000) % m;
            (if s.sub then once - s.lo else once + s.lo) % m
            == (if SubBit(prog[i]) == 1 then a - v else a + v) % Modulus(prog[i])
  {
    hide ChainValue, Sf, Op5, Bit21, Rd, Rn, Rm, SubBit, Class, Opc;
    var s := SplitOf(prog, bodyStart, i).value;
    var v := ChainValue(prog[s.first..i], Sf(prog[i - 1]) == 1);
    SplitArithmetic(a, v, Modulus(prog[i]), SubBit(prog[i]) == 1);
  }

  // --- A chain of the zero register ---

  /** MOVs to slot 31 leave nothing behind. */
  lemma {:induction false} ZeroChainRuns(code: seq<Word>, regs: Regs)
    requires forall k | 0 <= k < |code| :: IsMoveWide(code[k]) && Rd(code[k]) == 31
    ensures AllSupported(code) && Run(code, regs) == regs
  {
    hide HalvesOf, NumberOf, Wide;
    if code != [] {
      ZeroChainRuns(code[1..], regs);
    }
  }

  lemma ZeroRegisterDiffers(prog: seq<Word>, bodyStart: nat, i: nat, regs: Regs)
    requires i < |prog| && SplitOf(prog, bodyStart, i).Some? && IsAddSubReg(prog[i])
    requires var s := SplitOf(prog, bodyStart, i).value;
             s.c == 31 && forall k | s.first <= k < i :: IsMoveWide(prog[k])
    ensures var s := SplitOf(prog, bodyStart, i).value;
            && s.first + 2 <= i && s.d < 31 && s.other < 31 && s.hi < 0x1000 && s.lo < 0x1000
            && AllSupported(prog[s.first..i + 1]) && AllSupported(SplitWords(s, i))
            && Run(SplitWords(s, i), regs)[s.d] != Run(prog[s.first..i + 1], regs)[s.d]
  {
    hide Sf, Class, Opc, Op5, Bit21, Rd, Rm, Rn, ChainValue, NOP, Run, Exec, SubBit, SplitWords, SplitOf, Modulus,
      AllSupported, IsMoveWide;
    var s := SplitOf(prog, bodyStart, i).value;
    SplitFields(prog, bodyStart, i);
    RunSplit(s, i, regs);
    SplitResult(prog, bodyStart, i, regs[s.other]);
    RunZeroConsumer(prog, bodyStart, i, regs);
    NonzeroMoves(regs[s.other], ChainValue(prog[s.first..i], Sf(prog[i - 1]) == 1), Modulus(prog[i]),
                 SubBit(prog[i]) == 1);
  }

  /** The same span, run as it stands: its register reads as zero. */
  lemma RunZeroConsumer(prog: seq<Word>, bodyStart: nat, i: nat, regs: Regs)
    requires i < |prog| && SplitOf(prog, bodyStart, i).Some? && IsAddSubReg(prog[i])
    requires var s := SplitOf(prog, bodyStart, i).value;
             s.c == 31 && forall k | s.first <= k < i :: IsMoveWide(prog[k])
    ensures var s := SplitOf(prog, bodyStart, i).value;
            && s.first < i && s.d < 31 && s.other < 31 && AllSupported(prog[s.first..i + 1])
            && ChainValue(prog[s.first..i], Sf(prog[i - 1]) == 1) % Modulus(prog[i]) != 0
            && Run(prog[s.first..i + 1], regs)[s.d]
               == (if SubBit(prog[i]) == 1 then regs[s.other] - 0 else regs[s.other] + 0) % Modulus(prog[i])
  {
    hide Sf, Class, Opc, Op5, Bit21, Rd, Rm, Rn, ChainValue, NOP, Run, Exec, SubBit;
    var s := SplitOf(prog, bodyStart, i).value;
    SplitFields(prog, bodyStart, i);
    var chain := prog[s.first..i];
    assert prog[s.first..i + 1] == chain + [prog[i]];
    forall k | 0 <= k < |chain| ensures Rd(chain[k]) == 31 {
      assert k > 0 ==> IsMovk(chain[k], 31, Sf(prog[i - 1]) == 1);
    }
    ZeroChainRuns(chain, regs);
    RunAppend(chain, [prog[i]], regs);
    RunOne(prog[i], regs);
    ExecReg(prog[i], regs);
  }

  lemma SameRemainder(a: int, b: int, m: int)
    requires m > 0
    ensures a % m == b % m ==> (a - b) % m == 0
  {
    var q := a / m - b / m;
    assert a - b == a % m - b % m + q * m;
    ModShift(0, q, m);
  }

  lemma NonzeroMoves(a: nat, v: nat, m: nat, sub: bool)
    requires (m == M32 || m == M64) && v % m != 0
    ensures (if sub then a - v else a + v) % m != (if sub then a - 0 else a + 0) % m
  {
    if sub {
      SameRemainder(a, a - v, m);
    } else {
      SameRemainder(a + v, a, m);
    }
  }

  /** For an unshifted ADD or SUB that sets no flags, the two immediates leave
      the same Rd and every register but the constant's for every register
      file, if and only if the chain's register is not the zero register. */
  lemma SplitIff(prog: seq<Word>, bodyStart: nat, i: nat)
    requires i < |prog| && SplitOf(prog, bodyStart, i).Some? && IsAddSubReg(prog[i])
    requires var s := SplitOf(prog, bodyStart, i).value;
             forall k | s.first <= k < i :: IsMoveWide(prog[k])
    ensures var s := SplitOf(prog, bodyStart, i).value;
            && s.first + 2 <= i && s.d < 31 && s.other < 31 && 1 <= s.hi <= 0xFFF && 1 <= s.lo <= 0xFFF
            && AllSupported(prog[s.first..i + 1]) && AllSupported(SplitWords(s, i))
            && (SameOutcome(prog[s.first..i + 1], SplitWords(s, i), s.c, s.d) <==> s.c != 31)
  {
    hide SplitOf, SplitWords, Run;
    SplitFields(prog, bodyStart, i);
    var s := SplitOf(prog, bodyStart, i).value;
    if s.c != 31 {
      SplitSound(prog, bodyStart, i);
    } else {
      var zero: Regs := seq(32, k => 0);
      ZeroRegisterDiffers(prog, bodyStart, i, zero);
    }
  }

  /** So it is for every chain a generated program holds: its registers are 0
      to 7. */
  lemma GeneratedSplitSound(prog: seq<Word>, bodyStart: nat, i: nat)
    requires i < |prog| && SplitOf(prog, bodyStart, i).Some? && IsAddSubReg(prog[i])
    requires var s := SplitOf(prog, bodyStart, i).value;
             s.c < 8 && forall k | s.first <= k < i :: IsMoveWide(prog[k])
    ensures var s := SplitOf(prog, bodyStart, i).value;
            && s.first + 2 <= i && s.d < 31 && s.other < 31 && s.hi < 0x1000 && s.lo < 0x1000
            && AllSupported(prog[s.first..i + 1]) && AllSupported(SplitWords(s, i))
            && SameOutcome(prog[s.first..i + 1], SplitWords(s, i), s.c, s.d)
  {
    hide SplitOf, SplitWords, SameOutcome, AllSupported;
    SplitIff(prog, bodyStart, i);
  }

  /** MOVZ XZR, #0x2345 ; MOVK XZR, #1, LSL #16 ; ADD X0, X1, XZR. */
  function ZeroChain(): seq<Word> {
    [0xD284_68BF, 0xF2A0_003F, 0x8B1F_0020]
  }

  lemma ZeroChainFields()
    ensures var prog := ZeroChain();
            && IsMovBase(prog[0], 31, true) && IsMoveWide(prog[0])
            && IsMovk(prog[1], 31, true) && IsMoveWide(prog[1]) && Rd(prog[1]) == 31 && Sf(prog[1]) == 1
            && IsAddSubReg(prog[2]) && Op5(prog[2]) == 0x0B && Bit21(prog[2]) == 0 && SubBit(prog[2]) == 0
            && Rd(prog[2]) == 0 && Rn(prog[2]) == 1 && Rm(prog[2]) == 31 && Sf(prog[2]) == 1
  {}

  lemma ZeroChainAccepted()
    ensures SplitOf(ZeroChain(), 0, 2) == Some(Split(0, 31, 0, 1, true, false, 0x12, 0x345))
    ensures IsMoveWide(ZeroChain()[0]) && IsMoveWide(ZeroChain()[1]) && IsAddSubReg(ZeroChain()[2])
  {
    hide ChainValue, Sf, Op5, Bit21, SubBit, Rd, Rn, Rm, IsMovBase, IsMovk, IsMoveWide, IsAddSubReg;
    var prog := ZeroChain();
    ZeroChainFields();
    ZeroChainValue();
    assert ChainStart(prog, 0, 0, 31, true) == 0;
    assert ChainStart(prog, 0, 1, 31, true) == 0;
    assert prog[0..2] == [prog[0], prog[1]];
  }

  lemma ZeroChainValue()
    ensures ChainValue([ZeroChain()[0], ZeroChain()[1]], true) == 0x1_2345
  {
    var code := [ZeroChain()[0], ZeroChain()[1]];
    assert code[..1] == [code[0]];
    assert ChainHalves([code[0]]) == [0x2345, 0, 0, 0];
    assert ChainHalves(code) == [0x2345, 1, 0, 0];
  }

  /** It is split, into ADD X0, X1, #0x12, LSL #12 ; ADD X0, X0, #0x345, and
      leaves another X0 whatever the registers held. */
  lemma ZeroChainSplitWrong(regs: Regs)
    ensures var prog := ZeroChain();
            SplitOf(prog, 0, 2).Some?
            && var s := SplitOf(prog, 0, 2).value;
               && s.first == 0 && s.d == 0 && s.other == 1 && s.hi < 0x1000 && s.lo < 0x1000
               && AllSupported(prog) && AllSupported(SplitWords(s, 2))
               && Run(SplitWords(s, 2), regs)[0] != Run(prog, regs)[0]
  {
    hide Run, AllSupported, SplitOf, SplitWords, IsMoveWide, IsAddSubReg;
    var prog := ZeroChain();
    ZeroChainAccepted();
    ZeroRegisterDiffers(prog, 0, 2, regs);
    assert prog[0..3] == prog;
  }
}
