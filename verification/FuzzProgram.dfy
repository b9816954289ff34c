/**
 The random programs of tools/rwfuzz.c: the body generator, the assembler
 that lays a program out, and why every program terminates.
 */
module FuzzProgram {
  import opened Options
  import opened Widths
  import opened Words
  import opened Branches
  import opened Arithmetic
  import Nzcv
  import SplitAdd
  import ZeroTest

  const BODY_MAX := 40
  const PROG_MAX := 256
  const RET: Word := 0xD65F_03C0
  const RESTORE: Word := 0xA8C6_7BFD                         // ldp x29, x30, [sp], #96

  const PROLOGUE: seq<Word> := [
    0xA9BA7BFD, 0x910003FD, 0xA90153F3, 0xA9025BF5, 0xA90363F7,
    0xA9046BF9, 0xA90573FB, 0xAA0003EF, 0xA94005E0, 0xA9410DE2,
    0xA94215E4, 0xA9431DE6, 0xF94021FC, 0xF94025F0, 0xD51B4210]

  const EPILOGUE: seq<Word> := [
    0xA90005E0, 0xA9010DE2, 0xA90215E4, 0xA9031DE6, 0xD53B4210,
    0xF90025F0, 0xA94153F3, 0xA9425BF5, 0xA94363F7, 0xA9446BF9,
    0xA94573FB, 0xA8C67BFD, 0xD65F03C0]

  function MovzX(d: nat, imm: nat, hw: nat): Word
    requires d < 32 && imm < 0x1_0000 && hw < 4
  {
    MoveWide(1, 2, hw, imm, d)
  }

  function MovkX(d: nat, imm: nat, hw: nat): Word
    requires d < 32 && imm < 0x1_0000 && hw < 4
  {
    MoveWide(1, 3, hw, imm, d)
  }

  const CMP_X0_X1: Word := 0xEB01_001F
  const STUB: seq<Word> := [
    MovzX(0, 0xBEE0, 0), MovkX(0, 0xDEAD, 3), MovzX(1, 0xBEE1, 0), MovkX(1, 0xDEAD, 3),
    MovzX(2, 0xBEE2, 0), MovkX(2, 0xDEAD, 3), MovzX(3, 0xBEE3, 0), MovkX(3, 0xDEAD, 3),
    MovzX(4, 0xBEE4, 0), MovkX(4, 0xDEAD, 3), MovzX(5, 0xBEE5, 0), MovkX(5, 0xDEAD, 3),
    MovzX(6, 0xBEE6, 0), MovkX(6, 0xDEAD, 3), MovzX(7, 0xBEE7, 0), MovkX(7, 0xDEAD, 3),
    CMP_X0_X1, RET]

  // --- Body slots ---

  datatype Kind = Plain | Branch | Reader | Call | Jump

  /** One instruction of the body. Only a Plain slot has its word from the
      start; the assembler encodes the others. A transfer goes to slot TARGET,
      where the length of the body stands for the epilogue, and a generator
      that wants it AIM slots ahead says so with a positive AIM. */
  datatype Slot = Slot(kind: Kind, word: Word, target: nat, reg: nat, cond: nat, form: nat, bit: nat, aim: nat)

  /** Control falls through the word: it is outside the branch, exception and
      system group, or an MSR, MRS or hint. */
  predicate Falls(w: Word) {
    w / 0x400_0000 % 8 != 5 || Top8(w) == 0xD5
  }

  predicate ValidSlot(s: Slot) {
    && s.reg < 32 && s.cond < 14 && s.bit < 64
    && (s.kind == Plain ==> Falls(s.word))
  }

  /** What one round of the generator adds. */
  datatype Choice = Plant(slots: seq<Slot>) | Transfer(kind: Kind, reg: nat, cond: nat, form: nat) | Filler(word: Word)

  predicate ValidChoice(c: Choice) {
    match c
    case Plant(slots) => |slots| > 0 && forall k | 0 <= k < |slots| :: ValidSlot(slots[k])
    case Transfer(kind, reg, cond, form) => (kind == Branch || kind == Call) && reg < 8 && cond < 14 && form < 3
    case Filler(word) => Falls(word)
  }

  /** The slots a round adds, their targets still open. */
  function ChoiceSlots(c: Choice): seq<Slot> {
    match c
    case Plant(slots) => slots
    case Transfer(kind, reg, cond, form) => [Slot(kind, 0, 0, reg, cond, form, 0, 0)]
    case Filler(word) => [Slot(Plain, word, 0, 0, 0, 0, 0, 0)]
  }

  /** The slots of the first ROUNDS choices, one after another. */
  function DrawnSlots(choices: nat -> Choice, rounds: nat): seq<Slot> {
    if rounds == 0 then [] else DrawnSlots(choices, rounds - 1) + ChoiceSlots(choices(rounds - 1))
  }

  /** What a body has room for. */
  function Fitting(slots: seq<Slot>): seq<Slot> {
    if |slots| <= 40 then slots else slots[..40]
  }

  lemma FittingAppend(a: seq<Slot>, b: seq<Slot>)
    ensures Fitting(Fitting(a) + b) == Fitting(a + b)
  {
  }

  /** The slots of choice J stand where those before it end. */
  lemma {:induction false} DrawnAt(choices: nat -> Choice, rounds: nat, j: nat)
    requires j < rounds
    ensures |DrawnSlots(choices, j)| <= |DrawnSlots(choices, j + 1)| <= |DrawnSlots(choices, rounds)|
    ensures DrawnSlots(choices, rounds)[|DrawnSlots(choices, j)|..|DrawnSlots(choices, j + 1)|]
            == ChoiceSlots(choices(j))
  {
    hide ChoiceSlots;
    var before, last := DrawnSlots(choices, rounds - 1), ChoiceSlots(choices(rounds - 1));
    assert DrawnSlots(choices, rounds) == before + last;
    if j < rounds - 1 {
      DrawnAt(choices, rounds - 1, j);
      var a, b := |DrawnSlots(choices, j)|, |DrawnSlots(choices, j + 1)|;
      assert (before + last)[a..b] == before[a..b];
    } else {
      assert (before + last)[|before|..|before + last|] == last;
    }
  }

  /** Every transfer goes forward: to a later slot or the epilogue. */
  predicate ForwardBody(body: seq<Slot>) {
    && |body| <= BODY_MAX
    && forall i | 0 <= i < |body| :: ValidSlot(body[i]) && i < body[i].target <= |body|
  }

  // --- Layout ---

  function SlotWord(s: Slot, words: int, callWords: int): Word
    requires s.reg < 32 && s.cond < 16 && s.bit < 64
  {
    match s.kind
    case Plain => s.word
    case Branch =>
      if s.form == 2 then BCond(s.cond, words)
      else if s.form == 3 then Cbz(false, false, s.reg, words)
      else if s.form == 4 then Cbz(true, true, s.reg, words)
      else if s.form == 5 then Tbz(false, s.reg, s.bit, words)
      else if s.form == 6 then Tbz(true, s.reg, s.bit, words)
      else Cbz(s.form == 0, s.form == 1, s.reg, words)
    case Reader => BCond(s.cond, words)
    case Jump => B(words)
    case Call => Bl(callWords)
  }

  function BodyStart(): nat { |PROLOGUE| }
  function EpiStart(body: seq<Slot>): nat { BodyStart() + |body| }
  function StubStart(body: seq<Slot>): nat { EpiStart(body) + |EPILOGUE| }
  function ProgLength(body: seq<Slot>): nat { StubStart(body) + |STUB| }

  function BodyWord(body: seq<Slot>, i: nat): Word
    requires ForwardBody(body) && i < |body|
  {
    SlotWord(body[i], body[i].target - i, StubStart(body) - (BodyStart() + i))
  }

  /** The whole program. */
  function Image(body: seq<Slot>): (p: seq<Word>)
    requires ForwardBody(body)
    ensures |p| == ProgLength(body) <= PROG_MAX
  {
    PROLOGUE + seq(|body|, i requires 0 <= i < |body| => BodyWord(body, i)) + EPILOGUE + STUB
  }

  /** Slot I of N aims where it asks, if that is in the body or its end, and
      else where its draw says. */
  function Aimed(s: Slot, i: nat, n: nat, draw: nat): Slot
    requires i < n
  {
    s.(target := if s.aim > 0 && i + s.aim <= n then i + s.aim else i + 1 + draw % (n - i))
  }

  lemma AimedForward(s: Slot, i: nat, n: nat, draw: nat)
    requires i < n && ValidSlot(s)
    ensures ValidSlot(Aimed(s, i, n, draw)) && i < Aimed(s, i, n, draw).target <= n
    ensures Aimed(s, i, n, draw) == s.(target := if s.aim > 0 && i + s.aim <= n then i + s.aim
                                                 else i + 1 + draw % (n - i))
  {
  }

  lemma ChoiceAdds(c: Choice)
    requires ValidChoice(c)
    ensures |ChoiceSlots(c)| > 0
    ensures forall k | 0 <= k < |ChoiceSlots(c)| :: ValidSlot(ChoiceSlots(c)[k])
  {
  }

  // --- The frame around the body ---

  /** A load or store of two X registers at a byte offset from a base. */
  datatype Access = Access(load: bool, base: nat, first: nat, second: nat, offset: nat)

  /** STP and LDP with a signed offset that is not negative. */
  function AccessOf(w: Word): Option<Access> {
    if w / 0x80_0000 == 0x152 && w / 0x8000 % 128 < 64 then
      Some(Access(w / 0x40_0000 % 2 == 1, Rn(w), Rd(w), w / 0x400 % 32, w / 0x8000 % 128 * 8))
    else None
  }

  /** What the prologue saves of X19 to X28 the epilogue restores from the same
      place, and what it loads of X0 to X7 the epilogue stores back. */
  lemma FrameMatches(k: nat)
    requires k < 5
    ensures AccessOf(PROLOGUE[2 + k]) == Some(Access(false, 31, 19 + 2 * k, 20 + 2 * k, 16 + 16 * k))
    ensures AccessOf(EPILOGUE[6 + k]) == Some(Access(true, 31, 19 + 2 * k, 20 + 2 * k, 16 + 16 * k))
    ensures k < 4 ==> AccessOf(PROLOGUE[8 + k]) == Some(Access(true, 15, 2 * k, 2 * k + 1, 16 * k))
    ensures k < 4 ==> AccessOf(EPILOGUE[k]) == Some(Access(false, 15, 2 * k, 2 * k + 1, 16 * k))
  {
    hide AccessOf;
    FrameWords(k);
    AccessFields(false, 31, 19 + 2 * k, 20 + 2 * k, 2 + 2 * k);
    AccessFields(true, 31, 19 + 2 * k, 20 + 2 * k, 2 + 2 * k);
    AccessFields(true, 15, 2 * k, 2 * k + 1, 2 * k);
    AccessFields(false, 15, 2 * k, 2 * k + 1, 2 * k);
  }

  function AccessWord(load: bool, base: nat, first: nat, second: nat, m: nat): nat {
    0xA900_0000 + (if load then 0x40_0000 else 0) + m * 0x8000 + second * 0x400 + base * 0x20 + first
  }

  lemma AccessFields(load: bool, base: nat, first: nat, second: nat, m: nat)
    requires base < 32 && first < 32 && second < 32 && m < 64
    ensures AccessWord(load, base, first, second, m) < 0x1_0000_0000
    ensures AccessOf(AccessWord(load, base, first, second, m)) == Some(Access(load, base, first, second, 8 * m))
  {
    var top := if load then 0x2A5 else 0x2A4;
    var w := AccessWord(load, base, first, second, m);
    assert w / 0x40_0000 == top;
    assert w / 0x8000 == top * 0x80 + m;
    assert w / 0x400 == (top * 0x80 + m) * 0x20 + second;
    assert w / 0x20 == ((top * 0x80 + m) * 0x20 + second) * 0x20 + base;
  }

  lemma FrameWords(k: nat)
    requires k < 5
    ensures |PROLOGUE| == 15 && |EPILOGUE| == 13
    ensures PROLOGUE[2 + k] == AccessWord(false, 31, 19 + 2 * k, 20 + 2 * k, 2 + 2 * k)
    ensures EPILOGUE[6 + k] == AccessWord(true, 31, 19 + 2 * k, 20 + 2 * k, 2 + 2 * k)
    ensures k < 4 ==> PROLOGUE[8 + k] == AccessWord(true, 15, 2 * k, 2 * k + 1, 2 * k)
    ensures k < 4 ==> EPILOGUE[k] == AccessWord(false, 15, 2 * k, 2 * k + 1, 2 * k)
  {}

  class Generator {
    const body: array<Slot>
    var nbody: nat
    const prog: array<Word>
    var nprog: nat
    var bodyStart: nat
    var epiStart: nat
    var stubStart: nat

    ghost predicate Valid()
      reads this, body
    {
      && body.Length == BODY_MAX && prog.Length == PROG_MAX
      && nbody <= BODY_MAX && forall i | 0 <= i < nbody :: ValidSlot(body[i])
    }

    function Body(): seq<Slot>
      requires nbody <= body.Length
      reads this, body
    {
      body[..nbody]
    }

    constructor ()
      ensures Valid() && fresh(body) && fresh(prog) && nbody == 0
    {
      body := new Slot[BODY_MAX](_ => Slot(Plain, 0, 0, 0, 0, 0, 0, 0));
      prog := new Word[PROG_MAX](_ => 0);
      nbody, nprog, bodyStart, epiStart, stubStart := 0, 0, 0, 0, 0;
    }

    /** All pushes: a full body takes no more. */
    method Push(s: Slot)
      requires Valid() && ValidSlot(s)
      modifies this`nbody, body
      ensures Valid()
      ensures Body() == if old(nbody) < BODY_MAX then old(Body()) + [s] else old(Body())
    {
      if nbody < BODY_MAX {
        body[nbody] := s;
        nbody := nbody + 1;
      }
    }

    /** A round's slots are pushed one by one; those past the bound are lost. */
    method PushChoice(c: Choice)
      requires Valid() && ValidChoice(c)
      modifies this`nbody, body
      ensures Valid()
      ensures Body() == Fitting(old(Body()) + ChoiceSlots(c))
    {
      hide ValidSlot;
      match c
      case Plant(slots) =>
        for k := 0 to |slots|
          invariant Valid() && Body() == Fitting(old(Body()) + slots[..k])
        {
          FittingAppend(old(Body()) + slots[..k], [slots[k]]);
          assert old(Body()) + slots[..k] + [slots[k]] == old(Body()) + slots[..k + 1];
          Push(slots[k]);
        }
        assert slots[..|slots|] == slots;
      case Transfer(kind, reg, cond, form) =>
        Push(Slot(kind, 0, 0, reg, cond, form, 0, 0));
      case Filler(word) =>
        Push(Slot(Plain, word, 0, 0, 0, 0, 0, 0));
    }

    /** Generates a body from the generator's draws: LEN20 in 0..19 for the
        length, a stream of choices, and one draw per slot for its target.
        The body is what fits of the slots of as many choices as it takes to
        reach the length, each aimed where it asks or, failing that, where its
        draw says. */
    method GenBody(len20: nat, choices: nat -> Choice, draws: nat -> nat) returns (ghost rounds: nat)
      requires Valid() && len20 < 20
      requires forall k: nat :: ValidChoice(choices(k))
      modifies this`nbody, body
      ensures Valid() && ForwardBody(Body()) && 10 + len20 <= nbody
      ensures |DrawnSlots(choices, rounds)| >= 10 + len20
      ensures forall k: nat | k < rounds :: |DrawnSlots(choices, k)| < 10 + len20
      ensures var drawn := Fitting(DrawnSlots(choices, rounds));
              && nbody == |drawn|
              && forall i | 0 <= i < nbody :: body[i] == Aimed(drawn[i], i, nbody, draws(i))
    {
      hide ChoiceSlots;
      nbody := 0;
      rounds := 0;
      var len := 10 + len20;
      var k := 0;
      while nbody < len
        invariant Valid()
        invariant rounds == k && Body() == Fitting(DrawnSlots(choices, k))
        invariant forall j: nat | j < k :: |DrawnSlots(choices, j)| < len
        decreases len - nbody
      {
        FittingAppend(DrawnSlots(choices, k), ChoiceSlots(choices(k)));
        ChoiceAdds(choices(k));
        PushChoice(choices(k));
        k := k + 1;
        rounds := k;
      }
      SetTargets(draws);
    }

    method SetTargets(draws: nat -> nat)
      requires Valid()
      modifies body
      ensures Valid() && ForwardBody(Body())
      ensures forall i | 0 <= i < nbody :: body[i] == Aimed(old(Body())[i], i, nbody, draws(i))
    {
      hide Aimed;
      ghost var drawn := Body();
      for i := 0 to nbody
        invariant Valid()
        invariant forall j | 0 <= j < i ::
                    body[j] == Aimed(drawn[j], j, nbody, draws(j)) && j < body[j].target <= nbody
        invariant forall j | i <= j < nbody :: body[j] == drawn[j]
      {
        AimedForward(drawn[i], i, nbody, draws(i));
        body[i] := body[i].(target := if body[i].aim > 0 && i + body[i].aim <= nbody
                                      then i + body[i].aim
                                      else i + 1 + draws(i) % (nbody - i));
      }
    }

    method Emit(code: seq<Word>, at: nat)
      requires at + |code| <= prog.Length
      modifies prog
      ensures prog[at..at + |code|] == code
      ensures prog[..at] == old(prog[..at]) && prog[at + |code|..] == old(prog[at + |code|..])
    {
      for i := 0 to |code|
        invariant prog[at..at + i] == code[..i]
        invariant prog[..at] == old(prog[..at]) && prog[at + i..] == old(prog[at + i..])
      {
        prog[at + i] := code[i];
      }
    }

    /** The transfers' words, their displacements now known. */
    method FixUp()
      requires Valid() && ForwardBody(Body())
      requires bodyStart == BodyStart() && epiStart == EpiStart(Body()) && stubStart == StubStart(Body())
      modifies prog
      ensures forall i | 0 <= i < nbody :: prog[bodyStart + i] == BodyWord(old(Body()), i)
      ensures prog[..bodyStart] == old(prog[..bodyStart]) && prog[epiStart..] == old(prog[epiStart..])
    {
      hide SlotWord, ValidSlot;
      ghost var b := Body();
      for i := 0 to nbody
        invariant prog[..bodyStart] == old(prog[..bodyStart]) && prog[epiStart..] == old(prog[epiStart..])
        invariant forall j | 0 <= j < i :: prog[bodyStart + j] == BodyWord(b, j)
      {
        var s := body[i];
        assert s == b[i];
        SlotInRange(b, i);
        var at := bodyStart + i;
        prog[at] := SlotWord(s, bodyStart + s.target - at, stubStart - at);
      }
    }

    /** Lays the program out: prologue, body, epilogue, stub; then the body's
        transfers. */
    method Assemble()
      requires Valid() && ForwardBody(Body())
      modifies this`nprog, this`bodyStart, this`epiStart, this`stubStart, prog
      ensures Valid() && Body() == old(Body())
      ensures nprog == ProgLength(Body()) <= PROG_MAX
      ensures bodyStart == BodyStart() && epiStart == EpiStart(Body()) && stubStart == StubStart(Body())
      ensures prog[..nprog] == Image(Body())
    {
      hide BodyWord, ValidSlot, MovzX, MovkX, Image;
      ghost var b := Body();
      var k := 0;
      Emit(PROLOGUE, k);
      ghost var p0 := prog[..];
      k := k + |PROLOGUE|;
      bodyStart := k;
      k := k + nbody;
      epiStart := k;
      Emit(EPILOGUE, k);
      ghost var p1 := prog[..];
      k := k + |EPILOGUE|;
      stubStart := k;
      Emit(STUB, k);
      ghost var p2 := prog[..];
      k := k + |STUB|;
      nprog := k;
      FixUp();
      ImageFromSteps(b, p0, p1, p2, prog[..]);
    }
  }

  lemma ImageFromSteps(body: seq<Slot>, p0: seq<Word>, p1: seq<Word>, p2: seq<Word>, p3: seq<Word>)
    requires ForwardBody(body) && |p0| == |p1| == |p2| == |p3| == PROG_MAX
    requires p0[0..0 + |PROLOGUE|] == PROLOGUE
    requires p1[EpiStart(body)..EpiStart(body) + |EPILOGUE|] == EPILOGUE
    requires p1[..EpiStart(body)] == p0[..EpiStart(body)]
    requires p2[StubStart(body)..StubStart(body) + |STUB|] == STUB
    requires p2[..StubStart(body)] == p1[..StubStart(body)]
    requires p3[..BodyStart()] == p2[..BodyStart()] && p3[EpiStart(body)..] == p2[EpiStart(body)..]
    requires forall i | 0 <= i < |body| :: p3[BodyStart() + i] == BodyWord(body, i)
    ensures p3[..ProgLength(body)] == Image(body)
  {
    hide BodyWord, MovzX, MovkX;
    forall k | 0 <= k < ProgLength(body) ensures p3[k] == Image(body)[k] {
      ImageParts(body, k);
      if k < BodyStart() {
        assert p3[k] == p3[..BodyStart()][k] == p2[..BodyStart()][k];
        assert p2[k] == p2[..StubStart(body)][k] == p1[..StubStart(body)][k];
        assert p1[k] == p1[..EpiStart(body)][k] == p0[..EpiStart(body)][k];
        assert p0[k] == p0[0..0 + |PROLOGUE|][k];
      } else if k >= StubStart(body) {
        assert p3[k] == p3[EpiStart(body)..][k - EpiStart(body)] == p2[EpiStart(body)..][k - EpiStart(body)];
        assert p2[k] == p2[StubStart(body)..StubStart(body) + |STUB|][k - StubStart(body)];
      } else if k >= EpiStart(body) {
        assert p3[k] == p3[EpiStart(body)..][k - EpiStart(body)] == p2[EpiStart(body)..][k - EpiStart(body)];
        assert p2[k] == p2[..StubStart(body)][k] == p1[..StubStart(body)][k];
        assert p1[k] == p1[EpiStart(body)..EpiStart(body) + |EPILOGUE|][k - EpiStart(body)];
      }
    }
  }

  lemma SlotInRange(body: seq<Slot>, i: nat)
    requires ForwardBody(body) && i < |body|
    ensures body[i].reg < 32 && body[i].cond < 16 && body[i].bit < 64 && i < body[i].target <= |body|
  {
  }

  lemma CbzTaken(x: bool, nonzero: bool, t: nat, words: int, regs: seq<nat>, f: Nzcv.Flags)
    requires t < 32 && ZeroTest.ValidRegs(regs)
    ensures ZeroTest.Taken(Cbz(x, nonzero, t, words), regs, f)
            == Some((regs[t] % Pow2(if x then 64 else 32) == 0) != nonzero)
  {
    hide Cbz, Rd, Sf, Op24, Top8, Test6, Pow2;
    TopFields(Cbz(x, nonzero, t, words));
  }

  lemma TbzTaken(nonzero: bool, t: nat, bit: nat, words: int, regs: seq<nat>, f: Nzcv.Flags)
    requires t < 32 && bit < 64 && ZeroTest.ValidRegs(regs)
    ensures ZeroTest.Taken(Tbz(nonzero, t, bit, words), regs, f)
            == Some((regs[t] / Pow2(bit) % 2 == 0) != nonzero)
  {
    hide Tbz, Rd, Sf, Bit40, Op24, Top8, Test6, Pow2;
    TopFields(Tbz(nonzero, t, bit, words));
  }

  /** When a transfer is taken: by a register against zero, at the form's
      width, by one of its bits, or by a condition on the flags; jumps and calls
      ask nothing. */
  ghost function TakenWhen(s: Slot, regs: seq<nat>, f: Nzcv.Flags): Option<bool>
    requires ValidSlot(s) && |regs| == 32
  {
    match s.kind
    case Branch =>
      Some(if s.form == 0 then regs[s.reg] % Pow2(64) == 0
           else if s.form == 1 then regs[s.reg] % Pow2(32) != 0
           else if s.form == 2 then Nzcv.CondHolds(s.cond, f)
           else if s.form == 4 then regs[s.reg] % Pow2(64) != 0
           else if s.form == 5 then regs[s.reg] / Pow2(s.bit) % 2 == 0
           else if s.form == 6 then regs[s.reg] / Pow2(s.bit) % 2 != 0
           else regs[s.reg] % Pow2(32) == 0)
    case Reader => Some(Nzcv.CondHolds(s.cond, f))
    case _ => None
  }

  /** What the assembler writes for a transfer is taken when the slot says. */
  lemma TransferTaken(body: seq<Slot>, i: nat, regs: seq<nat>, f: Nzcv.Flags)
    requires ForwardBody(body) && i < |body| && body[i].kind != Plain && ZeroTest.ValidRegs(regs)
    ensures ValidSlot(body[i])
    ensures ZeroTest.Taken(BodyWord(body, i), regs, f) == TakenWhen(body[i], regs, f)
  {
    hide SlotWord, ZeroTest.Taken, TakenWhen;
    assert ValidSlot(body[i]);
    SlotTaken(body[i], body[i].target - i, StubStart(body) - (BodyStart() + i), regs, f);
  }

  lemma SlotTaken(s: Slot, words: int, callWords: int, regs: seq<nat>, f: Nzcv.Flags)
    requires ValidSlot(s) && s.kind != Plain && ZeroTest.ValidRegs(regs)
    ensures ZeroTest.Taken(SlotWord(s, words, callWords), regs, f) == TakenWhen(s, regs, f)
  {
    hide B, Bl, BCond, Cbz, Tbz, ZeroTest.Taken, Pow2, Nzcv.CondHolds;
    match s.kind
    case Branch =>
      CbzTaken(s.form == 0 || s.form == 4, s.form == 1 || s.form == 4, s.reg, words, regs, f);
      TbzTaken(s.form == 6, s.reg, s.bit, words, regs, f);
      ConditionTaken(s.cond, words, regs, f);
    case Reader =>
      ConditionTaken(s.cond, words, regs, f);
    case Jump =>
      NeverAsked(B(words), regs, f);
    case Call =>
      NeverAsked(Bl(callWords), regs, f);
  }

  lemma ConditionTaken(cond: nat, words: int, regs: seq<nat>, f: Nzcv.Flags)
    requires cond < 16 && |regs| == 32
    ensures ZeroTest.Taken(BCond(cond, words), regs, f) == Some(Nzcv.CondHolds(cond, f))
  {
    hide BCond, Nzcv.CondHolds, Cond, Top8, Bit4;
  }

  lemma NeverAsked(w: Word, regs: seq<nat>, f: Nzcv.Flags)
    requires |regs| == 32 && (IsB(w) || IsBl(w))
    ensures ZeroTest.Taken(w, regs, f) == None
  {
    hide Top6, Top8, Test6, Bit4;
    TopFields(w);
    UnconditionalTop(Top8(w));
  }

  lemma UnconditionalTop(top: nat)
    requires top < 256 && (top / 4 == 0x05 || top / 4 == 0x25)
    ensures top != 0x54 && top / 2 % 64 != 0x1A && top / 2 % 64 != 0x1B
  {
    assert top / 2 == top / 4 * 2 + top / 2 % 2;
  }

  // --- Execution ---

  datatype Link = Caller | At(pc: nat)

  /** Where control is, and where a RET would go. */
  datatype State = State(pc: int, lr: Link)

  datatype Outcome = Running(st: State) | Halted | Stuck

  /** One instruction. A conditional branch goes either way: TAKEN stands for
      whatever the registers and flags hold. Words outside the modelled groups
      and addresses outside the program are stuck. */
  function Next(p: seq<Word>, st: State, taken: bool): Outcome {
    if !(0 <= st.pc < |p|) then Stuck
    else
      var w := p[st.pc];
      if w == RET then
        match st.lr
        case Caller => Halted
        case At(pc) => Running(State(pc, st.lr))
      else if w == RESTORE then Running(State(st.pc + 1, Caller))
      else
        match Displacement(w)
        case Some(d) =>
          if IsBl(w) then Running(State(st.pc + d, At(st.pc + 1)))
          else if IsB(w) || taken then Running(State(st.pc + d, st.lr))
          else Running(State(st.pc + 1, st.lr))
        case None => if Falls(w) then Running(State(st.pc + 1, st.lr)) else Stuck
  }

  /** The outcome after N instructions, the K-th conditional branch going as
      TAKEN says. */
  function RunFor(p: seq<Word>, st: State, taken: nat -> bool, k: nat, n: nat): Outcome
    decreases n
  {
    if n == 0 then Running(st)
    else
      match Next(p, st, taken(k))
      case Running(st') => RunFor(p, st', taken, k + 1, n - 1)
      case other => other
  }

  /** What holds of every reachable state: pc inside the program; in the stub
      the link is a later body slot or the epilogue; at the final RET it is
      the caller. */
  ghost predicate Reachable(body: seq<Slot>, st: State) {
    && 0 <= st.pc < ProgLength(body)
    && (st.pc == StubStart(body) - 1 ==> st.lr == Caller)
    && (st.pc >= StubStart(body) ==> st.lr.At? && BodyStart() < st.lr.pc <= EpiStart(body))
  }

  /** Distance to the end: a body slot is worth more than a whole call. */
  function Measure(body: seq<Slot>, st: State): int {
    if st.pc < BodyStart() then BodyStart() - st.pc + Distance(body, BodyStart())
    else if st.pc < StubStart(body) then Distance(body, st.pc)
    else ProgLength(body) - st.pc + (if st.lr.At? then Distance(body, st.lr.pc) else 0)
  }

  function Distance(body: seq<Slot>, pc: int): int {
    if pc < EpiStart(body) then 20 * (EpiStart(body) - pc) + |EPILOGUE| else StubStart(body) - pc
  }

  lemma ImageParts(body: seq<Slot>, pc: nat)
    requires ForwardBody(body) && pc < ProgLength(body)
    ensures Image(body)[pc] ==
            if pc < BodyStart() then PROLOGUE[pc]
            else if pc < EpiStart(body) then BodyWord(body, pc - BodyStart())
            else if pc < StubStart(body) then EPILOGUE[pc - EpiStart(body)]
            else STUB[pc - StubStart(body)]
  {
    hide BodyWord;
  }

  /** The word neither branches nor touches the link. */
  predicate Straight(w: Word) {
    Falls(w) && w != RET && w != RESTORE && Displacement(w) == None
  }

  lemma PrologueStraight(pc: nat)
    requires pc < |PROLOGUE|
    ensures Straight(PROLOGUE[pc])
  {
  }

  lemma EpilogueStraight(pc: nat)
    requires pc < |EPILOGUE| - 2
    ensures Straight(EPILOGUE[pc])
  {
  }

  lemma MoveWideStraight(w: Word)
    requires Class(w) == MOVE_WIDE
    ensures Straight(w)
  {
    assert w / 0x400_0000 % 8 == 4;
  }

  lemma StubStraight(pc: nat)
    requires pc < |STUB| - 1
    ensures Straight(STUB[pc])
  {
    if pc < 16 {
      hide MoveWide, Straight, Class;
      MoveWideStraight(STUB[pc]);
    } else {
      assert STUB[pc] == CMP_X0_X1;
    }
  }

  lemma FallsStraight(w: Word)
    requires Falls(w)
    ensures Displacement(w) == None && w != RET
  {
    hide Top6, Top8, Test6, Imm26, Imm19, Imm14, SignExtend;
    TopFields(w);
    FallsByTop(Top8(w));
    RetTop();
  }

  /** A top byte outside the branch group, or that of the system group, is no
      branch's. */
  lemma FallsByTop(top: nat)
    requires top < 256 && (top / 4 % 8 != 5 || top == 0xD5)
    ensures top / 4 != 0x05 && top / 4 != 0x25 && top != 0x54
    ensures top / 2 % 64 != 0x1A && top / 2 % 64 != 0x1B && top != 0xD6
  {}

  lemma RetTop()
    ensures Top8(RET) == 0xD6
  {}

  lemma TopFields(w: Word)
    ensures Top6(w) == Top8(w) / 4 && Test6(w) == Top8(w) / 2 % 64 && w / 0x400_0000 % 8 == Top8(w) / 4 % 8
  {
    assert w / 0x100_0000 / 4 == w / 0x400_0000 && w / 0x100_0000 / 2 == w / 0x200_0000;
  }

  /** Only BL links and only B and BL are unconditional. */
  lemma ConditionalFields(w: Word)
    requires IsBCond(w) || IsCbz(w) || IsTbz(w)
    ensures !IsB(w) && !IsBl(w)
  {
    TopFields(w);
  }

  /** Each transfer's decoded displacement lands on its target, strictly later
      in the body or at the epilogue; a call's lands on the stub. */
  lemma TransferLands(body: seq<Slot>, i: nat)
    requires ForwardBody(body) && i < |body| && body[i].kind != Plain
    ensures var w := BodyWord(body, i);
            var at := BodyStart() + i;
            && Displacement(w).Some?
            && at + Displacement(w).value == (if body[i].kind == Call then StubStart(body)
                                              else BodyStart() + body[i].target)
            && at < BodyStart() + body[i].target <= EpiStart(body)
            && (IsBl(w) <==> body[i].kind == Call) && (IsB(w) ==> body[i].kind == Jump)
  {
    hide Displacement, Field, B, Bl, BCond, Cbz, Tbz;
    SlotInRange(body, i);
    var s := body[i];
    var w := BodyWord(body, i);
    var words := if s.kind == Call then StubStart(body) - (BodyStart() + i) else s.target - i;
    EncodersRoundTrip(words, s.cond, false, false, s.reg, s.bit);
    EncodersRoundTrip(words, s.cond, true, true, s.reg, s.bit);
    EncodersRoundTrip(words, s.cond, s.form == 0, s.form == 1, s.reg, s.bit);
    if s.kind == Branch || s.kind == Reader {
      ConditionalFields(w);
    }
  }

  lemma TransferWord(w: Word)
    requires Displacement(w).Some?
    ensures w != RET && w != RESTORE
  {
  }

  // --- Calls ---

  /** From word J on, the stub runs to its RET and goes where the link says. */
  lemma {:induction false} StubReturns(body: seq<Slot>, j: nat, back: nat, taken: nat -> bool, k: nat)
    requires ForwardBody(body) && j < |STUB|
    ensures RunFor(Image(body), State(StubStart(body) + j, At(back)), taken, k, |STUB| - j)
            == Running(State(back, At(back)))
    decreases |STUB| - j
  {
    hide Image, Displacement, Falls, STUB;
    StubEnd();
    ImageParts(body, StubStart(body) + j);
    if j < |STUB| - 1 {
      StubStraight(j);
      StubReturns(body, j + 1, back, taken, k + 1);
    } else {
      assert RunFor(Image(body), State(back, At(back)), taken, k + 1, 0) == Running(State(back, At(back)));
    }
  }

  /** A call runs the stub and comes back to the next slot: the BL and the
      stub's eighteen words later. */
  lemma CallReturns(body: seq<Slot>, i: nat, lr: Link, taken: nat -> bool, k: nat)
    requires ForwardBody(body) && i < |body| && body[i].kind == Call
    ensures var next := BodyStart() + i + 1;
            RunFor(Image(body), State(BodyStart() + i, lr), taken, k, 19) == Running(State(next, At(next)))
  {
    hide Image, Displacement, BodyWord, STUB, RunFor;
    var next := BodyStart() + i + 1;
    StubEnd();
    ImageParts(body, BodyStart() + i);
    TransferLands(body, i);
    TransferWord(BodyWord(body, i));
    StubReturns(body, 0, next, taken, k + 1);
    RunOn(Image(body), State(BodyStart() + i, lr), State(StubStart(body), At(next)), taken, k, 18);
  }

  lemma RunOn(p: seq<Word>, st: State, st': State, taken: nat -> bool, k: nat, n: nat)
    requires Next(p, st, taken(k)) == Running(st')
    ensures RunFor(p, st, taken, k, n + 1) == RunFor(p, st', taken, k + 1, n)
  {
    hide Next;
  }

  // --- What a call leaves ---

  /** X0 to X7 after the first N pairs of the stub: each a low pattern under a
      high one, so that nothing read from a W register survives. */
  function Clobbered(regs: SplitAdd.Regs, n: nat): SplitAdd.Regs
    requires n <= 8
  {
    if n == 0 then regs else Clobbered(regs, n - 1)[n - 1 := 0xDEAD_0000_0000_BEE0 + n - 1]
  }

  lemma StubWords(r: nat)
    requires r < 8
    ensures |STUB| == 18
    ensures STUB[2 * r..2 * r + 2] == [MovzX(r, 0xBEE0 + r, 0), MovkX(r, 0xDEAD, 3)]
  {
    hide MovzX, MovkX;
    StubEnd();
    assert STUB[2 * r] == MovzX(r, 0xBEE0 + r, 0);
    assert STUB[2 * r + 1] == MovkX(r, 0xDEAD, 3);
    assert STUB[2 * r..2 * r + 2] == [STUB[2 * r], STUB[2 * r + 1]];
  }

  lemma StubPair(r: nat, regs: SplitAdd.Regs)
    requires r < 8
    ensures SplitAdd.AllSupported(STUB[2 * r..2 * r + 2])
    ensures SplitAdd.Run(STUB[2 * r..2 * r + 2], regs) == regs[r := 0xDEAD_0000_0000_BEE0 + r]
  {
    hide SplitAdd.Exec, SplitAdd.Run, MoveWide, STUB, Class, Opc, Sf, Hw, Imm16, Rd;
    var low, high := MovzX(r, 0xBEE0 + r, 0), MovkX(r, 0xDEAD, 3);
    var pair := [low, high];
    StubWords(r);
    assert SplitAdd.IsMoveWide(low) && SplitAdd.IsMoveWide(high);
    assert SplitAdd.IsChain(pair, r, true);
    SplitAdd.ChainRuns(pair, r, true, regs);
    assert pair[..1] == [low];
    assert SplitAdd.ChainHalves([low]) == SplitAdd.ChainBase(low);
    assert SplitAdd.ChainHalves(pair) == [0xBEE0 + r, 0, 0, 0xDEAD];
  }

  /** The stub leaves the same eight values whatever it is called with. */
  lemma {:induction false} StubLeaves(n: nat, regs: SplitAdd.Regs)
    requires n <= 8
    ensures SplitAdd.AllSupported(STUB[..2 * n])
    ensures SplitAdd.Run(STUB[..2 * n], regs) == Clobbered(regs, n)
  {
    hide SplitAdd.Run, SplitAdd.Supported, STUB;
    StubEnd();
    if n == 0 {
      assert SplitAdd.Run([], regs) == regs by {
        NothingRuns(regs);
      }
      assert STUB[..0] == [];
    } else {
      StubLeaves(n - 1, regs);
      StubPair(n - 1, Clobbered(regs, n - 1));
      var before, pair := STUB[..2 * (n - 1)], STUB[2 * (n - 1)..2 * (n - 1) + 2];
      assert STUB[..2 * n] == before + pair;
      SplitAdd.RunAppend(before, pair, regs);
    }
  }

  lemma NothingRuns(regs: SplitAdd.Regs)
    ensures SplitAdd.Run([], regs) == regs
  {}

  // --- Termination ---

  lemma FrameStep(body: seq<Slot>, st: State, taken: bool)
    requires ForwardBody(body) && Reachable(body, st)
    requires st.pc < BodyStart() || st.pc >= EpiStart(body)
    ensures match Next(Image(body), st, taken)
            case Running(st') => Reachable(body, st') && 0 <= Measure(body, st') < Measure(body, st)
            case Halted => true
            case Stuck => false
  {
    hide Image, Displacement, Falls, PROLOGUE, EPILOGUE, STUB;
    ImageParts(body, st.pc);
    EpilogueEnd();
    StubEnd();
    if st.pc < BodyStart() {
      PrologueStraight(st.pc);
    } else if st.pc < StubStart(body) - 2 {
      EpilogueStraight(st.pc - EpiStart(body));
    } else if StubStart(body) <= st.pc < ProgLength(body) - 1 {
      StubStraight(st.pc - StubStart(body));
    }
  }

  lemma EpilogueEnd()
    ensures EPILOGUE[11] == RESTORE && EPILOGUE[12] == RET && |EPILOGUE| == 13
  {
  }

  lemma StubEnd()
    ensures STUB[17] == RET && |STUB| == 18
  {
  }

  lemma BodyStep(body: seq<Slot>, st: State, taken: bool)
    requires ForwardBody(body) && Reachable(body, st)
    requires BodyStart() <= st.pc < EpiStart(body)
    ensures match Next(Image(body), st, taken)
            case Running(st') => Reachable(body, st') && 0 <= Measure(body, st') < Measure(body, st)
            case Halted => true
            case Stuck => false
  {
    hide Image, Displacement, Falls, BodyWord, IsB, IsBl;
    ImageParts(body, st.pc);
    var i := st.pc - BodyStart();
    if body[i].kind == Plain {
      assert BodyWord(body, i) == body[i].word && Falls(body[i].word) by {
        PlainWord(body, i);
      }
      FallsStraight(body[i].word);
    } else {
      TransferLands(body, i);
      TransferWord(BodyWord(body, i));
      StubEnd();
    }
  }

  lemma PlainWord(body: seq<Slot>, i: nat)
    requires ForwardBody(body) && i < |body| && body[i].kind == Plain
    ensures BodyWord(body, i) == body[i].word && Falls(body[i].word)
  {
    hide Falls;
    assert ValidSlot(body[i]);
  }

  /** From any reachable state the program returns to its caller within the
      measure, however its conditional branches go. */
  lemma {:induction false} Halts(body: seq<Slot>, st: State, taken: nat -> bool, k: nat) returns (n: nat)
    requires ForwardBody(body) && Reachable(body, st) && Measure(body, st) >= 0
    ensures n <= Measure(body, st) + 1 && RunFor(Image(body), st, taken, k, n) == Halted
    decreases Measure(body, st)
  {
    hide Image, Measure, Reachable, Next;
    if st.pc < BodyStart() || st.pc >= EpiStart(body) {
      FrameStep(body, st, taken(k));
    } else {
      BodyStep(body, st, taken(k));
    }
    match Next(Image(body), st, taken(k))
    case Running(st') =>
      var m := Halts(body, st', taken, k + 1);
      n := m + 1;
    case Halted =>
      n := 1;
  }

  /** Every generated program terminates from every register state, within
      829 instructions. */
  lemma EveryProgramTerminates(body: seq<Slot>, taken: nat -> bool) returns (n: nat)
    requires ForwardBody(body)
    ensures n <= 829 && RunFor(Image(body), State(0, Caller), taken, 0, n) == Halted
  {
    hide Image;
    n := Halts(body, State(0, Caller), taken, 0);
  }
}
