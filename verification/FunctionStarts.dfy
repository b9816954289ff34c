/**
 LC_FUNCTION_STARTS in main.c: a ULEB128 stream (section 7.6 of DWARF 5) of
 deltas between function entries, ended by a zero or by its length.
 */
module FunctionStarts {
  import opened Options
  import opened Widths
  import opened Sequences
  import opened Arithmetic

  /** One delta: its value in 64 bits and what follows it; None for a dangling
      continuation bit or an encoding past the tenth byte. */
  function DecodeDelta(s: seq<Byte>, shift: nat, delta: nat): (r: Option<(nat, seq<Byte>)>)
    ensures r.Some? ==> |r.value.1| < |s| && s[|s| - |r.value.1|..] == r.value.1
    decreases |s|
  {
    if s == [] || shift >= 64 then None
    else
      var d := delta + s[0] % 128 * Pow2(shift) % M64;
      if s[0] < 128 then Some((d, s[1..])) else DecodeDelta(s[1..], shift + 7, d)
  }

  /** The entries of a stream whose last address was ADDR. */
  function Starts(s: seq<Byte>, addr: nat): (r: seq<nat>)
    ensures |r| <= |s|
    decreases |s|
  {
    if s == [] || s[0] == 0 then []
    else
      match DecodeDelta(s, 0, 0)
      case None => []
      case Some((delta, rest)) =>
        var next := (addr + delta) % M64;
        [next] + Starts(rest, next)
  }

  lemma StartsAt(blob: seq<Byte>, p: nat, addr: nat)
    requires p <= |blob|
    ensures Starts(blob[p..], addr)
            == if p == |blob| || blob[p] == 0 || DecodeDelta(blob[p..], 0, 0) == None then []
               else
                 var (delta, rest) := DecodeDelta(blob[p..], 0, 0).value;
                 [(addr + delta) % M64] + Starts(rest, (addr + delta) % M64)
  {
    hide DecodeDelta;
  }

  /** The inner loop: one delta from position P on. */
  method ReadDelta(blob: seq<Byte>, p: nat) returns (malformed: bool, delta: nat, q: nat)
    requires p <= |blob|
    ensures malformed <==> DecodeDelta(blob[p..], 0, 0) == None
    ensures !malformed ==> p < q <= |blob| && DecodeDelta(blob[p..], 0, 0) == Some((delta, blob[q..]))
  {
    hide DecodeDelta;
    delta, q, malformed := 0, p, false;
    var shift: nat := 0;
    while true
      invariant p <= q <= |blob|
      invariant DecodeDelta(blob[q..], shift, delta) == DecodeDelta(blob[p..], 0, 0)
      decreases |blob| - q
    {
      DeltaStep(blob, q, shift, delta);
      if q == |blob| || shift >= 64 {
        malformed := true;
        break;
      }
      var byte := blob[q];
      q := q + 1;
      delta := delta + byte % 128 * Pow2(shift) % M64;
      shift := shift + 7;
      if byte < 128 {
        break;
      }
    }
  }

  /** The loop over the blob. At most one entry per byte is ever written. */
  method ReadStarts(blob: seq<Byte>, textVmaddr: nat) returns (fstarts: array<nat>, n: nat)
    requires textVmaddr < M64
    ensures fresh(fstarts) && fstarts.Length == |blob|
    ensures n <= |blob| && fstarts[..n] == Starts(blob, textVmaddr)
  {
    hide DecodeDelta, Starts;
    fstarts := new nat[|blob|](_ => 0);
    n := 0;
    var p: nat, addr: nat := 0, textVmaddr;
    assert blob[0..] == blob && fstarts[..0] + Starts(blob, addr) == Starts(blob, addr);
    while p < |blob| && blob[p] != 0
      invariant p <= |blob| && n <= p
      invariant fstarts[..n] + Starts(blob[p..], addr) == Starts(blob, textVmaddr)
      decreases |blob| - p
    {
      var malformed, delta, q := ReadDelta(blob, p);
      StartsAt(blob, p, addr);
      if malformed {
        break;
      }
      addr := (addr + delta) % M64;
      Advance(fstarts[..n], [addr], Starts(blob[q..], addr));
      ghost var before := fstarts[..n];
      fstarts[n] := addr;
      n := n + 1;
      assert fstarts[..n] == before + [addr];
      p := q;
    }
    StartsAt(blob, p, addr);
    Finished(fstarts[..n]);
  }

  lemma DeltaStep(blob: seq<Byte>, q: nat, shift: nat, delta: nat)
    requires q <= |blob|
    ensures DecodeDelta(blob[q..], shift, delta)
            == if q == |blob| || shift >= 64 then None
               else
                 var d := delta + blob[q] % 128 * Pow2(shift) % M64;
                 if blob[q] < 128 then Some((d, blob[q + 1..])) else DecodeDelta(blob[q + 1..], shift + 7, d)
  {
    if q < |blob| {
      assert blob[q..][1..] == blob[q + 1..];
    }
  }

  // --- Encoding and back ---

  /** The unsigned LEB128 encoding. */
  function Uleb(n: nat): (s: seq<Byte>)
    ensures s != []
  {
    if n < 128 then [n] else [n % 128 + 128] + Uleb(n / 128)
  }

  function Encode(deltas: seq<nat>): seq<Byte> {
    if deltas == [] then [] else Uleb(deltas[0]) + Encode(deltas[1..])
  }

  function Sums(addr: nat, deltas: seq<nat>): seq<nat>
    decreases |deltas|
  {
    if deltas == [] then []
    else
      var next := (addr + deltas[0]) % M64;
      [next] + Sums(next, deltas[1..])
  }

  function Last(addr: nat, deltas: seq<nat>): nat
    decreases |deltas|
  {
    if deltas == [] then addr else Last((addr + deltas[0]) % M64, deltas[1..])
  }

  /** One encoded delta is read back whole, whatever follows. */
  lemma UlebUnfolds(n: nat, tail: seq<Byte>, shift: nat, delta: nat)
    requires shift < 64
    ensures var d := delta + n % 128 * Pow2(shift) % M64;
            DecodeDelta(Uleb(n) + tail, shift, delta)
            == if n < 128 then Some((d, tail)) else DecodeDelta(Uleb(n / 128) + tail, shift + 7, d)
  {
    hide Pow2;
    var s := Uleb(n) + tail;
    if n < 128 {
      assert s == [n] + tail && s[1..] == tail;
    } else {
      assert s == [n % 128 + 128] + (Uleb(n / 128) + tail) && s[1..] == Uleb(n / 128) + tail;
      ModShift(n % 128, 1, 128);
    }
  }

  lemma {:induction false} DecodeUleb(n: nat, tail: seq<Byte>, shift: nat, delta: nat)
    requires shift < 64 && delta + n * Pow2(shift) < M64
    ensures DecodeDelta(Uleb(n) + tail, shift, delta) == Some((delta + n * Pow2(shift), tail))
    decreases n
  {
    hide Pow2, DecodeDelta, Uleb;
    var unit := Pow2(shift);
    UlebUnfolds(n, tail, shift, delta);
    if n < 128 {
      ModOnce(n, 128);
      ModOnce(n * unit, M64);
    } else {
      SplitDelta(n, unit);
      ModOnce(n % 128 * unit, M64);
      SevenMore(shift);
      ShiftRoom(n, shift);
      DecodeUleb(n / 128, tail, shift + 7, delta + n % 128 * unit);
    }
  }

  lemma SevenMore(shift: nat)
    ensures Pow2(shift + 7) == Pow2(shift) * 128
  {
    Pow2Add(shift, 7);
    assert Pow2(7) == 128 by {
      assert Pow2(3) == 8;
    }
  }

  lemma SplitDelta(n: nat, unit: nat)
    ensures n * unit == n % 128 * unit + n / 128 * (unit * 128)
    ensures 0 <= n % 128 * unit <= n * unit
  {
    var q, r := n / 128, n % 128;
    assert n == r + q * 128;
    assert (r + q * 128) * unit == r * unit + q * (unit * 128);
  }

  lemma ShiftRoom(n: nat, shift: nat)
    requires n >= 128 && n * Pow2(shift) < M64 && shift < 64
    ensures shift + 7 < 64
  {
    MulMonotone(128, n, Pow2(shift));
    SevenMore(shift);
    if shift + 7 >= 64 {
      Pow2Grows(64, shift + 7);
      TwoTo64();
    }
  }

  /** A positive delta never starts with a zero byte, so the terminator is
      unambiguous. */
  lemma UlebFirstByte(n: nat)
    requires n > 0
    ensures Uleb(n)[0] != 0
  {
  }

  lemma OneDelta(d: nat, rest: seq<Byte>, addr: nat)
    requires 0 < d < M64
    ensures var next := (addr + d) % M64;
            Starts(Uleb(d) + rest, addr) == [next] + Starts(rest, next)
  {
    hide DecodeDelta, Uleb;
    UlebFirstByte(d);
    var s := Uleb(d) + rest;
    assert s[0] == Uleb(d)[0];
    assert DecodeDelta(s, 0, 0) == Some((d, rest)) by {
      assert d * Pow2(0) == d;
      DecodeUleb(d, rest, 0, 0);
    }
  }

  /** A stream of positive 64-bit deltas gives their running sums, and then
      whatever the rest of the stream gives. */
  lemma {:induction false} StartsOfEncoding(deltas: seq<nat>, tail: seq<Byte>, addr: nat)
    requires forall i | 0 <= i < |deltas| :: 0 < deltas[i] < M64
    ensures Starts(Encode(deltas) + tail, addr)
            == Sums(addr, deltas) + Starts(tail, Last(addr, deltas))
    decreases |deltas|
  {
    hide DecodeDelta, Uleb, Starts;
    if deltas == [] {
      assert Encode(deltas) + tail == tail;
      assert Sums(addr, deltas) + Starts(tail, addr) == Starts(tail, addr);
    } else {
      var rest := Encode(deltas[1..]) + tail;
      assert Encode(deltas) + tail == Uleb(deltas[0]) + rest;
      OneDelta(deltas[0], rest, addr);
      var next := (addr + deltas[0]) % M64;
      StartsOfEncoding(deltas[1..], tail, next);
      assert [next] + (Sums(next, deltas[1..]) + Starts(tail, Last(next, deltas[1..])))
             == [next] + Sums(next, deltas[1..]) + Starts(tail, Last(next, deltas[1..]));
    }
  }

  /** Zero-padded, the stream gives exactly the running sums; cut off inside a
      later delta, or followed by an overlong one, it keeps those before it. */
  lemma PaddedOrMalformed(deltas: seq<nat>, tail: seq<Byte>, addr: nat)
    requires forall i | 0 <= i < |deltas| :: 0 < deltas[i] < M64
    requires tail == [] || tail[0] == 0 || DecodeDelta(tail, 0, 0) == None
    ensures Starts(Encode(deltas) + tail, addr) == Sums(addr, deltas)
  {
    StartsOfEncoding(deltas, tail, addr);
  }

  /** What is malformed: sixty-four bits' worth of continuation bytes, or
      fewer and then the end. */
  lemma {:induction false} MalformedIff(s: seq<Byte>, shift: nat, delta: nat)
    ensures DecodeDelta(s, shift, delta) == None
            <==> forall i | 0 <= i < |s| && shift + 7 * i < 64 :: s[i] >= 128
    decreases |s|
  {
    if s != [] && shift < 64 {
      var d := delta + s[0] % 128 * Pow2(shift) % M64;
      MalformedIff(s[1..], shift + 7, d);
      if s[0] >= 128 {
        assert forall i | 0 <= i < |s| && shift + 7 * i < 64 :: i > 0 ==> s[i] == s[1..][i - 1];
        assert forall i | 0 <= i < |s| - 1 && shift + 7 + 7 * i < 64 :: s[1..][i] == s[i + 1];
      } else {
        assert shift + 7 * 0 < 64;
      }
    }
  }
}
