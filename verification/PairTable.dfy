/**
 The open-addressing counter table of tools/pairscan.c: linear probing from a
 string hash, one slot per distinct key, no deletion.
 */
module PairTable {
  import opened Options
  import opened Widths
  import opened Arithmetic

  type Key = seq<Byte>

  const HASH_SIZE := 0x40_0000

  /** h = h * 33 + byte over the string, in 32 bits. */
  function HashFrom(h: nat, key: Key): (r: nat)
    requires h < 0x1_0000_0000
    ensures r < 0x1_0000_0000
    decreases |key|
  {
    if key == [] then h else HashFrom((h * 33 + key[0]) % 0x1_0000_0000, key[1..])
  }

  function Pow33(n: nat): nat {
    if n == 0 then 1 else 33 * Pow33(n - 1)
  }

  /** The bytes as digits to the base 33. */
  function Base33(key: Key): nat {
    if key == [] then 0 else key[0] * Pow33(|key| - 1) + Base33(key[1..])
  }

  /** Reducing at every step is reducing once: the hash is the start followed by
      the bytes, to the base 33, modulo 2^32. */
  lemma {:induction false} HashIsBase33(h: nat, key: Key)
    requires h < 0x1_0000_0000
    ensures HashFrom(h, key) == (h * Pow33(|key|) + Base33(key)) % 0x1_0000_0000
    decreases |key|
  {
    if key != [] {
      hide Base33, Pow33;
      var p := Pow33(|key| - 1);
      HashIsBase33((h * 33 + key[0]) % 0x1_0000_0000, key[1..]);
      ReduceOnce(h * 33 + key[0], p, Base33(key[1..]), 0x1_0000_0000);
      FirstDigit(h, key);
    } else {
      assert Pow33(0) == 1;
    }
  }

  lemma FirstDigit(h: nat, key: Key)
    requires key != []
    ensures (h * 33 + key[0]) * Pow33(|key| - 1) + Base33(key[1..]) == h * Pow33(|key|) + Base33(key)
  {
    var p := Pow33(|key| - 1);
    assert (h * 33 + key[0]) * p == h * (33 * p) + key[0] * p;
  }

  lemma ReduceOnce(x: nat, p: nat, q: nat, m: nat)
    requires m > 0
    ensures (x % m * p + q) % m == (x * p + q) % m
  {
    var t, r := x / m, x % m;
    assert x * p + q == (r * p + q) + (t * p) * m by {
      assert x == m * t + r;
    }
    ModMultiple(r * p + q, t * p, m);
  }

  function Home(key: Key): (r: nat)
    ensures r < HASH_SIZE
  {
    HashFrom(5381, key) % HASH_SIZE
  }

  method HashStr(key: Key) returns (h: nat)
    ensures h == HashFrom(5381, key)
  {
    h := 5381;
    var i := 0;
    while i < |key|
      invariant i <= |key| && h < 0x1_0000_0000
      invariant HashFrom(h, key[i..]) == HashFrom(5381, key)
    {
      assert key[i..][1..] == key[i + 1..];
      h := (h * 33 + key[i]) % 0x1_0000_0000;
      i := i + 1;
    }
    assert key[i..] == [];
  }

  function After(h: nat): nat {
    if h + 1 < HASH_SIZE then h + 1 else 0
  }

  /** Steps from slot H to slot I, wrapping round. */
  function Distance(h: nat, i: nat): int {
    if i >= h then i - h else i - h + HASH_SIZE
  }

  // --- The table's shape ---

  type Slots = s: seq<Option<Key>> | |s| == HASH_SIZE witness seq(HASH_SIZE, _ => None)

  /** Slot J lies on the way from slot H to slot I. */
  predicate Between(h: nat, j: nat, i: nat) {
    Distance(h, j) < Distance(h, i)
  }

  /** Each key is in one slot, and no slot between its home and there is
      free. */
  ghost predicate WellFormed(s: Slots) {
    && (forall i, j | 0 <= i < j < HASH_SIZE && s[i].Some? :: s[i] != s[j])
    && (forall i, j | 0 <= i < HASH_SIZE && 0 <= j < HASH_SIZE && s[i].Some? ::
          Between(Home(s[i].value), j, i) ==> s[j].Some?)
  }

  /** Where a probe for KEY may stop: its own slot or a free one. */
  predicate Stops(s: Slots, key: Key, i: nat)
    requires i < HASH_SIZE
  {
    s[i] == None || s[i] == Some(key)
  }

  /** I is where probing from H stops first. */
  ghost predicate IsProbe(s: Slots, key: Key, h: nat, i: nat) {
    && h < HASH_SIZE && i < HASH_SIZE && Stops(s, key, i)
    && forall j | 0 <= j < HASH_SIZE && Between(h, j, i) :: !Stops(s, key, j)
  }

  lemma ProbeUnique(s: Slots, key: Key, h: nat, i: nat, j: nat)
    requires IsProbe(s, key, h, i) && IsProbe(s, key, h, j)
    ensures i == j
  {
    assert i == j || Between(h, i, j) || Between(h, j, i);
  }

  /** In a well-formed table a probe for a stored key finds its slot: the run
      from its home never meets a free slot first. */
  lemma ProbeFindsKey(s: Slots, key: Key, i: nat)
    requires WellFormed(s) && i < HASH_SIZE && s[i] == Some(key)
    ensures IsProbe(s, key, Home(key), i)
  {
    forall j | 0 <= j < HASH_SIZE && Between(Home(key), j, i) ensures !Stops(s, key, j) {
      assert s[j].Some?;
      if j < i {
        assert s[j] != s[i];
      } else if i < j {
        assert s[i] != s[j];
      }
    }
  }

  /** A probe that stops on a free slot proves the key absent. */
  lemma FreeMeansAbsent(s: Slots, key: Key, i: nat)
    requires WellFormed(s) && IsProbe(s, key, Home(key), i) && s[i] == None
    ensures forall j | 0 <= j < HASH_SIZE :: s[j] != Some(key)
  {
    forall j | 0 <= j < HASH_SIZE ensures s[j] != Some(key) {
      if s[j] == Some(key) {
        ProbeFindsKey(s, key, j);
        ProbeUnique(s, key, Home(key), i, j);
      }
    }
  }

  /** Filling the slot a probe stopped at keeps the table well formed. */
  lemma InsertKeeps(s: Slots, key: Key, i: nat)
    requires WellFormed(s) && IsProbe(s, key, Home(key), i) && s[i] == None
    ensures WellFormed(s[i := Some(key)])
  {
    FreeMeansAbsent(s, key, i);
    var t := s[i := Some(key)];
    forall a, b | 0 <= a < b < HASH_SIZE && t[a].Some? ensures t[a] != t[b] {
      if a != i && b != i {
        assert s[a] != s[b];
      }
    }
    forall a, b | 0 <= a < HASH_SIZE && 0 <= b < HASH_SIZE && t[a].Some?
                  && Between(Home(t[a].value), b, a)
      ensures t[b].Some?
    {
      if a == i {
        assert !Stops(s, key, b);
      } else {
        assert s[b].Some?;
      }
    }
  }

  // --- Counts ---

  function Sum(counts: seq<nat>): nat {
    if counts == [] then 0 else counts[0] + Sum(counts[1..])
  }

  lemma {:induction false} SumUpdate(counts: seq<nat>, i: nat, c: nat)
    requires i < |counts|
    ensures Sum(counts[i := c]) == Sum(counts) - counts[i] + c
  {
    if i == 0 {
      assert counts[0 := c][1..] == counts[1..];
    } else {
      assert counts[i := c][1..] == counts[1..][i - 1 := c];
      SumUpdate(counts[1..], i - 1, c);
    }
  }

  lemma SumZero(counts: seq<nat>)
    requires forall i | 0 <= i < |counts| :: counts[i] == 0
    ensures Sum(counts) == 0
  {
  }

  /** The table stands for the multiset of keys bumped: a key is stored exactly
      when it was bumped, with the number of times, and the counts add up to
      the number of bumps. */
  ghost predicate Represents(s: Slots, counts: seq<nat>, seen: multiset<Key>) {
    && |counts| == HASH_SIZE && WellFormed(s)
    && (forall i | 0 <= i < HASH_SIZE ::
          counts[i] == match s[i] case None => 0 case Some(k) => seen[k])
    && (forall i | 0 <= i < HASH_SIZE && s[i].Some? :: s[i].value in seen)
    && (forall k | k in seen :: exists i :: 0 <= i < HASH_SIZE && s[i] == Some(k))
    && Sum(counts) == |seen|
  }

  lemma BumpStored(s: Slots, counts: seq<nat>, seen: multiset<Key>, key: Key, i: nat)
    requires Represents(s, counts, seen) && |counts| == HASH_SIZE && i < HASH_SIZE && s[i] == Some(key)
    ensures Represents(s, counts[i := counts[i] + 1], seen + multiset{key})
  {
    OneSlotEach(s, i);
    hide WellFormed, Sum;
    SumUpdate(counts, i, counts[i] + 1);
    var after := seen + multiset{key};
    forall j | 0 <= j < HASH_SIZE
      ensures counts[i := counts[i] + 1][j] == match s[j] case None => 0 case Some(k) => after[k]
    {
      assert j != i ==> s[j] != Some(key);
    }
  }

  lemma OneSlotEach(s: Slots, i: nat)
    requires WellFormed(s) && i < HASH_SIZE && s[i].Some?
    ensures forall j | 0 <= j < HASH_SIZE && j != i :: s[j] != s[i]
  {
    hide Home, IsProbe;
    forall j | 0 <= j < HASH_SIZE && j != i ensures s[j] != s[i] {
      assert j > i ==> s[i] != s[j];
      assert j < i && s[j].Some? ==> s[j] != s[i];
    }
  }

  lemma BumpNew(s: Slots, counts: seq<nat>, seen: multiset<Key>, key: Key, i: nat)
    requires Represents(s, counts, seen) && |counts| == HASH_SIZE
    requires i < HASH_SIZE && IsProbe(s, key, Home(key), i) && s[i] == None
    ensures Represents(s[i := Some(key)], counts[i := 1], seen + multiset{key}) && counts[i] == 0
  {
    hide WellFormed, IsProbe, Sum, Home;
    FreeMeansAbsent(s, key, i);
    InsertKeeps(s, key, i);
    SumUpdate(counts, i, 1);
    var t, after := s[i := Some(key)], seen + multiset{key};
    assert key !in seen;
    forall k | k in after ensures exists j :: 0 <= j < HASH_SIZE && t[j] == Some(k) {
      if k == key {
        assert t[i] == Some(k);
      } else {
        assert k in seen;
        var j :| 0 <= j < HASH_SIZE && s[j] == Some(k);
        assert t[j] == Some(k);
      }
    }
  }

  ghost predicate HasFree(s: Slots) {
    exists f :: 0 <= f < HASH_SIZE && s[f] == None
  }

  lemma SomeStop(s: Slots, counts: seq<nat>, seen: multiset<Key>, key: Key) returns (goal: nat)
    requires Represents(s, counts, seen) && (key in seen || HasFree(s))
    ensures goal < HASH_SIZE && Stops(s, key, goal)
  {
    if key in seen {
      goal :| 0 <= goal < HASH_SIZE && s[goal] == Some(key);
    } else {
      goal :| 0 <= goal < HASH_SIZE && s[goal] == None;
    }
  }

  /** A probe stops at all exactly when the key is stored or a slot is free: on
      a full table a new key is probed for ever. */
  lemma ProbeStopsIff(s: Slots, counts: seq<nat>, seen: multiset<Key>, key: Key)
    requires Represents(s, counts, seen)
    ensures (exists i: nat :: i < HASH_SIZE && Stops(s, key, i)) <==> key in seen || HasFree(s)
  {
    if key in seen || HasFree(s) {
      var goal := SomeStop(s, counts, seen, key);
    }
  }

  class Table {
    const keys: array<Option<Key>>
    const counts: array<nat>
    var totalPairs: nat
    ghost var seen: multiset<Key>

    ghost predicate Valid()
      reads this, keys, counts
    {
      && keys.Length == HASH_SIZE && counts.Length == HASH_SIZE
      && Represents(keys[..], counts[..], seen)
    }

    constructor ()
      ensures Valid() && fresh(keys) && fresh(counts) && seen == multiset{} && totalPairs == 0
    {
      keys := new Option<Key>[HASH_SIZE](_ => None);
      counts := new nat[HASH_SIZE](_ => 0);
      totalPairs := 0;
      seen := multiset{};
      new;
      SumZero(counts[..]);
    }

    /** Counts one occurrence of KEY. Terminates whenever some slot is free or
        the key is already stored. */
    method Bump(key: Key) returns (ghost at: nat)
      requires Valid()
      requires key in seen || HasFree(keys[..])
      modifies this`seen, keys, counts
      ensures Valid() && seen == old(seen) + multiset{key}
      ensures forall i | 0 <= i < HASH_SIZE && old(keys[..])[i].Some? :: keys[..][i] == old(keys[..])[i]
      ensures IsProbe(old(keys[..]), key, Home(key), at)
      ensures keys[..] == old(keys[..])[at := Some(key)]
      ensures counts[..] == old(counts[..])[at := old(counts[..])[at] + 1]
    {
      hide Represents, WellFormed, HashFrom;
      ghost var s: Slots := keys[..];
      ghost var goal := SomeStop(s, counts[..], seen, key);
      var hash := HashStr(key);
      var h: nat := hash % HASH_SIZE;
      while true
        invariant h < HASH_SIZE
        invariant forall j | 0 <= j < HASH_SIZE && Between(Home(key), j, h) :: !Stops(s, key, j)
        invariant Distance(Home(key), h) <= Distance(Home(key), goal)
        decreases Distance(Home(key), goal) - Distance(Home(key), h)
      {
        if keys[h] == None {
          BumpNew(s, counts[..], seen, key, h);
          keys[h] := Some(key);
          counts[h] := 1;
          at := h;
          seen := seen + multiset{key};
          assert keys[..] == s[h := Some(key)];
          assert counts[..] == old(counts[..])[h := 1];
          return;
        }
        if keys[h] == Some(key) {
          BumpStored(s, counts[..], seen, key, h);
          counts[h] := counts[h] + 1;
          at := h;
          seen := seen + multiset{key};
          assert counts[..] == old(counts[..])[h := old(counts[..])[h] + 1];
          return;
        }
        assert !Stops(s, key, h);
        h := After(h);
      }
    }

    /** One adjacent pair of a scan: bumped and added to the total. */
    method CountPair(key: Key)
      requires Valid() && totalPairs == |seen|
      requires key in seen || HasFree(keys[..])
      modifies this, keys, counts
      ensures Valid() && seen == old(seen) + multiset{key}
      ensures totalPairs == old(totalPairs) + 1 == |seen| == Sum(counts[..])
    {
      ghost var at := Bump(key);
      totalPairs := totalPairs + 1;
    }
  }
}
