/**
 The anchor table of one code section in main.c: working anchors sorted,
 one kept per address, a duplicate's extent lent to the survivor.
 */
module Anchors {
  import opened Options

  /** name is None for a bare function start; size 0 when none is recorded. */
  datatype Anchor = Anchor(vaddr: nat, name: Option<string>, external: bool, size: nat)

  datatype Symbol = Symbol(vaddr: nat, name: Option<string>, size: nat)

  /** strcmp: the sign of the first difference. */
  function StrCmp(a: string, b: string): (r: int)
    ensures r == 0 <==> a == b
  {
    if a == [] || b == [] then |a| - |b|
    else if a[0] != b[0] then a[0] as int - b[0] as int
    else
      var r := StrCmp(a[1..], b[1..]);
      assert a == [a[0]] + a[1..] && b == [b[0]] + b[1..];
      r
  }

  /** A is a proper prefix of B up to K, or has the lesser character there. */
  predicate LessAt(a: string, b: string, k: nat) {
    k <= |a| && k < |b| && a[..k] == b[..k] && (k == |a| || a[k] < b[k])
  }

  /** Lexicographic order. */
  ghost predicate StrLess(a: string, b: string) {
    exists k: nat :: LessAt(a, b, k)
  }

  lemma {:induction false} StrCmpIff(a: string, b: string)
    ensures StrCmp(a, b) < 0 <==> StrLess(a, b)
  {
    if a == [] && b != [] {
      assert LessAt(a, b, 0);
    } else if a != [] && b != [] {
      if a[0] == b[0] {
        StrCmpIff(a[1..], b[1..]);
        forall k: nat ensures LessAt(a[1..], b[1..], k) <==> LessAt(a, b, k + 1) {
          LessFurther(a, b, k);
        }
        if k: nat :| LessAt(a[1..], b[1..], k) {
          assert LessAt(a, b, k + 1);
        }
        if k: nat :| LessAt(a, b, k) {
          assert k > 0 && LessAt(a[1..], b[1..], k - 1);
        }
      } else {
        assert LessAt(a, b, 0) <==> a[0] < b[0];
        forall k: nat | k > 0 ensures !LessAt(a, b, k) {
          assert k <= |a| && k <= |b| ==> a[..k][0] == a[0] && b[..k][0] == b[0];
        }
      }
    }
  }

  /** A common first character does not matter. */
  lemma LessFurther(a: string, b: string, k: nat)
    requires a != [] && b != [] && a[0] == b[0]
    ensures LessAt(a[1..], b[1..], k) <==> LessAt(a, b, k + 1)
  {
    if k + 1 <= |a| && k + 1 <= |b| {
      assert a[..k + 1] == [a[0]] + a[1..][..k] && b[..k + 1] == [b[0]] + b[1..][..k];
      assert a[1..][..k] == a[..k + 1][1..] && b[1..][..k] == b[..k + 1][1..];
    }
  }

  /** Address first; then named before nameless, external before local, and the
      name itself. */
  function AnchorCmp(x: Anchor, y: Anchor): int {
    if x.vaddr != y.vaddr then (if x.vaddr < y.vaddr then -1 else 1)
    else if x.name.Some? != y.name.Some? then (if x.name.Some? then -1 else 1)
    else if x.external != y.external then (if x.external then -1 else 1)
    else if x.name.Some? then StrCmp(x.name.value, y.name.value)
    else 0
  }

  lemma {:induction false} StrCmpOrders(a: string, b: string, c: string)
    ensures StrCmp(a, b) <= 0 <==> StrCmp(b, a) >= 0
    ensures StrCmp(a, b) <= 0 && StrCmp(b, c) <= 0 ==> StrCmp(a, c) <= 0
  {
    if a != [] && b != [] {
      if c != [] {
        StrCmpOrders(a[1..], b[1..], c[1..]);
      } else {
        StrCmpOrders(a[1..], b[1..], []);
      }
    }
  }

  /** A total preorder; anchors that compare equal differ at most in size. */
  lemma CmpIsTotalPreorder(x: Anchor, y: Anchor, z: Anchor)
    ensures AnchorCmp(x, x) == 0
    ensures AnchorCmp(x, y) <= 0 <==> AnchorCmp(y, x) >= 0
    ensures AnchorCmp(x, y) <= 0 || AnchorCmp(y, x) <= 0
    ensures AnchorCmp(x, y) <= 0 && AnchorCmp(y, z) <= 0 ==> AnchorCmp(x, z) <= 0
    ensures AnchorCmp(x, y) == 0 <==>
              x.vaddr == y.vaddr && x.name == y.name && x.external == y.external
  {
    if x.name.Some? && y.name.Some? {
      StrCmpOrders(x.name.value, y.name.value, if z.name.Some? then z.name.value else "");
      StrCmpOrders(y.name.value, x.name.value, "");
    }
  }

  /** What qsort leaves. */
  ghost predicate Sorted(s: seq<Anchor>) {
    forall i, j | 0 <= i < j < |s| :: AnchorCmp(s[i], s[j]) <= 0
  }

  // --- The finished table ---

  ghost predicate Ascending(out: seq<Symbol>) {
    forall i, j | 0 <= i < j < |out| :: out[i].vaddr < out[j].vaddr
  }

  /** A carries the name of O and comes first among the anchors of its
      address. */
  ghost predicate IsPreferred(a: Anchor, o: Symbol, anchors: seq<Anchor>) {
    && a in anchors && a.vaddr == o.vaddr && a.name == o.name
    && forall b | b in anchors && b.vaddr == o.vaddr :: AnchorCmp(a, b) <= 0
  }

  /** The size is the largest recorded at the address. */
  ghost predicate IsLargest(o: Symbol, anchors: seq<Anchor>) {
    && (exists a | a in anchors :: a.vaddr == o.vaddr && a.size == o.size)
    && forall b | b in anchors && b.vaddr == o.vaddr :: b.size <= o.size
  }

  ghost predicate Describes(o: Symbol, anchors: seq<Anchor>) {
    (exists a :: IsPreferred(a, o, anchors)) && IsLargest(o, anchors)
  }

  ghost predicate Covers(out: seq<Symbol>, vaddr: nat) {
    exists i :: 0 <= i < |out| && out[i].vaddr == vaddr
  }

  /** One entry per distinct address, ascending, each with its address's
      preferred name and largest size. */
  ghost predicate IsFinished(out: seq<Symbol>, anchors: seq<Anchor>) {
    && Ascending(out)
    && (forall i | 0 <= i < |out| :: Describes(out[i], anchors))
    && (forall a | a in anchors :: Covers(out, a.vaddr))
  }

  // --- The dedupe, one anchor at a time ---

  function Absorb(out: seq<Symbol>, a: Anchor): seq<Symbol> {
    var m := |out|;
    if m > 0 && out[m - 1].vaddr == a.vaddr then
      if a.size > out[m - 1].size then out[m - 1 := out[m - 1].(size := a.size)] else out
    else out + [Symbol(a.vaddr, a.name, a.size)]
  }

  /** Anchors at other addresses do not matter to an entry. */
  lemma DescribesOther(o: Symbol, done: seq<Anchor>, a: Anchor)
    requires Describes(o, done) && a.vaddr != o.vaddr
    ensures Describes(o, done + [a])
  {
    var p :| IsPreferred(p, o, done);
    assert IsPreferred(p, o, done + [a]);
    var q :| q in done && q.vaddr == o.vaddr && q.size == o.size;
    assert q in done + [a];
  }

  lemma DescribesSame(o: Symbol, done: seq<Anchor>, a: Anchor)
    requires Describes(o, done) && a.vaddr == o.vaddr
    requires forall b | b in done :: AnchorCmp(b, a) <= 0
    ensures Describes(o.(size := if a.size > o.size then a.size else o.size), done + [a])
  {
    var o' := o.(size := if a.size > o.size then a.size else o.size);
    var p :| IsPreferred(p, o, done);
    assert IsPreferred(p, o', done + [a]);
    var q :| q in done && q.vaddr == o.vaddr && q.size == o.size;
    assert q in done + [a] && a in done + [a];
  }

  lemma DescribesNew(done: seq<Anchor>, a: Anchor)
    requires forall b | b in done :: b.vaddr != a.vaddr
    ensures Describes(Symbol(a.vaddr, a.name, a.size), done + [a])
  {
    CmpIsTotalPreorder(a, a, a);
    assert IsPreferred(a, Symbol(a.vaddr, a.name, a.size), done + [a]);
    assert a in done + [a];
  }

  lemma AbsorbKeeps(out: seq<Symbol>, done: seq<Anchor>, a: Anchor)
    requires IsFinished(out, done)
    requires forall b | b in done :: AnchorCmp(b, a) <= 0
    ensures IsFinished(Absorb(out, a), done + [a])
  {
    hide Describes;
    var after := Absorb(out, a);
    var m := |out|;
    forall i | 0 <= i < m ensures out[i].vaddr <= a.vaddr {
      EntryBelow(out[i], done, a);
    }
    var same := m > 0 && out[m - 1].vaddr == a.vaddr;
    if !same {
      forall b | b in done ensures b.vaddr != a.vaddr {
        var i :| 0 <= i < |out| && out[i].vaddr == b.vaddr;
        assert i < m - 1 ==> out[i].vaddr < out[m - 1].vaddr;
      }
      DescribesNew(done, a);
    } else {
      DescribesSame(out[m - 1], done, a);
    }
    forall i | 0 <= i < |after| ensures Describes(after[i], done + [a]) {
      if i < (if same then m - 1 else m) {
        assert i < m - 1 ==> out[i].vaddr < out[m - 1].vaddr;
        DescribesOther(out[i], done, a);
      }
    }
    forall b | b in done + [a] ensures Covers(after, b.vaddr) {
      if b in done {
        var i :| 0 <= i < |out| && out[i].vaddr == b.vaddr;
        assert after[i].vaddr == b.vaddr;
      } else {
        assert after[|after| - 1].vaddr == b.vaddr;
      }
    }
  }

  lemma EntryBelow(o: Symbol, done: seq<Anchor>, a: Anchor)
    requires Describes(o, done)
    requires forall b | b in done :: AnchorCmp(b, a) <= 0
    ensures o.vaddr <= a.vaddr
  {
    var p :| IsPreferred(p, o, done);
  }

  /** The pass over the sorted anchors; OUT has room for them all. */
  method AnchorsFinish(tmp: seq<Anchor>, out: array<Symbol>) returns (m: nat)
    requires Sorted(tmp) && out.Length >= |tmp|
    modifies out
    ensures m <= |tmp| && IsFinished(out[..m], tmp)
  {
    hide IsFinished, AnchorCmp;
    m := 0;
    assert IsFinished([], tmp[..0]) by {
      NothingFinished();
    }
    for i := 0 to |tmp|
      invariant m <= i && IsFinished(out[..m], tmp[..i])
    {
      ghost var before := out[..m];
      assert tmp[..i + 1] == tmp[..i] + [tmp[i]];
      AbsorbKeeps(before, tmp[..i], tmp[i]);
      if m > 0 && out[m - 1].vaddr == tmp[i].vaddr {
        if tmp[i].size > out[m - 1].size {
          out[m - 1] := out[m - 1].(size := tmp[i].size);
        }
        assert out[..m] == Absorb(before, tmp[i]);
        continue;
      }
      out[m] := Symbol(tmp[i].vaddr, tmp[i].name, tmp[i].size);
      m := m + 1;
      assert out[..m] == Absorb(before, tmp[i]);
    }
    assert tmp[..|tmp|] == tmp;
  }

  /** The name that survives at an address: some, if any anchor there has one;
      an external anchor's, if any of those is; and of the names left the least. */
  lemma SurvivorIs(out: seq<Symbol>, anchors: seq<Anchor>, i: nat)
    requires IsFinished(out, anchors) && i < |out|
    ensures out[i].name.Some? <==> exists a :: a in anchors && a.vaddr == out[i].vaddr && a.name.Some?
    ensures out[i].name.Some? ==>
              exists p :: p in anchors && p.vaddr == out[i].vaddr && p.name == out[i].name
                          && forall b | b in anchors && b.vaddr == p.vaddr && b.name.Some? ::
                               (b.external ==> p.external)
                               && (b.external == p.external ==> !StrLess(b.name.value, p.name.value))
  {
    hide IsLargest, StrLess;
    assert Describes(out[i], anchors);
    var p :| IsPreferred(p, out[i], anchors);
    if p.name.Some? {
      forall b | b in anchors && b.vaddr == p.vaddr && b.name.Some?
        ensures (b.external ==> p.external)
                && (b.external == p.external ==> !StrLess(b.name.value, p.name.value))
      {
        StrCmpIff(b.name.value, p.name.value);
        CmpIsTotalPreorder(p, b, p);
      }
    }
  }

  lemma NothingFinished()
    ensures IsFinished([], [])
  {
  }

  // --- One table for every order of the input ---

  /** The finished table depends on the set of anchors alone, so every input
      order, and every order qsort may leave ties in, gives the same table. */
  lemma FinishIsUnique(out: seq<Symbol>, out': seq<Symbol>, anchors: seq<Anchor>, anchors': seq<Anchor>)
    requires multiset(anchors) == multiset(anchors')
    requires IsFinished(out, anchors) && IsFinished(out', anchors')
    ensures out == out'
  {
    hide Describes;
    forall a ensures a in anchors <==> a in anchors' {
      assert a in anchors <==> a in multiset(anchors);
      assert a in anchors' <==> a in multiset(anchors');
    }
    SamePrefix(out, out', anchors, anchors', |out|);
    SamePrefix(out', out, anchors', anchors, |out'|);
  }

  lemma EntryHasAnchor(o: Symbol, anchors: seq<Anchor>) returns (a: Anchor)
    requires Describes(o, anchors)
    ensures a in anchors && a.vaddr == o.vaddr
  {
    a :| IsPreferred(a, o, anchors);
  }

  lemma DescribesUnique(o: Symbol, o': Symbol, anchors: seq<Anchor>, anchors': seq<Anchor>)
    requires forall a :: a in anchors <==> a in anchors'
    requires Describes(o, anchors) && Describes(o', anchors') && o.vaddr == o'.vaddr
    ensures o == o'
  {
    var a :| IsPreferred(a, o, anchors);
    var a' :| IsPreferred(a', o', anchors');
    CmpIsTotalPreorder(a, a', a);
    var b :| b in anchors && b.vaddr == o.vaddr && b.size == o.size;
    var b' :| b' in anchors' && b'.vaddr == o'.vaddr && b'.size == o'.size;
  }

  /** The first N entries of one table are those of the other. */
  lemma {:induction false} SamePrefix(out: seq<Symbol>, out': seq<Symbol>, anchors: seq<Anchor>,
                                      anchors': seq<Anchor>, n: nat)
    requires forall a :: a in anchors <==> a in anchors'
    requires IsFinished(out, anchors) && IsFinished(out', anchors') && n <= |out|
    ensures n <= |out'| && out[..n] == out'[..n]
  {
    hide Describes;
    if n > 0 {
      SamePrefix(out, out', anchors, anchors', n - 1);
      var a := EntryHasAnchor(out[n - 1], anchors);
      var i :| 0 <= i < |out'| && out'[i].vaddr == a.vaddr;
      forall k | 0 <= k < n - 1 ensures out[k] == out'[k] {
        assert out[..n - 1][k] == out'[..n - 1][k];
      }
      assert i >= n - 1;
      var a' := EntryHasAnchor(out'[n - 1], anchors');
      var j :| 0 <= j < |out| && out[j].vaddr == a'.vaddr;
      assert j >= n - 1;
      assert out'[n - 1].vaddr == out[n - 1].vaddr;
      DescribesUnique(out[n - 1], out'[n - 1], anchors, anchors');
      assert out[..n] == out[..n - 1] + [out[n - 1]];
      assert out'[..n] == out'[..n - 1] + [out'[n - 1]];
    }
  }
}
