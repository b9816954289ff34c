/**
 The logical immediates of A64: DecodeBitMasks as tools/net11scan.py and
 tools/rwfuzz.c decode it, and which values are encodable.
 */
module LogicalImmediate {
  import opened Options
  import opened Arithmetic
  import opened Bits

  /** int.bit_length. */
  function BitLength(x: nat): (n: nat)
    ensures x > 0 <==> n > 0
  {
    if x == 0 then 0 else 1 + BitLength(x / 2)
  }

  /** COUNT copies of ELEM, each ESIZE positions above the last. */
  function Tile(elem: set<nat>, esize: nat, count: nat): set<nat> {
    if count == 0 then {} else Tile(elem, esize, count - 1) + Shl(elem, (count - 1) * esize)
  }

  /** ROR of an ESIZE-bit element. */
  function Rotated(elem: set<nat>, r: nat, esize: nat): set<nat>
    requires r <= esize
  {
    (Shr(elem, r) + Shl(elem, esize - r)) * Low(esize)
  }

  /** The wmask of DecodeBitMasks, or None for a reserved encoding. */
  function Decode(n: nat, r: nat, s: nat, width: nat): Option<set<nat>>
    requires n <= 1 && r < 64 && s < 64
  {
    var x := 64 * n + (63 - s);
    if x == 0 then None else DecodeElement(Pow2(BitLength(x) - 1), r, s, width)
  }

  /** The part of the decoding that follows the choice of element size. */
  function DecodeElement(esize: nat, r: nat, s: nat, width: nat): Option<set<nat>>
    requires esize > 0
  {
    if esize > width then None
    else
      var s, r := s % esize, r % esize;
      if s == esize - 1 then None
      else Some(Tile(Rotated(Low(s + 1), r, esize), esize, width / esize))
  }

  method DecodeBitmask(n: nat, r: nat, s: nat, width: nat) returns (v: Option<set<nat>>)
    requires n <= 1 && r < 64 && s < 64
    ensures v == Decode(n, r, s, width)
  {
    hide Shr, Shl, Low, Pow2, BitLength;
    var x := 64 * n + (63 - s);
    if x == 0 {
      return None;
    }
    var esize := Pow2(BitLength(x) - 1);
    if esize > width {
      return None;
    }
    var s', r' := s % esize, r % esize;
    if s' == esize - 1 {
      return None;
    }
    var elem := Low(s' + 1);
    elem := (Shr(elem, r') + Shl(elem, esize - r')) * Low(esize);
    var out: set<nat> := {};
    for i := 0 to width / esize
      invariant out == Tile(elem, esize, i)
    {
      out := out + Shl(elem, i * esize);
    }
    return Some(out);
  }

  // --- What the decoded values are ---

  /** Every ESIZE bits of the low WIDTH, the same LEN ones, rotated right by
      ROT. */
  function Pattern(esize: nat, len: nat, rot: nat, width: nat): (s: set<nat>)
    requires esize > 0
    ensures forall j: nat :: j in s <==> j < width && (j + rot) % esize < len
  {
    if width == 0 then {}
    else if (width - 1 + rot) % esize < len then Pattern(esize, len, rot, width - 1) + {width - 1}
    else Pattern(esize, len, rot, width - 1)
  }

  predicate ValidShape(esize: nat, len: nat, rot: nat, width: nat) {
    && esize in {2, 4, 8, 16, 32, 64} && esize <= width
    && 1 <= len < esize && rot < esize
  }

  /** V is a replicated element of power-of-two size holding a rotated run of
      ones, neither empty nor full. */
  ghost predicate IsPattern(v: set<nat>, width: nat) {
    exists esize: nat, len: nat, rot: nat ::
      ValidShape(esize, len, rot, width) && v == Pattern(esize, len, rot, width)
  }

  lemma TileLast(elem: set<nat>, esize: nat, last: nat, j: nat)
    requires esize > 0 && elem <= Low(esize)
    ensures (last + 1) * esize == last * esize + esize
    ensures j in Shl(elem, last * esize) <==> last * esize <= j < last * esize + esize && j % esize in elem
  {
    var base := last * esize;
    if base <= j < base + esize {
      ModShift(j - base, last, esize);
    } else if j >= base + esize {
      assert j - base !in elem;
    }
  }

  lemma TileStep(elem: set<nat>, esize: nat, count: nat, j: nat)
    requires count > 0
    ensures j in Tile(elem, esize, count)
            <==> j in Tile(elem, esize, count - 1) || j in Shl(elem, (count - 1) * esize)
  {}

  predicate InTile(elem: set<nat>, esize: nat, count: nat, j: nat)
    requires esize > 0
  {
    j < count * esize && j % esize in elem
  }

  lemma InTileStep(elem: set<nat>, esize: nat, count: nat, j: nat)
    requires esize > 0 && elem <= Low(esize) && count > 0
    ensures InTile(elem, esize, count, j)
            <==> InTile(elem, esize, count - 1, j) || j in Shl(elem, (count - 1) * esize)
  {
    hide Shl, Low;
    TileLast(elem, esize, count - 1, j);
  }

  lemma {:induction false} TileBits(elem: set<nat>, esize: nat, count: nat, j: nat)
    requires esize > 0 && elem <= Low(esize)
    ensures j in Tile(elem, esize, count) <==> InTile(elem, esize, count, j)
  {
    if count > 0 {
      hide Tile, Shl, InTile, Low;
      TileBits(elem, esize, count - 1, j);
      TileStep(elem, esize, count, j);
      InTileStep(elem, esize, count, j);
    }
  }

  lemma ElementSize(x: nat)
    requires 1 <= x < 128
    ensures var e := Pow2(BitLength(x) - 1);
            e in {1, 2, 4, 8, 16, 32, 64} && e <= x < 2 * e
  {
    if x >= 2 {
      ElementSize(x / 2);
    }
  }

  /** The decoder's output, bit by bit: for every encoding that is not
      reserved, a run of s+1 ones rotated right by r. */
  lemma DecodeIsPattern(n: nat, r: nat, s: nat, width: nat)
    requires n <= 1 && r < 64 && s < 64 && (width == 32 || width == 64)
    requires Decode(n, r, s, width).Some?
    ensures var esize := Pow2(BitLength(64 * n + (63 - s)) - 1);
            && ValidShape(esize, s % esize + 1, r % esize, width)
            && Decode(n, r, s, width).value == Pattern(esize, s % esize + 1, r % esize, width)
  {
    hide Tile, Rotated, Pattern, Pow2, BitLength, Low;
    ElementSize(64 * n + (63 - s));
    var esize := Pow2(BitLength(64 * n + (63 - s)) - 1);
    TileIsPattern(esize, s % esize + 1, r % esize, width / esize);
    assert width / esize * esize == width;
  }

  lemma TileIsPattern(esize: nat, len: nat, rot: nat, count: nat)
    requires rot < esize && 1 <= len < esize
    ensures Tile(Rotated(Low(len), rot, esize), esize, count) == Pattern(esize, len, rot, count * esize)
  {
    hide Tile, Rotated, Pattern, Low;
    var elem := Rotated(Low(len), rot, esize);
    forall j: nat
      ensures j in Tile(elem, esize, count) <==> j in Pattern(esize, len, rot, count * esize)
    {
      TilePoint(esize, len, rot, count, j);
    }
  }

  lemma TilePoint(esize: nat, len: nat, rot: nat, count: nat, j: nat)
    requires rot < esize && 1 <= len < esize
    ensures j in Tile(Rotated(Low(len), rot, esize), esize, count) <==> j in Pattern(esize, len, rot, count * esize)
  {
    hide Tile, Rotated, Pattern, Low;
    var elem := Rotated(Low(len), rot, esize);
    RotatedBelow(Low(len), rot, esize);
    TileBits(elem, esize, count, j);
    RotatedBit(len, rot, esize, j);
  }

  lemma RotatedBelow(elem: set<nat>, r: nat, esize: nat)
    requires r <= esize
    ensures Rotated(elem, r, esize) <= Low(esize)
  {}

  lemma RotatedBit(len: nat, rot: nat, esize: nat, j: nat)
    requires rot < esize && 1 <= len < esize
    ensures j % esize in Rotated(Low(len), rot, esize) <==> (j + rot) % esize < len
  {
    var t := j % esize;
    ModPlus(j, rot, esize);
    ModOnce(t + rot, esize);
  }

  // --- Which values are encodable ---

  /** Some encoding of those the enumeration visits decodes to V. */
  ghost predicate IsEncodable(v: set<nat>, width: nat) {
    exists n: nat, r: nat, s: nat ::
      Enumerated(n, r, s, width) && Decode(n, r, s, width) == Some(v)
  }

  predicate Enumerated(n: nat, r: nat, s: nat, width: nat) {
    && n <= (if width == 64 then 1 else 0)
    && r < (if n == 1 then 64 else 32) && s < 64
  }

  /** The encoding of a pattern: N, immr and imms. */
  function Encoding(esize: nat, len: nat, rot: nat): (nat, nat, nat)
    requires esize in {2, 4, 8, 16, 32, 64} && 1 <= len < esize && rot < esize
  {
    if esize == 64 then (1, rot, len - 1) else (0, rot, 64 - 2 * esize + len - 1)
  }

  lemma EncodingFields(esize: nat, len: nat, rot: nat)
    requires esize in {2, 4, 8, 16, 32, 64} && 1 <= len < esize && rot < esize
    ensures var (n, r, s) := Encoding(esize, len, rot);
            && n <= 1 && r < 64 && s < 64 && s % esize == len - 1 && r % esize == rot
            && esize <= 64 * n + (63 - s) < 2 * esize
  {
    var (n, r, s) := Encoding(esize, len, rot);
    ModOnce(rot, esize);
    ModShift(len - 1, if esize == 64 then 0 else 64 / esize - 2, esize);
  }

  lemma PatternIsDecoded(esize: nat, len: nat, rot: nat, width: nat)
    requires ValidShape(esize, len, rot, width) && (width == 32 || width == 64)
    ensures var (n, r, s) := Encoding(esize, len, rot);
            && Enumerated(n, r, s, width)
            && Decode(n, r, s, width) == Some(Pattern(esize, len, rot, width))
  {
    hide Tile, Rotated, Pattern, Pow2, BitLength, Low;
    var (n, r, s) := Encoding(esize, len, rot);
    EncodingFields(esize, len, rot);
    ElementSize(64 * n + (63 - s));
    assert Pow2(BitLength(64 * n + (63 - s)) - 1) == esize;
    DecodeIsPattern(n, r, s, width);
  }

  /** A value is encodable exactly when it is a replicated, rotated run of
      ones. */
  lemma EncodableIffPattern(v: set<nat>, width: nat)
    requires width == 32 || width == 64
    ensures IsEncodable(v, width) <==> IsPattern(v, width)
  {
    hide Decode, Pattern;
    if IsEncodable(v, width) {
      var n: nat, r: nat, s: nat :| Enumerated(n, r, s, width) && Decode(n, r, s, width) == Some(v);
      DecodeIsPattern(n, r, s, width);
    }
    if IsPattern(v, width) {
      var esize: nat, len: nat, rot: nat :|
        ValidShape(esize, len, rot, width) && v == Pattern(esize, len, rot, width);
      PatternIsDecoded(esize, len, rot, width);
    }
  }

  /** Zero and all-ones are never encodable. */
  lemma NeverEmptyNorFull(v: set<nat>, width: nat)
    requires (width == 32 || width == 64) && IsEncodable(v, width)
    ensures v != {} && v != Low(width) && v <= Low(width)
  {
    hide Decode, Pattern, IsEncodable;
    EncodableIffPattern(v, width);
    var esize: nat, len: nat, rot: nat :|
      ValidShape(esize, len, rot, width) && v == Pattern(esize, len, rot, width);
    var one := RunPosition(esize, rot, 0);
    var zero := RunPosition(esize, rot, len);
    assert one in v && zero !in v && zero in Low(width);
  }

  lemma RunPosition(esize: nat, rot: nat, k: nat) returns (j: nat)
    requires rot < esize && k < esize
    ensures j < esize && (j + rot) % esize == k
  {
    j := (esize - rot + k) % esize;
    ModPlus(esize - rot + k, rot, esize);
    ModOnce(esize + k, esize);
  }

  /** The encodable values are closed under NOT at their width. */
  lemma ComplementEncodable(v: set<nat>, width: nat)
    requires (width == 32 || width == 64) && IsEncodable(v, width)
    ensures IsEncodable(Low(width) - v, width)
  {
    hide Decode, Pattern, IsEncodable, Low;
    EncodableIffPattern(v, width);
    var esize: nat, len: nat, rot: nat :|
      ValidShape(esize, len, rot, width) && v == Pattern(esize, len, rot, width);
    var rot' := (rot + esize - len) % esize;
    var w := Pattern(esize, esize - len, rot', width);
    forall j: nat ensures j in Low(width) - v <==> j in w {
      AfterRun(esize, len, rot, j);
    }
    assert Low(width) - v == w;
    assert ValidShape(esize, esize - len, rot', width);
    EncodableIffPattern(Low(width) - v, width);
  }

  /** The zeros of a rotated run are a run too, starting where it ends. */
  lemma WrapRun(t: nat, len: nat, esize: nat)
    requires t < esize && 1 <= len < esize
    ensures (t + esize - len) % esize < esize - len <==> t >= len
  {
    ModOnce(t + esize - len, esize);
  }

  lemma AfterRun(esize: nat, len: nat, rot: nat, j: nat)
    requires rot < esize && 1 <= len < esize
    ensures (j + (rot + esize - len) % esize) % esize < esize - len <==> (j + rot) % esize >= len
  {
    TwoTurns(j, rot, esize - len, esize);
    WrapRun((j + rot) % esize, len, esize);
  }

  lemma TwoTurns(j: int, rot: int, k: int, m: int)
    requires m > 0
    ensures (j + (rot + k) % m) % m == ((j + rot) % m + k) % m
  {
    TurnThenAdd(j, rot + k, m);
    TurnThenAdd(k, j + rot, m);
  }

  lemma TurnThenAdd(j: int, turned: int, m: int)
    requires m > 0
    ensures (j + turned % m) % m == (j + turned) % m
    ensures (turned % m + j) % m == (turned + j) % m
  {
    ModPlus(turned, j, m);
  }

  /** ROR at a width. */
  function Ror(v: set<nat>, amount: nat, width: nat): (s: set<nat>)
    requires amount < width && v <= Low(width)
    ensures forall j: nat :: j in s <==>
              j < width && (if j + amount < width then j + amount else j + amount - width) in v
  {
    (Shr(v, amount) + Shl(v, width - amount)) * Low(width)
  }

  /** The encodable values are closed under rotation at their width. */
  lemma RotationEncodable(v: set<nat>, amount: nat, width: nat)
    requires (width == 32 || width == 64) && IsEncodable(v, width)
    requires amount < width && v <= Low(width)
    ensures IsEncodable(Ror(v, amount, width), width)
  {
    hide Pattern, Ror, IsEncodable, Low;
    EncodableIffPattern(v, width);
    var esize: nat, len: nat, rot: nat :|
      ValidShape(esize, len, rot, width) && v == Pattern(esize, len, rot, width);
    var rot' := RotatedPattern(esize, len, rot, amount, width);
    EncodableIffPattern(Ror(v, amount, width), width);
  }

  /** Rotating a pattern turns its element. */
  lemma RotatedPattern(esize: nat, len: nat, rot: nat, amount: nat, width: nat) returns (rot': nat)
    requires (width == 32 || width == 64) && ValidShape(esize, len, rot, width) && amount < width
    ensures ValidShape(esize, len, rot', width) && Pattern(esize, len, rot, width) <= Low(width)
    ensures Ror(Pattern(esize, len, rot, width), amount, width) == Pattern(esize, len, rot', width)
  {
    hide Pattern, Ror, Low;
    PatternBelow(esize, len, rot, width);
    rot' := (rot + amount) % esize;
    forall j: nat
      ensures j in Ror(Pattern(esize, len, rot, width), amount, width) <==> j in Pattern(esize, len, rot', width)
    {
      RotatedAt(esize, len, rot, amount, width, j);
    }
    assert Ror(Pattern(esize, len, rot, width), amount, width) == Pattern(esize, len, rot', width);
  }

  lemma RotatedAt(esize: nat, len: nat, rot: nat, amount: nat, width: nat, j: nat)
    requires (width == 32 || width == 64) && ValidShape(esize, len, rot, width) && amount < width
    requires Pattern(esize, len, rot, width) <= Low(width)
    ensures j in Ror(Pattern(esize, len, rot, width), amount, width)
            <==> j in Pattern(esize, len, (rot + amount) % esize, width)
  {
    hide Pattern, Ror, Low;
    if j < width {
      WrappedRun(esize, rot, amount, width, j);
    }
  }

  lemma PatternBelow(esize: nat, len: nat, rot: nat, width: nat)
    requires esize > 0
    ensures Pattern(esize, len, rot, width) <= Low(width)
  {
    hide Pattern;
  }

  lemma WrappedRun(esize: nat, rot: nat, amount: nat, width: nat, j: nat)
    requires esize in {2, 4, 8, 16, 32, 64} && (width == 32 || width == 64) && esize <= width
    requires rot < esize && amount < width && j < width
    ensures var from := if j + amount < width then j + amount else j + amount - width;
            (j + (rot + amount) % esize) % esize == (from + rot) % esize
  {
    ModPlus(rot + amount, j, esize);
    if j + amount >= width {
      assert width / esize * esize == width;
      ModMultiple(j + amount - width + rot, width / esize, esize);
    }
  }

  /** The memo table of encodable values. */
  class EncodableMemo {
    var cache: map<(set<nat>, nat), bool>

    ghost predicate Valid()
      reads this
    {
      forall key | key in cache :: cache[key] <==> IsEncodable(key.0, key.1)
    }

    constructor ()
      ensures Valid() && cache == map[]
    {
      cache := map[];
    }

    /** Is V a logical immediate at WIDTH? Answers are remembered. */
    method Encodable(v: set<nat>, width: nat) returns (b: bool)
      requires Valid() && (width == 32 || width == 64)
      modifies this
      ensures Valid()
      ensures b <==> IsPattern(v, width)
      ensures cache == if (v, width) in old(cache) then old(cache) else old(cache)[(v, width) := b]
    {
      if (v, width) !in cache {
        var any := AnyDecodes(v, width);
        cache := cache[(v, width) := any];
      }
      b := cache[(v, width)];
      EncodableIffPattern(v, width);
    }
  }

  method AnyDecodes(v: set<nat>, width: nat) returns (any: bool)
    requires width == 32 || width == 64
    ensures any <==> IsEncodable(v, width)
  {
    hide Decode;
    for n := 0 to if width == 64 then 2 else 1
      invariant forall n': nat, r: nat, s: nat | n' < n && Enumerated(n', r, s, width) ::
                  Decode(n', r, s, width) != Some(v)
    {
      for r := 0 to if n == 1 then 64 else 32
        invariant forall r': nat, s: nat | r' < r && Enumerated(n, r', s, width) ::
                    Decode(n, r', s, width) != Some(v)
      {
        for s := 0 to 64
          invariant forall s': nat | s' < s :: Decode(n, r, s', width) != Some(v)
        {
          var w := DecodeBitmask(n, r, s, width);
          if w == Some(v) {
            assert Enumerated(n, r, s, width);
            return true;
          }
        }
      }
    }
    return false;
  }

  // --- The decoder of tools/rwfuzz.c ---

  lemma PowerBracket(a: nat, b: nat, x: nat)
    requires Pow2(a) <= x < Pow2(a + 1) && Pow2(b) <= x < Pow2(b + 1)
    ensures a == b
  {
    if a < b {
      Pow2Grows(a + 1, b);
    } else if b < a {
      Pow2Grows(b + 1, a);
    }
  }

  lemma LengthBracket(x: nat)
    requires x > 0
    ensures Pow2(BitLength(x) - 1) <= x < Pow2(BitLength(x))
  {
    if x > 1 {
      LengthBracket(x / 2);
    }
  }

  /** The loop for the highest of seven bits, -1 when there is none. */
  method HighestBit(x: nat) returns (len: int)
    requires x < 128
    ensures -1 <= len <= 6
    ensures if len == -1 then x == 0 else Pow2(len) <= x < Pow2(len + 1)
  {
    len := -1;
    var i := 7;
    assert Pow2(3) == 8 && Pow2(7) == 128;
    while i > 0
      invariant 0 <= i <= 7 && len == -1 && x < Pow2(i)
    {
      TopSplit(x, i);
      if x / Pow2(i - 1) % 2 == 1 {
        return i - 1;
      }
      i := i - 1;
    }
  }

  /** The same decoding, its element size found by scanning seven bits down
      and its copies made by stepping the position: agrees with Decode on
      every field value. */
  method BitmaskValue(n: nat, immr: nat, imms: nat, width: nat) returns (ok: bool, out: set<nat>)
    requires n <= 1 && immr < 64 && imms < 64 && (width == 32 || width == 64)
    ensures ok <==> Decode(n, immr, imms, width).Some?
    ensures ok ==> Decode(n, immr, imms, width) == Some(out)
  {
    hide Shl, Shr, Low, Decode, Tile, BitLength, Rotated;
    out := {};
    var x := 64 * n + (63 - imms);
    var len := HighestBit(x);
    DecodeBySize(n, immr, imms, width, len);
    if len < 1 || Pow2(len) > width {
      return false, out;
    }
    var esize := Pow2(len);
    var s, r := imms % esize, immr % esize;
    if s == esize - 1 {
      return false, out;
    }
    var welem := Low(s + 1);
    var rot := if r == 0 then welem else (Shr(welem, r) + Shl(welem, esize - r)) * Low(esize);
    RotateByZero(s, r, esize);
    var v: set<nat> := {};
    var at, k := 0, 0;
    SizeDivides(len, width);
    EmptyTile(rot, esize);
    while at < width
      invariant at == k * esize && k <= width / esize
      invariant v == Tile(rot, esize, k)
      decreases width - at
    {
      NextTile(rot, esize, k, width);
      v := v + Shl(rot, at);
      at, k := at + esize, k + 1;
    }
    assert k == width / esize by {
      CountReached(k, esize, width);
    }
    TileBelow(rot, esize, k);
    out := if width == 64 then v else v * Low(32);
    assert out == v by {
      assert v <= Low(width);
    }
    return true, out;
  }

  lemma RotateByZero(s: nat, r: nat, esize: nat)
    requires s + 1 < esize && r < esize
    ensures Rotated(Low(s + 1), r, esize)
            == if r == 0 then Low(s + 1) else (Shr(Low(s + 1), r) + Shl(Low(s + 1), esize - r)) * Low(esize)
  {
  }

  lemma EmptyTile(elem: set<nat>, esize: nat)
    ensures Tile(elem, esize, 0) == {}
  {
  }

  lemma SizeDivides(len: nat, width: nat)
    requires width == 32 || width == 64
    requires Pow2(len) <= width && len <= 6
    ensures width / Pow2(len) * Pow2(len) == width
  {
    assert Pow2(len) in {1, 2, 4, 8, 16, 32, 64};
  }

  lemma NextTile(elem: set<nat>, esize: nat, k: nat, width: nat)
    requires esize > 0 && k * esize < width && width / esize * esize == width && k <= width / esize
    ensures Tile(elem, esize, k + 1) == Tile(elem, esize, k) + Shl(elem, k * esize)
    ensures k + 1 <= width / esize && (k + 1) * esize == k * esize + esize
  {
    if k == width / esize {
      assert false;
    }
  }

  lemma CountReached(k: nat, esize: nat, width: nat)
    requires esize > 0 && k <= width / esize && k * esize >= width
    requires width / esize * esize == width
    ensures k == width / esize
  {
    if k < width / esize {
      MulMonotone(k + 1, width / esize, esize);
    }
  }

  lemma TileBelow(elem: set<nat>, esize: nat, count: nat)
    requires esize > 0 && elem <= Low(esize)
    ensures Tile(elem, esize, count) <= Low(count * esize)
  {
    forall j | j in Tile(elem, esize, count) ensures j < count * esize {
      TileBits(elem, esize, count, j);
    }
  }

  /** Decode, told the bracket of its element size. */
  lemma DecodeBySize(n: nat, r: nat, s: nat, width: nat, len: int)
    requires n <= 1 && r < 64 && s < 64 && -1 <= len <= 6
    requires width == 32 || width == 64
    requires var x := 64 * n + (63 - s);
             if len == -1 then x == 0 else Pow2(len) <= x < Pow2(len + 1)
    ensures Decode(n, r, s, width) == if len < 1 then None else DecodeElement(Pow2(len), r, s, width)
  {
    hide Tile, Rotated, Low;
    var x := 64 * n + (63 - s);
    if x > 0 {
      LengthBracket(x);
      PowerBracket(BitLength(x) - 1, len, x);
    }
  }
}
