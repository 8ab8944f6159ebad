/** The rolling bloom filter: a two-bit generation tag per cell, spread over pairs of 64-bit words. */
module RollingFilter {
  import opened Arith

  // ----- bits of a word

  type Index = bv6

  predicate Bit(w: bv64, b: Index) {
    (w >> b) & 1 == 1
  }

  const ONES: bv64 := 0xffff_ffff_ffff_ffff

  /** `-(uint64_t)x` for a one-bit `x`. */
  function Spread(x: bool): (w: bv64) {
    if x then ONES else 0
  }

  /** `(uint64_t)x << b` for a one-bit `x`. */
  function Single(x: bool, b: Index): (w: bv64) {
    (if x then 1 else 0) << b
  }

  function And(x: bv64, y: bv64): (w: bv64) {
    x & y
  }

  function Or(x: bv64, y: bv64): (w: bv64) {
    x | y
  }

  function Xor(x: bv64, y: bv64): (w: bv64) {
    x ^ y
  }

  function Not(x: bv64): (w: bv64) {
    !x
  }

  function One(b: Index): (w: bv64) {
    1 << b
  }

  lemma WordAnd(x: bv64, y: bv64, b: Index)
    ensures Bit(x & y, b) == (Bit(x, b) && Bit(y, b))
  {}

  lemma BitAnd(x: bv64, y: bv64, b: Index)
    ensures Bit(And(x, y), b) == (Bit(x, b) && Bit(y, b))
  {
    hide Bit;
    WordAnd(x, y, b);
  }

  lemma WordOr(x: bv64, y: bv64, b: Index)
    ensures Bit(x | y, b) == (Bit(x, b) || Bit(y, b))
  {}

  lemma BitOr(x: bv64, y: bv64, b: Index)
    ensures Bit(Or(x, y), b) == (Bit(x, b) || Bit(y, b))
  {
    hide Bit;
    WordOr(x, y, b);
  }

  lemma WordXor(x: bv64, y: bv64, b: Index)
    ensures Bit(x ^ y, b) == (Bit(x, b) != Bit(y, b))
  {}

  lemma BitXor(x: bv64, y: bv64, b: Index)
    ensures Bit(Xor(x, y), b) == (Bit(x, b) != Bit(y, b))
  {
    hide Bit;
    WordXor(x, y, b);
  }

  lemma BitNot(x: bv64, b: Index)
    ensures Bit(Not(x), b) == !Bit(x, b)
  {}

  lemma BitOne(b: Index, c: Index)
    ensures Bit(One(b), c) == (b == c)
  {}

  lemma BitConstant(b: Index)
    ensures Bit(ONES, b) && !Bit(0, b)
  {}

  lemma BitSpread(x: bool, b: Index)
    ensures Bit(Spread(x), b) == x
  {
    BitConstant(b);
  }

  lemma ShiftedZero(b: Index)
    ensures (0 as bv64) << b == 0
  {}

  lemma BitSingle(x: bool, b: Index, c: Index)
    ensures Bit(Single(x, b), c) == (x && b == c)
  {
    BitOne(b, c);
    BitConstant(c);
    ShiftedZero(b);
    hide Bit;
  }

  function Kept(p1: bv64, p2: bv64, m1: bv64, m2: bv64): (m: bv64) {
    Or(Xor(p1, m1), Xor(p2, m2))
  }

  /** The mask of the wipe keeps a cell exactly when its tag is not the new generation. */
  lemma KeptBit(p1: bv64, p2: bv64, x: bool, y: bool, b: Index)
    ensures Bit(Kept(p1, p2, Spread(x), Spread(y)), b) == (Bit(p1, b) != x || Bit(p2, b) != y)
  {
    hide Bit, Spread, Or, Xor;
    BitOr(Xor(p1, Spread(x)), Xor(p2, Spread(y)), b);
    BitXor(p1, Spread(x), b);
    BitXor(p2, Spread(y), b);
    BitSpread(x, b);
    BitSpread(y, b);
  }

  function Stored(w: bv64, x: bool, b: Index): (r: bv64) {
    Or(And(w, Not(One(b))), Single(x, b))
  }

  lemma StoredBit(w: bv64, x: bool, b: Index, c: Index)
    ensures Bit(Stored(w, x, b), c) == if b == c then x else Bit(w, c)
  {
    hide Bit, Single, And, Or, Not, One;
    BitOr(And(w, Not(One(b))), Single(x, b), c);
    BitAnd(w, Not(One(b)), c);
    BitNot(One(b), c);
    BitOne(b, c);
    BitSingle(x, b, c);
  }

  // ----- tags

  predicate Generation(g: nat) {
    1 <= g <= 3
  }

  predicate Odd(g: nat) {
    g % 2 == 1
  }

  predicate High(g: nat)
    requires g <= 3
  {
    g / 2 == 1
  }

  /** The tag of bit `b` in the pair of words `q`. */
  function Tag(data: seq<bv64>, q: nat, b: Index): (t: nat)
    requires 2 * q + 1 < |data|
    ensures t <= 3
  {
    (if Bit(data[2 * q], b) then 1 else 0) + if Bit(data[2 * q + 1], b) then 2 else 0
  }

  /** The parameters of a filter; `hash` is the tweaked murmur3 of a value under a seed. */
  datatype Config<!V> = Config(limit: nat, n: nat, hash: (V, int) -> bv32)

  datatype State = State(data: seq<bv64>, entries: nat, generation: nat)

  predicate Shape(data: seq<bv64>) {
    |data| % 2 == 0
  }

  function BitAt(h: bv32): (b: Index) {
    (h & 0x3f) as bv6
  }

  function WordAt(h: bv32, length: nat): (pos: nat)
    requires length > 0
    ensures pos < length
  {
    (h >> 6) as nat % length
  }

  function Next(g: nat): (r: nat) {
    if g + 1 == 4 then 1 else g + 1
  }

  function WipePair(data: seq<bv64>, q: nat, g: nat): (r: seq<bv64>)
    requires 2 * q + 1 < |data| && g <= 3
    ensures |r| == |data|
  {
    var m := Kept(data[2 * q], data[2 * q + 1], Spread(Odd(g)), Spread(High(g)));
    data[2 * q := And(data[2 * q], m)][2 * q + 1 := And(data[2 * q + 1], m)]
  }

  /** The first `k` pairs wiped. */
  function Wiped(data: seq<bv64>, g: nat, k: nat): (r: seq<bv64>)
    requires 2 * k <= |data| && g <= 3
    ensures |r| == |data|
  {
    if k == 0 then data else WipePair(Wiped(data, g, k - 1), k - 1, g)
  }

  function Store(data: seq<bv64>, h: bv32, g: nat): (r: seq<bv64>)
    requires Shape(data) && |data| > 0 && g <= 3
    ensures |r| == |data|
  {
    var q, b := WordAt(h, |data|) / 2, BitAt(h);
    data[2 * q := Stored(data[2 * q], Odd(g), b)][2 * q + 1 := Stored(data[2 * q + 1], High(g), b)]
  }

  /** The first `k` cells of `v` tagged `g`. */
  function Marked<V>(c: Config<V>, data: seq<bv64>, v: V, g: nat, k: nat): (r: seq<bv64>)
    requires Shape(data) && |data| > 0 && g <= 3
    ensures |r| == |data|
  {
    if k == 0 then data else Store(Marked(c, data, v, g, k - 1), c.hash(v, k - 1), g)
  }

  function Rotated<V>(c: Config<V>, s: State): (r: State)
    requires Shape(s.data) && Generation(s.generation)
    ensures |r.data| == |s.data| && Generation(r.generation)
  {
    if s.entries != c.limit then s
    else State(Wiped(s.data, Next(s.generation), |s.data| / 2), 0, Next(s.generation))
  }

  function Added<V>(c: Config<V>, s: State, v: V): (r: State)
    requires Shape(s.data) && Generation(s.generation)
    ensures |r.data| == |s.data| && Generation(r.generation)
  {
    if |s.data| == 0 then s else
      var t := Rotated(c, s);
      State(Marked(c, t.data, v, t.generation, c.n), t.entries + 1, t.generation)
  }

  ghost predicate CellSet<V>(c: Config<V>, data: seq<bv64>, v: V, i: int)
    requires Shape(data) && |data| > 0
  {
    var h := c.hash(v, i);
    Tag(data, WordAt(h, |data|) / 2, BitAt(h)) != 0
  }

  ghost predicate Has<V>(c: Config<V>, s: State, v: V)
    requires Shape(s.data)
  {
    |s.data| > 0 && forall i :: 0 <= i < c.n ==> CellSet(c, s.data, v, i)
  }

  // ----- what the steps do to the tags

  lemma WipePairTag(data: seq<bv64>, k: nat, g: nat, q: nat, b: Index)
    requires 2 * k + 1 < |data| && 2 * q + 1 < |data| && Generation(g)
    ensures Tag(WipePair(data, k, g), q, b) ==
            if q == k && Tag(data, q, b) == g then 0 else Tag(data, q, b)
  {
    hide Bit, Kept, Spread, And;
    if q == k {
      var m := Kept(data[2 * q], data[2 * q + 1], Spread(Odd(g)), Spread(High(g)));
      KeptBit(data[2 * q], data[2 * q + 1], Odd(g), High(g), b);
      BitAnd(data[2 * q], m, b);
      BitAnd(data[2 * q + 1], m, b);
    }
  }

  /** The wipe clears the cells of one generation and no others. */
  lemma {:induction false} WipedTag(data: seq<bv64>, g: nat, k: nat, q: nat, b: Index)
    requires 2 * k <= |data| && 2 * q + 1 < |data| && Generation(g)
    ensures Tag(Wiped(data, g, k), q, b) == if q < k && Tag(data, q, b) == g then 0 else Tag(data, q, b)
    decreases k
  {
    hide Tag, WipePair;
    if k > 0 {
      WipedTag(data, g, k - 1, q, b);
      WipePairTag(Wiped(data, g, k - 1), k - 1, g, q, b);
    }
  }

  lemma StoreTag(data: seq<bv64>, h: bv32, g: nat, q: nat, b: Index)
    requires Shape(data) && |data| > 0 && Generation(g) && 2 * q + 1 < |data|
    ensures Tag(Store(data, h, g), q, b) ==
            if q == WordAt(h, |data|) / 2 && b == BitAt(h) then g else Tag(data, q, b)
  {
    hide Bit, Stored, BitAt, WordAt;
    var k, d := WordAt(h, |data|) / 2, BitAt(h);
    if q == k {
      StoredBit(data[2 * q], Odd(g), d, b);
      StoredBit(data[2 * q + 1], High(g), d, b);
    }
  }

  ghost predicate IsCell<V>(c: Config<V>, length: nat, v: V, i: int, q: nat, b: Index)
    requires length > 0
  {
    q == WordAt(c.hash(v, i), length) / 2 && b == BitAt(c.hash(v, i))
  }

  /** Marking a value tags its cells and no others. */
  lemma {:induction false} MarkedTag<V>(c: Config<V>, data: seq<bv64>, v: V, g: nat, k: nat, q: nat, b: Index)
    requires Shape(data) && |data| > 0 && Generation(g) && 2 * q + 1 < |data|
    ensures Tag(Marked(c, data, v, g, k), q, b) ==
            if exists i :: 0 <= i < k && IsCell(c, |data|, v, i, q, b) then g else Tag(data, q, b)
    decreases k
  {
    hide Tag, Store, WordAt, BitAt;
    if k > 0 {
      MarkedTag(c, data, v, g, k - 1, q, b);
      StoreTag(Marked(c, data, v, g, k - 1), c.hash(v, k - 1), g, q, b);
      if IsCell(c, |data|, v, k - 1, q, b) {
      } else if exists i :: 0 <= i < k - 1 && IsCell(c, |data|, v, i, q, b) {
        var i :| 0 <= i < k - 1 && IsCell(c, |data|, v, i, q, b);
        assert i < k;
      }
    }
  }

  // ----- runs

  function Run<V>(c: Config<V>, s: State, vs: seq<V>): (r: State)
    requires Shape(s.data) && Generation(s.generation)
    ensures |r.data| == |s.data| && Generation(r.generation)
  {
    if vs == [] then s else Added(c, Run(c, s, vs[..|vs| - 1]), vs[|vs| - 1])
  }

  predicate Fresh(s: State) {
    && |s.data| > 0 && Shape(s.data) && s.entries == 0 && s.generation == 1
    && forall i :: 0 <= i < |s.data| ==> s.data[i] == 0
  }

  function Previous(g: nat): (r: nat) {
    if g <= 1 then 3 else g - 1
  }

  ghost predicate CellOf<V>(c: Config<V>, length: nat, v: V, q: nat, b: Index)
    requires length > 0
  {
    exists i :: 0 <= i < c.n && IsCell(c, length, v, i, q, b)
  }

  /** The cell is one of a value added at or after position `from`. */
  ghost predicate Touched<V>(c: Config<V>, length: nat, vs: seq<V>, from: int, q: nat, b: Index)
    requires length > 0
  {
    exists j :: 0 <= j < |vs| && from <= j && CellOf(c, length, vs[j], q, b)
  }

  /** The tag of a cell after a run: the generation of the last value that has the cell, unless that
      generation is gone. */
  ghost function TagAfter<V>(c: Config<V>, s: State, vs: seq<V>, q: nat, b: Index): (t: nat)
    requires |s.data| > 0
  {
    var now := |vs| - s.entries;
    if Touched(c, |s.data|, vs, now, q, b) then s.generation
    else if Touched(c, |s.data|, vs, now - c.limit, q, b) then Previous(s.generation)
    else if Touched(c, |s.data|, vs, now - 2 * c.limit, q, b) then Previous(Previous(s.generation))
    else 0
  }

  lemma TouchedMore<V>(c: Config<V>, length: nat, vs: seq<V>, v: V, from: int, q: nat, b: Index)
    requires length > 0 && from <= |vs|
    ensures Touched(c, length, vs + [v], from, q, b) <==> Touched(c, length, vs, from, q, b) || CellOf(c, length, v, q, b)
  {
    hide CellOf;
    var ws := vs + [v];
    if Touched(c, length, vs, from, q, b) {
      var j :| 0 <= j < |vs| && from <= j && CellOf(c, length, vs[j], q, b);
      assert ws[j] == vs[j];
    }
    if CellOf(c, length, v, q, b) {
      assert ws[|vs|] == v;
    }
  }

  lemma NotTouched<V>(c: Config<V>, length: nat, vs: seq<V>, from: int, q: nat, b: Index)
    requires length > 0 && (vs == [] || from >= |vs|)
    ensures !Touched(c, length, vs, from, q, b)
  {}

  lemma TouchedEarlier<V>(c: Config<V>, length: nat, vs: seq<V>, from: int, before: int, q: nat, b: Index)
    requires length > 0 && before <= from && Touched(c, length, vs, from, q, b)
    ensures Touched(c, length, vs, before, q, b)
  {}

  /** Rotating makes every value one generation older and wipes exactly the oldest. */
  lemma RotateAges<V>(c: Config<V>, s: State, vs: seq<V>, q: nat, b: Index)
    requires Shape(s.data) && |s.data| > 0 && Generation(s.generation) && 2 * q + 1 < |s.data|
    requires Tag(s.data, q, b) == TagAfter(c, s, vs, q, b)
    ensures Tag(Rotated(c, s).data, q, b) == TagAfter(c, Rotated(c, s), vs, q, b)
  {
    hide Tag, Wiped, Touched;
    if s.entries == c.limit {
      WipedTag(s.data, Next(s.generation), |s.data| / 2, q, b);
      NotTouched(c, |s.data|, vs, |vs|, q, b);
    }
  }

  /** One more value: its cells carry the current generation, the others age as they should. */
  lemma AddAges<V>(c: Config<V>, s: State, vs: seq<V>, v: V, q: nat, b: Index)
    requires Shape(s.data) && |s.data| > 0 && Generation(s.generation) && 2 * q + 1 < |s.data|
    requires Tag(s.data, q, b) == TagAfter(c, s, vs, q, b)
    ensures Tag(Added(c, s, v).data, q, b) == TagAfter(c, Added(c, s, v), vs + [v], q, b)
  {
    hide Tag, Marked, Touched, Rotated;
    RotateAges(c, s, vs, q, b);
    var t := Rotated(c, s);
    var now, length := |vs| - t.entries, |s.data|;
    MarkedTag(c, t.data, v, t.generation, c.n, q, b);
    TouchedMore(c, length, vs, v, now, q, b);
    TouchedMore(c, length, vs, v, now - c.limit, q, b);
    TouchedMore(c, length, vs, v, now - 2 * c.limit, q, b);
  }

  lemma FreshTag(s: State, q: nat, b: Index)
    requires Fresh(s) && 2 * q + 1 < |s.data|
    ensures Tag(s.data, q, b) == 0
  {
    BitConstant(b);
    hide Bit;
  }

  /** The tag of every cell after any run of a new filter. */
  lemma {:induction false} RunAges<V>(c: Config<V>, s: State, vs: seq<V>, q: nat, b: Index)
    requires Fresh(s) && 2 * q + 1 < |s.data|
    ensures Tag(Run(c, s, vs).data, q, b) == TagAfter(c, Run(c, s, vs), vs, q, b)
  {
    hide Added, Tag, Touched;
    if vs == [] {
      FreshTag(s, q, b);
      NotTouched(c, |s.data|, vs, 0, q, b);
      NotTouched(c, |s.data|, vs, 0 - c.limit, q, b);
      NotTouched(c, |s.data|, vs, 0 - 2 * c.limit, q, b);
    } else {
      var vs', v := vs[..|vs| - 1], vs[|vs| - 1];
      RunAges(c, s, vs', q, b);
      AddAges(c, Run(c, s, vs'), vs', v, q, b);
      assert vs == vs' + [v];
    }
  }

  /** Where the values that are still held begin: two full generations before the one in progress. */
  function Oldest<V>(c: Config<V>, s: State, vs: seq<V>): (k: int)
    requires Fresh(s)
  {
    |vs| - Run(c, s, vs).entries - 2 * c.limit
  }

  /** A cell is set exactly when it is a cell of a value that is still held. */
  lemma SetExactly<V>(c: Config<V>, s: State, vs: seq<V>, q: nat, b: Index)
    requires Fresh(s) && 2 * q + 1 < |s.data|
    ensures Tag(Run(c, s, vs).data, q, b) != 0 <==> Touched(c, |s.data|, vs, Oldest(c, s, vs), q, b)
  {
    hide Tag, Touched, Run;
    RunAges(c, s, vs, q, b);
    var now, length := |vs| - Run(c, s, vs).entries, |s.data|;
    if Touched(c, length, vs, now, q, b) { TouchedEarlier(c, length, vs, now, now - 2 * c.limit, q, b); }
    if Touched(c, length, vs, now - c.limit, q, b) {
      TouchedEarlier(c, length, vs, now - c.limit, now - 2 * c.limit, q, b);
    }
  }

  /** What a filter answers: a value is found exactly when each of its cells is a cell of a value that is
      still held. Values of older generations have left no trace. */
  lemma FoundExactly<V>(c: Config<V>, s: State, vs: seq<V>, v: V)
    requires Fresh(s)
    ensures Has(c, Run(c, s, vs), v) <==> AllHeld(c, |s.data|, vs, Oldest(c, s, vs), v)
  {
    hide Tag, WordAt, BitAt, Run, Touched, Oldest;
    var r, length := Run(c, s, vs), |s.data|;
    forall i | 0 <= i < c.n
      ensures CellSet(c, r.data, v, i) <==> CellHeld(c, length, vs, Oldest(c, s, vs), v, i)
    {
      var h := c.hash(v, i);
      SetExactly(c, s, vs, WordAt(h, length) / 2, BitAt(h));
    }
  }

  /** Cell `i` of `v` is a cell of a value added at or after position `from`. */
  ghost predicate CellHeld<V>(c: Config<V>, length: nat, vs: seq<V>, from: int, v: V, i: int)
    requires length > 0
  {
    Touched(c, length, vs, from, WordAt(c.hash(v, i), length) / 2, BitAt(c.hash(v, i)))
  }

  ghost predicate AllHeld<V>(c: Config<V>, length: nat, vs: seq<V>, from: int, v: V)
    requires length > 0
  {
    forall i :: 0 <= i < c.n ==> CellHeld(c, length, vs, from, v, i)
  }

  /** No recent false negatives: after any run of a filter of non-zero even length, each of the last
      `2 limit` values is found, and so are the ones of the generation in progress on top of them. */
  lemma NoRecentFalseNegatives<V>(c: Config<V>, s: State, vs: seq<V>, j: nat)
    requires Fresh(s) && j < |vs|
    requires |vs| - j <= 2 * c.limit + Run(c, s, vs).entries
    ensures Has(c, Run(c, s, vs), vs[j])
  {
    hide Run, WordAt, BitAt, Has;
    FoundExactly(c, s, vs, vs[j]);
    var length := |s.data|;
    forall i | 0 <= i < c.n ensures CellHeld(c, length, vs, Oldest(c, s, vs), vs[j], i) {
      var h := c.hash(vs[j], i);
      assert IsCell(c, length, vs[j], i, WordAt(h, length) / 2, BitAt(h));
      assert CellOf(c, length, vs[j], WordAt(h, length) / 2, BitAt(h));
    }
  }

  /** A value that shares no cell with the values still held is not found, whenever it was added. */
  lemma OldForgotten<V>(c: Config<V>, s: State, vs: seq<V>, v: V)
    requires Fresh(s) && c.n > 0
    requires forall j, i :: 0 <= j < |vs| && Oldest(c, s, vs) <= j && 0 <= i < c.n ==> Apart(c, |s.data|, vs[j], v, i)
    ensures !Has(c, Run(c, s, vs), v)
  {
    hide Run, WordAt, BitAt, Has, Oldest;
    FoundExactly(c, s, vs, v);
    assert !CellHeld(c, |s.data|, vs, Oldest(c, s, vs), v, 0) by {
      assert forall j :: 0 <= j < |vs| && Oldest(c, s, vs) <= j ==> Apart(c, |s.data|, vs[j], v, 0);
    }
  }

  /** Cell `i` of `v` is not a cell of `w`. */
  ghost predicate Apart<V>(c: Config<V>, length: nat, w: V, v: V, i: int)
    requires length > 0
  {
    !CellOf(c, length, w, WordAt(c.hash(v, i), length) / 2, BitAt(c.hash(v, i)))
  }

  /** How many values the generation in progress holds. */
  lemma {:induction false} RunEntries<V>(c: Config<V>, s: State, vs: seq<V>)
    requires Fresh(s) && vs != []
    ensures 1 <= Run(c, s, vs).entries
    ensures c.limit > 0 ==> Run(c, s, vs).entries == (|vs| - 1) % c.limit + 1
  {
    var vs' := vs[..|vs| - 1];
    if vs' != [] {
      RunEntries(c, s, vs');
      if c.limit > 0 {
        NextEntries(|vs'|, c.limit);
      }
    } else if c.limit > 0 {
      SmallMod(0, c.limit);
    }
  }

  lemma SmallMod(x: nat, m: nat)
    requires x < m
    ensures x % m == x
  {}

  lemma NextEntries(count: nat, limit: nat)
    requires count >= 1 && limit > 0
    ensures var e := (count - 1) % limit + 1; count % limit + 1 == (if e == limit then 0 else e) + 1
  {
    var q, r := (count - 1) / limit, (count - 1) % limit;
    QuotientRest(count - 1, limit, q, r);
    if r + 1 == limit {
      assert (q + 1) * limit == q * limit + limit;
      DivModUnique(count, limit, q + 1, 0);
    } else {
      DivModUnique(count, limit, q, r + 1);
    }
  }

  lemma QuotientRest(n: nat, d: nat, q: nat, r: nat)
    requires d > 0 && q == n / d && r == n % d
    ensures n == q * d + r && 0 <= r < d
  {}

  // ----- the object

  class Filter<!V> {
    var data: array<bv64>
    var entries: nat
    var generation: nat
    var config: Config<V>

    predicate Valid()
      reads this, data
    {
      data.Length % 2 == 0 && 1 <= generation <= 3
    }

    function Contents(): (s: State)
      reads this, data
    {
      State(data[..], entries, generation)
    }

    constructor (c: Config<V>, length: nat)
      requires length % 2 == 0
      ensures Valid() && config == c && fresh(data) && data.Length == length
      ensures length > 0 ==> Fresh(Contents())
    {
      config := c;
      data := new bv64[length](_ => 0);
      entries := 0;
      generation := 1;
    }

    /** A new tweak comes with a new hash function. */
    method Reset(hash: (V, int) -> bv32)
      requires data.Length % 2 == 0
      modifies this, data
      ensures Valid() && data == old(data) && config == old(config).(hash := hash)
      ensures data.Length > 0 ==> Fresh(Contents())
      ensures forall i :: 0 <= i < data.Length ==> data[i] == 0
    {
      var i := 0;
      while i < data.Length
        invariant 0 <= i <= data.Length && data == old(data) && config == old(config)
        invariant forall j :: 0 <= j < i ==> data[j] == 0
      {
        data[i] := 0;
        i := i + 1;
      }
      entries := 0;
      generation := 1;
      config := config.(hash := hash);
    }

    method WipeWords(p: nat, m1: bv64, m2: bv64)
      requires Valid() && p % 2 == 0 && p < data.Length
      requires m1 == Spread(Odd(generation)) && m2 == Spread(High(generation))
      modifies data
      ensures data[..] == WipePair(old(data[..]), p / 2, generation)
    {
      hide And, Kept, Spread;
      var p1, p2 := data[p], data[p + 1];
      var m := Kept(p1, p2, m1, m2);
      data[p] := And(p1, m);
      data[p + 1] := And(p2, m);
    }

    method Wipe()
      requires Valid()
      modifies data
      ensures data[..] == Wiped(old(data[..]), generation, data.Length / 2)
    {
      hide WipePair, Spread;
      var m1, m2 := Spread(Odd(generation)), Spread(High(generation));
      var p := 0;
      ghost var was := data[..];
      while p < data.Length
        invariant 0 <= p <= data.Length && p % 2 == 0
        invariant data[..] == Wiped(was, generation, p / 2)
      {
        WipeWords(p, m1, m2);
        p := p + 2;
      }
    }

    /** A full generation: the oldest one makes room. */
    method Rotate()
      requires Valid()
      modifies this`entries, this`generation, data
      ensures Valid() && Contents() == Rotated(config, old(Contents()))
    {
      hide Wiped;
      if entries == config.limit {
        entries := 0;
        generation := generation + 1;
        if generation == 4 {
          generation := 1;
        }
        Wipe();
      }
    }

    method Mark(v: V)
      requires Valid() && data.Length > 0
      modifies data
      ensures data[..] == Marked(config, old(data[..]), v, generation, config.n)
    {
      hide Store, Marked;
      ghost var was := data[..];
      assert Shape(was);
      var i := 0;
      MarkedStart(config, was, v, generation);
      while i < config.n
        invariant 0 <= i <= config.n && data[..] == Marked(config, was, v, generation, i)
      {
        MarkedNext(config, was, v, generation, i);
        SetCell(config.hash(v, i));
        i := i + 1;
      }
    }

    method Add(v: V)
      requires Valid()
      modifies this`entries, this`generation, data
      ensures Valid() && Contents() == Added(config, old(Contents()), v)
    {
      hide Marked, Rotated;
      if data.Length == 0 {
        return;
      }
      Rotate();
      entries := entries + 1;
      Mark(v);
    }

    method SetCell(hash: bv32)
      requires Valid() && data.Length > 0
      modifies data
      ensures data[..] == Store(old(data[..]), hash, generation)
    {
      hide Stored, BitAt, WordAt;
      var bit, pos := BitAt(hash), WordAt(hash, data.Length);
      var even, odd := pos - pos % 2, pos - pos % 2 + 1;
      assert even == 2 * (pos / 2);
      data[even] := Stored(data[even], Odd(generation), bit);
      data[odd] := Stored(data[odd], High(generation), bit);
    }

    method Contains(v: V) returns (found: bool)
      requires Valid()
      ensures found == Has(config, Contents(), v)
    {
      if data.Length == 0 {
        return false;
      }
      hide Bit, BitAt, WordAt, Or;
      var i := 0;
      while i < config.n
        invariant 0 <= i <= config.n && forall j :: 0 <= j < i ==> CellSet(config, data[..], v, j)
      {
        var hash := config.hash(v, i);
        var bit, pos := BitAt(hash), WordAt(hash, data.Length);
        assert pos - pos % 2 == 2 * (pos / 2);
        var w := Or(data[pos - pos % 2], data[pos - pos % 2 + 1]);
        BitOr(data[pos - pos % 2], data[pos - pos % 2 + 1], bit);
        assert Bit(w, bit) == CellSet(config, data[..], v, i);
        if !Bit(w, bit) {
          return false;
        }
        i := i + 1;
      }
      found := true;
    }
  }

  /** A filter from its creation: after any values have been added, what it answers for any value. */
  method FoundAfter<V(!new)>(c: Config<V>, length: nat, vs: seq<V>, v: V) returns (found: bool, entries: nat)
    requires length % 2 == 0 && length > 0
    ensures c.limit > 0 && vs != [] ==> entries == (|vs| - 1) % c.limit + 1
    ensures found <==> AllHeld(c, length, vs, |vs| - entries - 2 * c.limit, v)
  {
    hide Added, Run, Has, AllHeld;
    var filter := new Filter(c, length);
    ghost var start := filter.Contents();
    var k := 0;
    RunNone(c, start);
    assert vs[..0] == [];
    while k < |vs|
      invariant 0 <= k <= |vs| && filter.Valid() && fresh(filter) && fresh(filter.data) && filter.config == c
      invariant filter.Contents() == Run(c, start, vs[..k])
    {
      RunNext(c, start, vs, k);
      filter.Add(vs[k]);
      k := k + 1;
    }
    assert vs[..k] == vs;
    found := filter.Contains(v);
    entries := filter.entries;
    FoundExactly(c, start, vs, v);
    if vs != [] { RunEntries(c, start, vs); }
  }

  lemma RunNone<V>(c: Config<V>, s: State)
    requires Shape(s.data) && Generation(s.generation)
    ensures Run(c, s, []) == s
  {}

  lemma RunNext<V>(c: Config<V>, s: State, vs: seq<V>, k: nat)
    requires Shape(s.data) && Generation(s.generation) && k < |vs|
    ensures Run(c, s, vs[..k + 1]) == Added(c, Run(c, s, vs[..k]), vs[k])
  {
    hide Added;
    assert vs[..k + 1][..k] == vs[..k];
  }

  lemma MarkedStart<V>(c: Config<V>, data: seq<bv64>, v: V, g: nat)
    requires Shape(data) && |data| > 0 && g <= 3
    ensures Marked(c, data, v, g, 0) == data
  {}

  lemma MarkedNext<V>(c: Config<V>, data: seq<bv64>, v: V, g: nat, k: nat)
    requires Shape(data) && |data| > 0 && g <= 3
    ensures Marked(c, data, v, g, k + 1) == Store(Marked(c, data, v, g, k), c.hash(v, k), g)
  {}
}
