/** Coin selection: coins are pushed into a selector, and filling it moves as many as are needed into
    the transaction, subtracts the fee where asked to, and adds a change output. */
module CoinSelection {
  import opened Fees
  import opened Heap
  import opened Sequences

  datatype Outpoint = Outpoint(hash: nat, index: nat)

  /** A height of 32 bits; negative for an unconfirmed coin. */
  type Height = h: int | -0x8000_0000 <= h <= 0x7fff_ffff

  datatype Utxo = Utxo(prevout: Outpoint, height: Height, value: int, size: nat)

  /** `size` is the estimated size of an input that spends the coin. */
  datatype Coin = Coin(value: int, size: nat, height: Height, spent: bool, safe: bool, watch: bool, coinbase: bool)

  datatype Strategy = All | Random | Oldest | Newest | Lowest | Highest

  datatype Options = Options(strategy: Strategy, rate: int, fee: int, maxfee: int, height: int, depth: int,
                             subfee: bool, subpos: int, round: bool, smart: bool, watch: bool)

  // ----- the comparators

  /** The cast of a height to unsigned. */
  function Unsigned(h: Height): (r: int) {
    if h < 0 then h + 0x1_0000_0000 else h
  }

  predicate Before(s: Strategy, x: Utxo, y: Utxo) {
    match s
    case Oldest => Unsigned(x.height) < Unsigned(y.height)
    case Newest => Unsigned(y.height) < Unsigned(x.height)
    case Lowest => if (x.height < 0) != (y.height < 0) then y.height < 0 else x.value < y.value
    case Highest => if (x.height < 0) != (y.height < 0) then y.height < 0 else y.value < x.value
    case _ => false
  }

  function Order(s: Strategy): (less: Less<Utxo>) {
    (x, y) => Before(s, x, y)
  }

  predicate Heaped(s: Strategy) {
    s != All && s != Random
  }

  /** The comparators are orders, as the heap needs. */
  lemma OrderIsTotal(s: Strategy)
    ensures TotalPreorder(Order(s))
  {
    forall x, y, z ensures Leq(Order(s), x, y) || Leq(Order(s), y, x)
      ensures Leq(Order(s), x, y) && Leq(Order(s), y, z) ==> Leq(Order(s), x, z)
    {}
  }

  // ----- sums

  function Value(us: seq<Utxo>): (v: int) {
    if us == [] then 0 else Value(us[..|us| - 1]) + us[|us| - 1].value
  }

  function Size(us: seq<Utxo>): (n: nat) {
    if us == [] then 0 else Size(us[..|us| - 1]) + us[|us| - 1].size
  }

  lemma SumsSnoc(us: seq<Utxo>, u: Utxo)
    ensures Value(us + [u]) == Value(us) + u.value && Size(us + [u]) == Size(us) + u.size
  {
    assert (us + [u])[..|us|] == us;
  }

  lemma {:induction false} SizeGrows(us: seq<Utxo>, i: nat, j: nat)
    requires i <= j <= |us|
    ensures Size(us[..i]) <= Size(us[..j])
  {
    if i < j {
      SizeGrows(us, i, j - 1);
      assert us[..j][..j - 1] == us[..j - 1];
    }
  }

  function Prevouts(us: seq<Utxo>): (s: seq<Outpoint>)
    ensures |s| == |us| && forall i :: 0 <= i < |us| ==> s[i] == us[i].prevout
  {
    seq(|us|, i requires 0 <= i < |us| => us[i].prevout)
  }

  /** What every coin is worth. */
  type Ledger = Outpoint -> int

  function Price(ledger: Ledger, p: Outpoint): (v: int) {
    ledger(p)
  }

  /** What the outpoints are worth. */
  function Worth(s: seq<Outpoint>, ledger: Ledger): (v: int) {
    if s == [] then 0 else Worth(s[..|s| - 1], ledger) + Price(ledger, s[|s| - 1])
  }

  lemma {:induction false} WorthAdded(preset: seq<Outpoint>, us: seq<Utxo>, ledger: Ledger)
    requires forall i :: 0 <= i < |us| ==> us[i].value == Price(ledger, us[i].prevout)
    ensures Worth(preset + Prevouts(us), ledger) == Worth(preset, ledger) + Value(us)
  {
    if us == [] {
      assert preset + Prevouts(us) == preset;
    } else {
      var n := |us| - 1;
      WorthAdded(preset, us[..n], ledger);
      assert (preset + Prevouts(us))[..|preset| + n] == preset + Prevouts(us[..n]);
    }
  }

  // ----- inputs the transaction came with

  lemma WorthSnoc(s: seq<Outpoint>, p: Outpoint, ledger: Ledger)
    ensures Worth(s + [p], ledger) == Worth(s, ledger) + Price(ledger, p)
  {
    assert (s + [p])[..|s|] == s;
  }

  lemma {:induction false} WorthWithout(s: seq<Outpoint>, i: nat, ledger: Ledger)
    requires i < |s|
    ensures Worth(s, ledger) == Worth(s[..i] + s[i + 1..], ledger) + Price(ledger, s[i])
    decreases |s|
  {
    var n := |s| - 1;
    if i == n {
      assert s[..i] + s[i + 1..] == s[..n];
    } else {
      WorthWithout(s[..n], i, ledger);
      assert s[..n][..i] + s[..n][i + 1..] == s[..i] + s[i + 1..n];
      assert s[..i] + s[i + 1..] == (s[..i] + s[i + 1..n]) + [s[n]];
      WorthSnoc(s[..i] + s[i + 1..n], s[n], ledger);
    }
  }

  /** Different coins, as many as there are inputs and all of them inputs, are the inputs. */
  lemma {:induction false} SameWorth(s: seq<Outpoint>, t: seq<Outpoint>, ledger: Ledger)
    requires Distinct(s) && Distinct(t) && |s| == |t| && forall p :: p in s ==> p in t
    ensures Worth(s, ledger) == Worth(t, ledger)
  {
    hide Worth;
    if s == [] {
      assert s == t;
    } else {
      var s', e := s[..|s| - 1], s[|s| - 1];
      assert s == s' + [e] && e in t;
      var i :| 0 <= i < |t| && t[i] == e;
      var t' := t[..i] + t[i + 1..];
      forall p | p in s' ensures p in t' {
        assert p in s && p in t;
        var j :| 0 <= j < |s'| && s'[j] == p;
        assert s[j] != s[|s'|];
        var k :| 0 <= k < |t| && t[k] == p;
        assert k < i ==> t'[k] == p;
        assert k > i ==> t'[k - 1] == p;
      }
      SameWorth(s', t', ledger);
      WorthWithout(t, i, ledger);
      WorthSnoc(s', e, ledger);
    }
  }

  /** Counting is not enough: one input pushed twice stands in for another. */
  lemma PushedTwice(a: Outpoint, b: Outpoint, ledger: Ledger)
    requires Price(ledger, a) != Price(ledger, b)
    ensures |[a, a]| == |[a, b]| && Worth([a, a], ledger) != Worth([a, b], ledger)
  {
    hide Price;
    WorthSnoc([a], a, ledger);
    WorthSnoc([a], b, ledger);
    assert [a] + [a] == [a, a] && [a] + [b] == [a, b];
  }

  function Elements(s: seq<Outpoint>): (r: set<Outpoint>) {
    set p | p in s
  }

  lemma {:induction false} DistinctElements(s: seq<Outpoint>)
    requires Distinct(s)
    ensures |Elements(s)| == |s|
  {
    if s != [] {
      var t, e := s[..|s| - 1], s[|s| - 1];
      DistinctElements(t);
      assert s == t + [e];
      assert Elements(s) == Elements(t) + {e} && e !in t;
    }
  }

  // ----- the coins pushed so far

  ghost predicate PoolOf(pool: multiset<Utxo>, preset: seq<Outpoint>, ledger: Ledger) {
    forall u :: u in pool ==> u.prevout !in preset && u.value == Price(ledger, u.prevout)
  }

  /** No outpoint was offered twice. */
  ghost predicate Unrepeated(pool: multiset<Utxo>) {
    && (forall u :: u in pool ==> pool[u] == 1)
    && (forall u, v :: u in pool && v in pool && u.prevout == v.prevout ==> u == v)
  }

  /** Every coin of the pool is either taken or left. */
  ghost predicate Parts(added: seq<Utxo>, rest: seq<Utxo>, pool: multiset<Utxo>) {
    multiset(added) + multiset(rest) == pool
  }

  /** The inputs are those the transaction came with, and the coins taken, in order. */
  ghost predicate Listed(ins: seq<Outpoint>, preset: seq<Outpoint>, added: seq<Utxo>) {
    ins == preset + Prevouts(added)
  }

  lemma PoolPush(pool: multiset<Utxo>, preset: seq<Outpoint>, ledger: Ledger, u: Utxo)
    requires PoolOf(pool, preset, ledger) && u.prevout !in preset && u.value == Price(ledger, u.prevout)
    ensures PoolOf(pool + multiset{u}, preset, ledger)
  {}

  /** A coin with an outpoint not offered before keeps it so. */
  lemma OfferedOnce(pool: multiset<Utxo>, u: Utxo)
    requires Unrepeated(pool) && forall v :: v in pool ==> v.prevout != u.prevout
    ensures Unrepeated(pool + multiset{u})
  {}

  lemma TakenValues(pool: multiset<Utxo>, preset: seq<Outpoint>, ledger: Ledger, us: seq<Utxo>, rest: multiset<Utxo>)
    requires PoolOf(pool, preset, ledger) && multiset(us) + rest == pool
    ensures forall i :: 0 <= i < |us| ==> us[i] in pool && us[i].prevout !in preset && us[i].value == Price(ledger, us[i].prevout)
  {
    forall i | 0 <= i < |us| ensures us[i] in pool {
      assert us[i] in multiset(us);
    }
  }

  lemma {:induction false} RepeatCounts<T>(s: seq<T>, i: nat, j: nat)
    requires i < j < |s| && s[i] == s[j]
    ensures multiset(s)[s[i]] >= 2
  {
    assert s == s[..j] + [s[j]] + s[j + 1..];
    assert multiset(s) == multiset(s[..j]) + multiset{s[j]} + multiset(s[j + 1..]);
    assert s[i] == s[..j][i];
  }

  /** Coins offered once each are spent at most once, and none is an input already. */
  lemma TakenDistinct(pool: multiset<Utxo>, preset: seq<Outpoint>, ledger: Ledger, us: seq<Utxo>, rest: multiset<Utxo>)
    requires PoolOf(pool, preset, ledger) && Unrepeated(pool) && multiset(us) + rest == pool && Distinct(preset)
    ensures Distinct(preset + Prevouts(us))
  {
    TakenValues(pool, preset, ledger, us, rest);
    forall i, j | 0 <= i < j < |us| ensures us[i].prevout != us[j].prevout {
      if us[i] == us[j] { RepeatCounts(us, i, j); }
    }
    var s := preset + Prevouts(us);
    forall i, j | 0 <= i < j < |s| ensures s[i] != s[j] {
      if i < |preset| <= j {
        assert s[j] == us[j - |preset|].prevout && s[i] in preset;
      }
    }
  }

  // ----- the order of selection

  /** The coins taken are in order, and nothing left behind comes before one of them. */
  ghost predicate Ahead(s: Strategy, taken: seq<Utxo>, rest: seq<Utxo>) {
    && (forall i, j :: 0 <= i < j < |taken| ==> Leq(Order(s), taken[i], taken[j]))
    && (forall i, y :: 0 <= i < |taken| && y in rest ==> Leq(Order(s), taken[i], y))
  }

  lemma AheadNext(s: Strategy, taken: seq<Utxo>, was: seq<Utxo>, rest: seq<Utxo>, u: Utxo)
    requires Ahead(s, taken, was) && multiset(was) == multiset(rest) + multiset{u}
    requires forall y :: y in was ==> Leq(Order(s), u, y)
    ensures Ahead(s, taken + [u], rest)
  {
    hide Leq;
    forall y | y in rest ensures y in was {
      assert y in multiset(rest);
      assert y in multiset(was);
    }
    assert u in multiset(was);
    assert u in was;
    var ts := taken + [u];
    forall i, j | 0 <= i < j < |ts| ensures Leq(Order(s), ts[i], ts[j]) {
      if j == |taken| { assert Leq(Order(s), taken[i], u); }
    }
    forall i, y | 0 <= i < |ts| && y in rest ensures Leq(Order(s), ts[i], y) {}
  }

  /** What a strategy prefers, in heights and values: `x` may be taken while `y` is left. */
  ghost predicate Preferable(s: Strategy, x: Utxo, y: Utxo) {
    match s
    case Oldest =>
      (x.height < 0 ==> y.height < 0) && ((x.height < 0 <==> y.height < 0) ==> x.height <= y.height)
    case Newest =>
      (y.height < 0 ==> x.height < 0) && ((x.height < 0 <==> y.height < 0) ==> y.height <= x.height)
    case Lowest =>
      (x.height < 0 ==> y.height < 0) && ((x.height < 0 <==> y.height < 0) ==> x.value <= y.value)
    case Highest =>
      (x.height < 0 ==> y.height < 0) && ((x.height < 0 <==> y.height < 0) ==> y.value <= x.value)
    case _ => true
  }

  /** The order of a strategy is what it prefers: oldest and newest go by height, unconfirmed coins last or
      first; lowest and highest go by value, unconfirmed coins last. */
  lemma OrderPrefers(s: Strategy, x: Utxo, y: Utxo)
    ensures Leq(Order(s), x, y) <==> Preferable(s, x, y)
  {}

  lemma AheadPrefers(s: Strategy, taken: seq<Utxo>, rest: seq<Utxo>)
    requires Ahead(s, taken, rest)
    ensures forall i, j :: 0 <= i < j < |taken| ==> Preferable(s, taken[i], taken[j])
    ensures forall x, y :: x in taken && y in rest ==> Preferable(s, x, y)
  {
    hide Order, Leq, Preferable;
    forall i, j | 0 <= i < j < |taken| ensures Preferable(s, taken[i], taken[j]) {
      OrderPrefers(s, taken[i], taken[j]);
    }
    forall x, y | x in taken && y in rest ensures Preferable(s, x, y) {
      OrderPrefers(s, x, y);
      var i :| 0 <= i < |taken| && taken[i] == x;
      assert Leq(Order(s), taken[i], y);
    }
  }

  function ValueAt(base: int, us: seq<Utxo>, j: int): (v: int)
    requires 0 <= j <= |us|
  {
    base + Value(us[..j])
  }

  function SizeAt(base: nat, us: seq<Utxo>, j: int): (n: nat)
    requires 0 <= j <= |us|
  {
    base + Size(us[..j])
  }

  /** No prefix from the `k`-th on, short of all of them, is worth what is needed. */
  ghost predicate Short(base: int, us: seq<Utxo>, k: nat, needed: int) {
    forall j :: k <= j < |us| ==> ValueAt(base, us, j) < needed
  }

  lemma ShortNext(base: int, us: seq<Utxo>, k: nat, needed: int, u: Utxo)
    requires k <= |us| && Short(base, us, k, needed) && base + Value(us) < needed
    ensures Short(base, us + [u], k, needed)
  {
    var vs := us + [u];
    forall j | k <= j < |vs| ensures ValueAt(base, vs, j) < needed {
      assert vs[..j] == us[..j];
      if j == |us| { assert us[..j] == us; } else { assert ValueAt(base, us, j) < needed; }
    }
  }

  function Needed(subtract: bool, outval: int, fee: int): (v: int) {
    if subtract then outval else outval + fee
  }

  /** No prefix short of all of them covers the fee of its own size. */
  ghost predicate ShortAtRate(base: int, size: nat, us: seq<Utxo>, k: nat, subtract: bool, outval: int, round: bool, rate: nat)
    requires k <= |us|
  {
    forall j :: 0 <= j < k ==> ValueAt(base, us, j) < Needed(subtract, outval, FeeAt(round, rate, SizeAt(size, us, j)))
  }

  /** Coins taken at one fee were also short of the fee of their own size, which is not smaller. */
  lemma ShortAtRateNext(base: int, size: nat, us: seq<Utxo>, k: nat, subtract: bool, outval: int, round: bool, rate: nat)
    requires k <= |us| && ShortAtRate(base, size, us, k, subtract, outval, round, rate)
    requires Short(base, us, k, Needed(subtract, outval, FeeAt(round, rate, SizeAt(size, us, k))))
    ensures ShortAtRate(base, size, us, |us|, subtract, outval, round, rate)
  {
    hide FeeAt;
    forall j | 0 <= j < |us| ensures ValueAt(base, us, j) < Needed(subtract, outval, FeeAt(round, rate, SizeAt(size, us, j))) {
      if k <= j {
        SizeGrows(us, k, j);
        FeeMonotone(round, rate, SizeAt(size, us, k), SizeAt(size, us, j));
        assert ValueAt(base, us, j) < Needed(subtract, outval, FeeAt(round, rate, SizeAt(size, us, k)));
      }
    }
  }

  /** ... and of the final fee. */
  lemma ShortAtFinalFee(base: int, size: nat, us: seq<Utxo>, subtract: bool, outval: int, round: bool, rate: nat)
    requires ShortAtRate(base, size, us, |us|, subtract, outval, round, rate)
    ensures Short(base, us, 0, Needed(subtract, outval, FeeAt(round, rate, SizeAt(size, us, |us|))))
  {
    hide FeeAt;
    forall j | 0 <= j < |us| ensures ValueAt(base, us, j) < Needed(subtract, outval, FeeAt(round, rate, SizeAt(size, us, |us|))) {
      SizeGrows(us, j, |us|);
      FeeMonotone(round, rate, SizeAt(size, us, j), SizeAt(size, us, |us|));
    }
  }

  lemma ShortAtRatePrefix(base: int, size: nat, us: seq<Utxo>, vs: seq<Utxo>, subtract: bool, outval: int, round: bool, rate: nat)
    requires |us| <= |vs| && vs[..|us|] == us && ShortAtRate(base, size, us, |us|, subtract, outval, round, rate)
    ensures ShortAtRate(base, size, vs, |us|, subtract, outval, round, rate)
  {
    hide FeeAt;
    forall j | 0 <= j < |us| ensures ValueAt(base, vs, j) < Needed(subtract, outval, FeeAt(round, rate, SizeAt(size, vs, j))) {
      assert vs[..j] == us[..j];
      assert ValueAt(base, us, j) < Needed(subtract, outval, FeeAt(round, rate, SizeAt(size, us, j)));
    }
  }

  // ----- the running totals

  /** `log` lists the coins pushed for inputs the transaction came with. */
  ghost predicate Sums(log: seq<Outpoint>, ledger: Ledger, added: seq<Utxo>,
                       inpval: int, size: nat, baseSize: nat, resolved: nat) {
    && inpval == Worth(log, ledger) + Value(added)
    && size == baseSize + Size(added) && resolved == |log|
  }

  lemma SumsResolve(log: seq<Outpoint>, ledger: Ledger, added: seq<Utxo>,
                    inpval: int, size: nat, baseSize: nat, resolved: nat, p: Outpoint, n: nat)
    requires Sums(log, ledger, added, inpval, size, baseSize, resolved)
    ensures Sums(log + [p], ledger, added, inpval + Price(ledger, p), size + n, baseSize + n, resolved + 1)
  {
    hide Worth, Value, Size;
    WorthSnoc(log, p, ledger);
  }

  lemma SumsAdd(log: seq<Outpoint>, ledger: Ledger, added: seq<Utxo>,
                inpval: int, size: nat, baseSize: nat, resolved: nat, u: Utxo)
    requires Sums(log, ledger, added, inpval, size, baseSize, resolved)
    ensures Sums(log, ledger, added + [u], inpval + u.value, size + u.size, baseSize, resolved)
  {
    hide Worth, Value, Size;
    SumsSnoc(added, u);
  }

  ghost predicate AllIn(log: seq<Outpoint>, preset: seq<Outpoint>) {
    forall p :: p in log ==> p in preset
  }

  lemma AllInNext(log: seq<Outpoint>, preset: seq<Outpoint>, p: Outpoint)
    requires AllIn(log, preset) && p in preset
    ensures AllIn(log + [p], preset)
  {}

  // ----- spendability

  predicate Spendable(opt: Options, coin: Coin) {
    && !coin.spent
    && !(opt.smart && !coin.safe && coin.height == -1)
    && (opt.watch || !coin.watch)
    && !(opt.height >= 0 && coin.coinbase && (coin.height == -1 || opt.height + 1 < coin.height + 100 + 20))
    && !(opt.depth >= 0 && opt.height >= 0 && Depth(opt, coin) < opt.depth)
  }

  function Depth(opt: Options, coin: Coin): (d: int) {
    if coin.height >= 0 && opt.height >= coin.height then opt.height - coin.height + 1 else 0
  }

  /** At least `k` blocks hold the coin or follow it, up to the tip. */
  predicate Confirmed(opt: Options, coin: Coin, k: int) {
    k <= 0 || (coin.height >= 0 && coin.height + k <= opt.height + 1)
  }

  /** What may be spent: an unspent coin, watched only where that is asked, with a confirmation if it is not
      safe where that matters; and, where the tip is known, with 120 confirmations if a coinbase made it,
      and as many as asked for. */
  lemma SpendableExactly(opt: Options, coin: Coin)
    requires coin.height >= -1
    ensures Spendable(opt, coin) <==>
            && !coin.spent && (coin.watch ==> opt.watch) && (opt.smart && !coin.safe ==> coin.height >= 0)
            && (opt.height >= 0 ==> (coin.coinbase ==> Confirmed(opt, coin, 120)) && Confirmed(opt, coin, opt.depth))
  {}

  // ----- the object

  class Selector {
    const opt: Options
    const subtract: bool
    const tx: Tx<Outpoint>
    const utxos: Vector<Utxo>
    const inputs: set<Outpoint>
    var inpval: int
    const outval: int
    var size: nat
    var resolved: nat

    ghost const ledger: Ledger
    ghost const preset: seq<Outpoint>
    ghost var baseSize: nat
    ghost var log: seq<Outpoint>
    ghost var pool: multiset<Utxo>
    ghost var added: seq<Utxo>

    ghost function Base(): (v: int)
      reads this
    {
      Worth(log, ledger)
    }

    /** By how much the coins pushed for inputs fall short of the inputs themselves. */
    ghost function Miscount(): (v: int)
      reads this
    {
      Worth(preset, ledger) - Worth(log, ledger)
    }

    /** The running totals agree with the transaction and the coins seen. */
    ghost predicate Books()
      reads this, tx
    {
      && subtract == (opt.subfee || opt.subpos >= 0)
      && Distinct(preset) && inputs == Elements(preset) && AllIn(log, preset)
      && Listed(tx.inputs, preset, added)
      && Sums(log, ledger, added, inpval, size, baseSize, resolved)
    }

    ghost predicate Pooled()
      reads this`added, this`pool, utxos
    {
      Parts(added, utxos.items, pool) && PoolOf(pool, preset, ledger)
    }

    ghost predicate InOrder()
      reads this`added, utxos
    {
      Heaped(opt.strategy) ==> IsHeap(Order(opt.strategy), utxos.items) && Ahead(opt.strategy, added, utxos.items)
    }

    ghost predicate Valid()
      reads this, tx, utxos
    {
      Books() && Pooled() && InOrder()
    }

    predicate Full(fee: int)
      reads this
    {
      inpval >= Needed(subtract, outval, fee)
    }

    constructor (o: Options, t: Tx<Outpoint>, ghost l: Ledger, outputsSize: nat)
      requires Distinct(t.inputs)
      ensures Valid() && opt == o && tx == t && ledger == l && fresh(utxos)
      ensures added == [] && log == [] && pool == multiset{} && preset == t.inputs && outval == Total(t.outputs)
      ensures size == baseSize == 12 + outputsSize + 34
    {
      opt, tx, subtract := o, t, o.subfee || o.subpos >= 0;
      inpval, outval, size, resolved := 0, Total(t.outputs), 12 + outputsSize + 34, 0;
      utxos := new Vector<Utxo>();
      inputs := set p | p in t.inputs;
      ledger, preset := l, t.inputs;
      baseSize, log, pool, added := 12 + outputsSize + 34, [], multiset{}, [];
      new;
      assert preset + Prevouts([]) == preset;
    }

    /** `btc_selector_push`; `pick` is the random index. A coin is worth what its outpoint holds. */
    method Push(prevout: Outpoint, coin: Coin, pick: nat) returns (ok: bool)
      requires Valid() && added == [] && coin.value == Price(ledger, prevout)
      requires pick < |utxos.items| || |utxos.items| <= 1
      modifies this, utxos
      ensures Valid() && added == [] && ok == (prevout in inputs || Spendable(opt, coin))
      ensures log == if prevout in inputs then old(log) + [prevout] else old(log)
      ensures baseSize == old(baseSize) + if prevout in inputs then coin.size else 0
      ensures pool == if ok && prevout !in inputs then old(pool) + multiset{Utxo(prevout, coin.height, coin.value, coin.size)} else old(pool)
    {
      hide Books, Pooled, InOrder, Spendable;
      if prevout in inputs {
        Resolve(prevout, coin);
        return true;
      }
      if !Spendable(opt, coin) {
        return false;
      }
      Offer(Utxo(prevout, coin.height, coin.value, coin.size), pick);
      ok := true;
    }

    /** The coin of an input the transaction came with. */
    method Resolve(prevout: Outpoint, coin: Coin)
      requires Valid() && prevout in inputs && coin.value == Price(ledger, prevout)
      modifies this`inpval, this`size, this`baseSize, this`resolved, this`log
      ensures Valid() && log == old(log) + [prevout] && baseSize == old(baseSize) + coin.size
    {
      hide PoolOf, InOrder, Sums, Distinct, Elements, Listed, Parts, Price, AllIn;
      InElements(preset, prevout);
      SumsResolve(log, ledger, added, inpval, size, baseSize, resolved, prevout, coin.size);
      AllInNext(log, preset, prevout);
      inpval := inpval + coin.value;
      size := size + coin.size;
      baseSize := baseSize + coin.size;
      resolved := resolved + 1;
      log := log + [prevout];
    }

    /** A coin to choose from. */
    method Offer(u: Utxo, pick: nat)
      requires Valid() && added == [] && u.prevout !in inputs && u.value == Price(ledger, u.prevout)
      requires pick < |utxos.items| || |utxos.items| <= 1
      modifies this`pool, utxos
      ensures Valid() && pool == old(pool) + multiset{u}
    {
      hide PoolOf, IsHeap, Ahead, Sums, Distinct, Elements, Order, Listed, Price, AllIn;
      InElements(preset, u.prevout);
      PoolPush(pool, preset, ledger, u);
      Enqueue(u, pick);
      AheadStart(opt.strategy, utxos.items);
      pool := pool + multiset{u};
    }

    method Enqueue(u: Utxo, pick: nat)
      requires Heaped(opt.strategy) ==> IsHeap(Order(opt.strategy), utxos.items)
      requires pick < |utxos.items| || |utxos.items| <= 1
      modifies utxos
      ensures multiset(utxos.items) == multiset(old(utxos.items)) + multiset{u}
      ensures Heaped(opt.strategy) ==> IsHeap(Order(opt.strategy), utxos.items)
    {
      hide IsHeap, Leq, Order;
      if Heaped(opt.strategy) {
        OrderIsTotal(opt.strategy);
        utxos.Insert(u, Order(opt.strategy));
      } else if opt.strategy == Random && |utxos.items| > 1 {
        ReplaceLast(utxos.items, pick, u);
        utxos.items := utxos.items[pick := u] + [utxos.items[pick]];
      } else {
        utxos.items := utxos.items + [u];
      }
    }

    /** `btc_selector_shift`. */
    method Shift() returns (u: Utxo)
      requires Valid() && |utxos.items| > 0
      modifies utxos
      ensures multiset(old(utxos.items)) == multiset(utxos.items) + multiset{u}
      ensures Heaped(opt.strategy) ==>
        IsHeap(Order(opt.strategy), utxos.items) && Ahead(opt.strategy, added + [u], utxos.items)
    {
      hide IsHeap, Leq, Ahead, PoolOf, Order;
      if Heaped(opt.strategy) {
        OrderIsTotal(opt.strategy);
        ghost var was := utxos.items;
        u := utxos.Shift(Order(opt.strategy));
        AheadNext(opt.strategy, added, was, utxos.items, u);
      } else {
        var n := |utxos.items| - 1;
        PopMultiset(utxos.items);
        u := utxos.items[n];
        utxos.items := utxos.items[..n];
      }
    }

    predicate ShouldFund(fee: int)
      reads this, utxos
    {
      utxos.items != [] && (opt.strategy == All || !Full(fee))
    }

    /** `btc_selector_fund`: takes coins while they are needed, and no longer. */
    method Fund(fee: int)
      requires Valid()
      modifies this`inpval, this`size, this`added, tx`inputs, utxos
      ensures Valid() && !ShouldFund(fee)
      ensures |old(added)| <= |added| && added[..|old(added)|] == old(added)
      ensures opt.strategy != All ==> Short(Base(), added, |old(added)|, Needed(subtract, outval, fee))
      ensures |utxos.items| <= |old(utxos.items)|
      ensures old(ShouldFund(fee)) ==> |utxos.items| < |old(utxos.items)|
    {
      hide Books, Pooled, InOrder, Value, Size, Short;
      ghost var k := |added|;
      ShortStart(Base(), added, Needed(subtract, outval, fee));
      while ShouldFund(fee)
        invariant Valid() && k <= |added| && added[..k] == old(added)
        invariant opt.strategy != All ==> Short(Base(), added, k, Needed(subtract, outval, fee))
        invariant |utxos.items| <= |old(utxos.items)| && (added != old(added) ==> |utxos.items| < |old(utxos.items)|)
        invariant added == old(added) ==> inpval == old(inpval) && utxos.items == old(utxos.items)
        decreases |utxos.items|
      {
        ghost var had := added;
        BooksFacts();
        AddCoin();
        ghost var u := added[|had|];
        assert added == had + [u] && added[..k] == had[..k];
        if opt.strategy != All {
          ShortNext(Base(), had, k, Needed(subtract, outval, fee), u);
        }
      }
    }

    lemma BooksFacts()
      requires Books()
      ensures inpval == Base() + Value(added)
    {}

    /** One coin moves from the queue to the transaction. */
    method AddCoin()
      requires Valid() && utxos.items != []
      modifies this`inpval, this`size, this`added, tx`inputs, utxos
      ensures Valid() && |utxos.items| == |old(utxos.items)| - 1
      ensures |added| == |old(added)| + 1 && added[..|old(added)|] == old(added)
    {
      hide PoolOf, IsHeap, Ahead, Leq, Sums, Listed, Parts, Distinct, Elements, Order, AllIn;
      ghost var was := utxos.items;
      var u := Shift();
      MultisetSize(was, utxos.items, u);
      SumsAdd(log, ledger, added, inpval, size, baseSize, resolved, u);
      ListedNext(tx.inputs, preset, added, u);
      MoveOne(added, was, utxos.items, u, pool);
      tx.inputs := tx.inputs + [u.prevout];
      inpval := inpval + u.value;
      size := size + u.size;
      added := added + [u];
    }

    /** `btc_selector_by_fee`. */
    method ByFee(fee: int) returns (change: int)
      requires Valid() && added == []
      modifies this`inpval, this`size, this`added, tx`inputs, utxos
      ensures Valid()
      ensures change == if Full(fee) then inpval - Needed(subtract, outval, fee) else -1
      ensures change == -1 ==> utxos.items == []
      ensures opt.strategy == All ==> utxos.items == []
      ensures opt.strategy != All ==> Short(Base(), added, 0, Needed(subtract, outval, fee))
    {
      hide Books, Pooled, InOrder, Short;
      Fund(fee);
      if !Full(fee) {
        return -1;
      }
      change := inpval - Needed(subtract, outval, fee);
    }

    /** `btc_selector_by_rate`: the fee grows with the size, the size with the coins taken; every round
        takes at least one, so there is a last one. */
    method ByRate(rate: nat) returns (change: int)
      requires Valid() && added == []
      modifies this`inpval, this`size, this`added, tx`inputs, utxos
      ensures Valid()
      ensures change >= -1 && (change >= 0 ==> Full(FeeAt(opt.round, rate, size)))
      ensures change >= 0 ==> change == inpval - Needed(subtract, outval, FeeAt(opt.round, rate, size))
      ensures change == -1 ==> (!Full(FeeAt(opt.round, rate, size)) && utxos.items == [])
                               || (opt.maxfee > 0 && FeeAt(opt.round, rate, size) > opt.maxfee)
      ensures opt.strategy == All ==> utxos.items == []
      ensures opt.strategy != All ==>
        && ShortAtRate(Base(), baseSize, added, |added|, subtract, outval, opt.round, rate)
        && Short(Base(), added, 0, Needed(subtract, outval, FeeAt(opt.round, rate, size)))
    {
      hide Books, Pooled, InOrder, Short, FeeAt, ShortAtRate;
      if opt.strategy == All {
        Fund(0);
      } else {
        StartAtRate(Base(), baseSize, subtract, outval, opt.round, rate);
        while utxos.items != []
          invariant Valid() && ShortAtRate(Base(), baseSize, added, |added|, subtract, outval, opt.round, rate)
          decreases |utxos.items|
        {
          var fee := FeeAt(opt.round, rate, size);
          if Full(fee) {
            break;
          }
          ghost var k := |added|;
          ghost var was := added;
          SizeNow();
          Fund(fee);
          ShortAtRatePrefix(Base(), baseSize, was, added, subtract, outval, opt.round, rate);
          assert was[..k] == was && added[..k] == was;
          ShortAtRateNext(Base(), baseSize, added, k, subtract, outval, opt.round, rate);
        }
        ShortAtFinalFee(Base(), baseSize, added, subtract, outval, opt.round, rate);
        SizeNow();
      }
      var fee := FeeAt(opt.round, rate, size);
      if !Full(fee) {
        return -1;
      }
      if opt.maxfee > 0 && fee > opt.maxfee {
        return -1;
      }
      change := inpval - Needed(subtract, outval, fee);
    }

    lemma SizeNow()
      requires Valid()
      ensures size == SizeAt(baseSize, added, |added|) && added[..|added|] == added
    {
      assert added[..|added|] == added;
    }

    ghost function ChosenFee(): (fee: nat)
      requires opt.fee >= 0 || opt.rate >= 0
      reads this
    {
      if opt.fee >= 0 then ClampFee(opt.fee) else FeeAt(opt.round, opt.rate, size)
    }

    /** `btc_selector_fill`. On success the inputs exceed the outputs by the chosen fee, or by the fee and a
        change too small to pay out, up to the miscount of the inputs, which is zero when no input was
        pushed twice; with no coin pushed twice the inputs are different from each other; with a heap
        strategy no coin left is preferable to one taken, in heights and values, and no shorter prefix of the
        coins taken covers the fee. */
    method Fill(script: Script) returns (ok: bool)
      requires Valid() && added == [] && outval == Total(tx.outputs)
      modifies this`inpval, this`size, this`added, tx, utxos
      ensures ok ==> opt.fee >= 0 || opt.rate > 0
      ensures !ok ==> resolved != |inputs| || Unfunded() || !Chargeable(opt, ChosenFee(), old(tx.outputs))
      ensures ok ==> tx.inputs == preset + Prevouts(added)
      ensures ok && Unrepeated(pool) ==> Distinct(tx.inputs)
      ensures ok && Distinct(log) ==> Miscount() == 0
      ensures ok ==> Filled(opt, ChosenFee(), old(tx.outputs), inpval - Needed(subtract, outval, ChosenFee()), script, tx.outputs)
      ensures ok ==> (var paid := Worth(tx.inputs, ledger) - Miscount() - Total(tx.outputs);
                      paid == ChosenFee() || ChosenFee() < paid < ChosenFee() + DustThreshold(script))
      ensures ok && Heaped(opt.strategy) ==> Ahead(opt.strategy, added, utxos.items)
      ensures ok && opt.strategy in {Lowest, Highest} ==> forall x, y :: x in added && y in utxos.items ==>
                && (x.height < 0 ==> y.height < 0)
                && ((x.height < 0 <==> y.height < 0) ==> if opt.strategy == Lowest then x.value <= y.value else y.value <= x.value)
      ensures ok && opt.strategy == Oldest ==> forall x, y :: x in added && y in utxos.items ==>
                (x.height < 0 ==> y.height < 0) && ((x.height < 0 <==> y.height < 0) ==> x.height <= y.height)
      ensures ok && opt.strategy == Newest ==> forall x, y :: x in added && y in utxos.items ==>
                (y.height < 0 ==> x.height < 0) && ((x.height < 0 <==> y.height < 0) ==> y.height <= x.height)
      ensures ok && opt.strategy != All ==> Short(Base(), added, 0, Needed(subtract, outval, ChosenFee()))
      ensures ok ==> Full(ChosenFee()) && multiset(added) + multiset(utxos.items) == pool
      ensures ok && opt.strategy == All ==> utxos.items == []
    {
      hide Books, Pooled, InOrder, Ahead, Short, ShortAtRate, Prevouts, FeeAt, Worth, DustThreshold, Total, Filled, Chargeable, Unrepeated, Distinct, Miscount;
      if resolved != |inputs| {
        return false;
      }
      var change, fee := Select();
      if change < 0 {
        return false;
      }
      InputsKnown();
      ghost var outs := tx.outputs;
      ok := Settle(fee, change, script);
      if ok {
        FilledTotal(opt, fee, outs, change, script, tx.outputs);
        if Heaped(opt.strategy) { AheadPrefers(opt.strategy, added, utxos.items); }
      }
    }

    /** Why selection fails: no fee asked for, all coins together too little, or the fee above its limit. */
    ghost predicate Unfunded()
      reads this, utxos
    {
      || (opt.fee < 0 && opt.rate <= 0)
      || (!Full(ChosenFee()) && utxos.items == [])
      || (opt.fee < 0 && 0 < opt.maxfee < ChosenFee())
    }

    /** Coins are chosen by the fee or by the rate. */
    method Select() returns (change: int, fee: nat)
      requires Valid() && added == []
      modifies this`inpval, this`size, this`added, tx`inputs, utxos
      ensures Valid()
      ensures change >= 0 ==>
        && (opt.fee >= 0 || opt.rate > 0) && fee == ChosenFee()
        && Full(fee) && change == inpval - Needed(subtract, outval, fee)
        && (opt.strategy == All ==> utxos.items == [])
        && (opt.strategy != All ==> Short(Base(), added, 0, Needed(subtract, outval, fee)))
      ensures change < 0 ==> Unfunded()
    {
      hide Books, Pooled, InOrder, Short, ShortAtRate, FeeAt;
      change, fee := -1, 0;
      if opt.fee >= 0 {
        fee := ClampFee(opt.fee);
        change := ByFee(fee);
      } else if opt.rate > 0 {
        change := ByRate(opt.rate);
        fee := FeeAt(opt.round, opt.rate, size);
      }
    }

    /** With as many coins pushed for inputs as there are inputs, the total is what the inputs are worth but
        for the miscount. */
    lemma InputsKnown()
      requires Valid() && resolved == |inputs|
      ensures tx.inputs == preset + Prevouts(added) && inpval == Worth(tx.inputs, ledger) - Miscount()
      ensures Distinct(log) ==> Miscount() == 0
      ensures Unrepeated(pool) ==> Distinct(tx.inputs)
      ensures multiset(added) + multiset(utxos.items) == pool && subtract == (opt.subfee || opt.subpos >= 0)
      ensures Heaped(opt.strategy) ==> Ahead(opt.strategy, added, utxos.items)
    {
      hide PoolOf, IsHeap, Ahead, Leq, Value, Size, Prevouts, Worth, Elements, Distinct, Unrepeated;
      DistinctElements(preset);
      if Distinct(log) { SameWorth(log, preset, ledger); }
      if Unrepeated(pool) { TakenDistinct(pool, preset, ledger, added, multiset(utxos.items)); }
      TakenValues(pool, preset, ledger, added, multiset(utxos.items));
      WorthAdded(preset, added, ledger);
    }

    /** The fee is subtracted where asked, and a change output is added unless it would be dust. */
    method Settle(fee: nat, change: int, script: Script) returns (ok: bool)
      modifies tx`outputs
      ensures ok ==> Filled(opt, fee, old(tx.outputs), change, script, tx.outputs)
      ensures !ok ==> !Chargeable(opt, fee, old(tx.outputs))
    {
      hide Charged, Chargeable, DustThreshold;
      ghost var outs := tx.outputs;
      ok := Subtract(fee);
      if !ok {
        return;
      }
      ghost var mid := tx.outputs;
      var output := Output(change, script);
      if output.value >= DustThreshold(script) {
        tx.outputs := tx.outputs + [output];
      }
      assert Charged(opt, fee, outs, mid);
    }

    /** The fee is taken from the outputs as asked: from all evenly, from one, or not at all. */
    method Subtract(fee: nat) returns (ok: bool)
      modifies tx`outputs
      ensures ok ==> Charged(opt, fee, old(tx.outputs), tx.outputs)
      ensures !ok ==> !Chargeable(opt, fee, old(tx.outputs))
    {
      hide CanSubtract, Subtracted, DustThreshold;
      ok := true;
      if opt.subfee {
        ok := tx.SubtractEvenly(fee);
      } else if opt.subpos >= 0 {
        ok := tx.SubtractAt(opt.subpos, fee);
      }
    }
  }

  ghost predicate Chargeable(opt: Options, fee: nat, outs: seq<Output>) {
    if opt.subfee then CanSubtract(outs, fee)
    else opt.subpos >= 0 ==> opt.subpos < |outs| && outs[opt.subpos].value >= fee + DustThreshold(outs[opt.subpos].script)
  }

  /** What the fee leaves of the outputs. */
  ghost predicate Charged(opt: Options, fee: nat, outs: seq<Output>, after: seq<Output>) {
    && Chargeable(opt, fee, outs)
    && if opt.subfee then Subtracted(outs, fee / Payers(outs), fee % Payers(outs), after)
       else if opt.subpos >= 0 then after == outs[opt.subpos := Lower(outs[opt.subpos], fee)]
       else after == outs
  }

  lemma ChargedTotal(opt: Options, fee: nat, outs: seq<Output>, after: seq<Output>)
    requires Charged(opt, fee, outs, after)
    ensures Total(after) == Total(outs) - if opt.subfee || opt.subpos >= 0 then fee else 0
  {
    hide CanSubtract, Subtracted, DustThreshold, Total;
    if opt.subfee {
      SubtractsExactly(outs, fee, after);
    } else if opt.subpos >= 0 {
      TotalUpdate(outs, opt.subpos, Lower(outs[opt.subpos], fee));
    }
  }

  /** The outputs after filling: charged, with a change output unless it would be dust. */
  ghost predicate Filled(opt: Options, fee: nat, outs: seq<Output>, change: int, script: Script, after: seq<Output>) {
    exists mid :: Charged(opt, fee, outs, mid) &&
      after == if change >= DustThreshold(script) then mid + [Output(change, script)] else mid
  }

  lemma FilledTotal(opt: Options, fee: nat, outs: seq<Output>, change: int, script: Script, after: seq<Output>)
    requires Filled(opt, fee, outs, change, script, after) && change >= 0
    ensures var charged := Total(outs) - (if opt.subfee || opt.subpos >= 0 then fee else 0);
            if change >= DustThreshold(script) then Total(after) == charged + change else Total(after) == charged
  {
    hide Charged, DustThreshold, Total;
    var mid :| Charged(opt, fee, outs, mid) &&
      after == if change >= DustThreshold(script) then mid + [Output(change, script)] else mid;
    ChargedTotal(opt, fee, outs, mid);
    TotalSnoc(mid, Output(change, script));
  }

  // ----- steps

  lemma InElements(s: seq<Outpoint>, p: Outpoint)
    ensures p in Elements(s) <==> p in s
  {}

  lemma AheadStart(s: Strategy, rest: seq<Utxo>)
    ensures Ahead(s, [], rest)
  {}

  lemma ReplaceLast(s: seq<Utxo>, i: nat, u: Utxo)
    requires i < |s|
    ensures multiset(s[i := u] + [s[i]]) == multiset(s) + multiset{u}
  {}

  lemma MoveOne(taken: seq<Utxo>, was: seq<Utxo>, now: seq<Utxo>, u: Utxo, pool: multiset<Utxo>)
    requires multiset(was) == multiset(now) + multiset{u} && Parts(taken, was, pool)
    ensures Parts(taken + [u], now, pool)
  {
    assert multiset(taken + [u]) + multiset(now) == multiset(taken) + multiset(was);
  }

  lemma ListedNext(ins: seq<Outpoint>, preset: seq<Outpoint>, us: seq<Utxo>, u: Utxo)
    requires Listed(ins, preset, us)
    ensures Listed(ins + [u.prevout], preset, us + [u])
  {
    PrevoutsSnoc(preset, us, u);
  }

  lemma MultisetSize(was: seq<Utxo>, now: seq<Utxo>, u: Utxo)
    requires multiset(was) == multiset(now) + multiset{u}
    ensures |was| == |now| + 1
  {
    assert |multiset(was)| == |was| && |multiset(now)| == |now|;
  }

  lemma ShortStart(base: int, us: seq<Utxo>, needed: int)
    ensures Short(base, us, |us|, needed)
  {}

  lemma PrevoutsSnoc(preset: seq<Outpoint>, us: seq<Utxo>, u: Utxo)
    ensures preset + Prevouts(us + [u]) == preset + Prevouts(us) + [u.prevout]
  {}

  lemma StartAtRate(base: int, size: nat, subtract: bool, outval: int, round: bool, rate: nat)
    ensures ShortAtRate(base, size, [], 0, subtract, outval, round, rate)
  {}
}
