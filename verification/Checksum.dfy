/** The checksum of bech32: a linear map on 30-bit states, fed one 5-bit symbol at a time. */
module Checksum {
  type Sym = x: int | 0 <= x < 32 witness 0

  // ----- exclusive or

  function Xor(a: bv32, b: bv32): (r: bv32) {
    a ^ b
  }

  lemma XorSelf(a: bv32)
    ensures Xor(a, a) == 0 && Xor(a, 0) == a && Xor(0, a) == a
  {}

  lemma XorComm(a: bv32, b: bv32)
    ensures Xor(a, b) == Xor(b, a)
  {}

  lemma XorAssoc(a: bv32, b: bv32, c: bv32)
    ensures Xor(Xor(a, b), c) == Xor(a, Xor(b, c))
  {}

  lemma XorSwap(a: bv32, b: bv32, c: bv32, d: bv32)
    ensures Xor(Xor(a, b), Xor(c, d)) == Xor(Xor(a, c), Xor(b, d))
  {
    hide Xor;
    XorAssoc(a, b, Xor(c, d));
    XorAssoc(b, c, d);
    XorComm(b, c);
    XorAssoc(c, b, d);
    XorAssoc(a, c, Xor(b, d));
  }

  lemma XorCancel(a: bv32, b: bv32)
    ensures Xor(Xor(a, b), b) == a && Xor(a, Xor(a, b)) == b
  {
    hide Xor;
    XorAssoc(a, b, b);
    XorAssoc(a, a, b);
    XorSelf(a);
    XorSelf(b);
  }

  // ----- the step

  function Low(c: bv32): (r: bv32) {
    (c & 0x1ffffff) << 5
  }

  /** Bit `k` of the five that leave the state. */
  function Bit(c: bv32, k: nat): (r: bv32)
    requires k < 5
  {
    ((c >> 25) >> k) & 1
  }

  function Tap(bit: bv32, g: bv32): (r: bv32) {
    g & (0 - bit)
  }

  function AddTap(acc: bv32, c: bv32, k: nat, g: bv32): (r: bv32)
    requires k < 5
  {
    Xor(acc, Tap(Bit(c, k), g))
  }

  function Polymod(c: bv32): (r: bv32) {
    var t0 := AddTap(Low(c), c, 0, 0x3b6a57b2);
    var t1 := AddTap(t0, c, 1, 0x26508e6d);
    var t2 := AddTap(t1, c, 2, 0x1ea119fa);
    var t3 := AddTap(t2, c, 3, 0x3d4233dd);
    AddTap(t3, c, 4, 0x2a1462b3)
  }

  const LIMIT: bv32 := 0x4000_0000

  lemma PolymodBound(c: bv32)
    requires c < LIMIT
    ensures Polymod(c) < LIMIT
  {}

  lemma PolymodKernel(c: bv32)
    requires c < LIMIT && Polymod(c) == 0
    ensures c == 0
  {}

  lemma TapEnds(g: bv32)
    ensures Tap(0, g) == 0 && Tap(1, g) == g
  {}

  lemma BitXor(a: bv32, b: bv32, k: nat)
    requires k < 5
    ensures Bit(Xor(a, b), k) == Xor(Bit(a, k), Bit(b, k))
    ensures Bit(a, k) == 0 || Bit(a, k) == 1
    ensures Bit(b, k) == 0 || Bit(b, k) == 1
  {
    if k == 0 {} else if k == 1 {} else if k == 2 {} else if k == 3 {} else {}
  }

  lemma TapLinear(a: bv32, b: bv32, k: nat, g: bv32)
    requires k < 5
    ensures Tap(Bit(Xor(a, b), k), g) == Xor(Tap(Bit(a, k), g), Tap(Bit(b, k), g))
  {
    hide Tap, Bit, Xor;
    BitXor(a, b, k);
    TapEnds(g);
    XorSelf(g);
    XorSelf(1);
    XorSelf(0);
  }

  lemma AddTapLinear(x: bv32, y: bv32, a: bv32, b: bv32, k: nat, g: bv32)
    requires k < 5
    ensures AddTap(Xor(x, y), Xor(a, b), k, g) == Xor(AddTap(x, a, k, g), AddTap(y, b, k, g))
  {
    hide Xor, Tap, Bit;
    TapLinear(a, b, k, g);
    XorSwap(x, y, Tap(Bit(a, k), g), Tap(Bit(b, k), g));
  }

  lemma LowLinear(a: bv32, b: bv32)
    ensures Low(Xor(a, b)) == Xor(Low(a), Low(b))
  {}

  /** The step is linear over exclusive or. */
  lemma PolymodLinear(a: bv32, b: bv32)
    ensures Polymod(Xor(a, b)) == Xor(Polymod(a), Polymod(b))
  {
    hide AddTap, Low, Xor;
    LowLinear(a, b);
    var a0, b0 := AddTap(Low(a), a, 0, 0x3b6a57b2), AddTap(Low(b), b, 0, 0x3b6a57b2);
    var a1, b1 := AddTap(a0, a, 1, 0x26508e6d), AddTap(b0, b, 1, 0x26508e6d);
    var a2, b2 := AddTap(a1, a, 2, 0x1ea119fa), AddTap(b1, b, 2, 0x1ea119fa);
    var a3, b3 := AddTap(a2, a, 3, 0x3d4233dd), AddTap(b2, b, 3, 0x3d4233dd);
    AddTapLinear(Low(a), Low(b), a, b, 0, 0x3b6a57b2);
    AddTapLinear(a0, b0, a, b, 1, 0x26508e6d);
    AddTapLinear(a1, b1, a, b, 2, 0x1ea119fa);
    AddTapLinear(a2, b2, a, b, 3, 0x3d4233dd);
    AddTapLinear(a3, b3, a, b, 4, 0x2a1462b3);
  }

  /** ... and one to one on the states: nothing but zero steps to zero. */
  lemma PolymodInjective(a: bv32, b: bv32)
    requires a < LIMIT && b < LIMIT && Polymod(a) == Polymod(b)
    ensures a == b
  {
    hide Polymod;
    PolymodLinear(a, b);
    XorSelf(Polymod(a));
    XorBound(a, b);
    PolymodKernel(Xor(a, b));
    hide Xor;
    XorCancel(a, b);
    XorSelf(a);
  }

  lemma XorBound(a: bv32, b: bv32)
    requires a < LIMIT && b < LIMIT
    ensures Xor(a, b) < LIMIT
  {}

  lemma SmallLow(v: bv32)
    requires v < 0x200_0000
    ensures Low(v) == v << 5
  {}

  lemma SmallBit(v: bv32, k: nat)
    requires v < 0x200_0000 && k < 5
    ensures Bit(v, k) == 0
  {
    assert v >> 25 == 0;
    if k == 0 {} else if k == 1 {} else if k == 2 {} else if k == 3 {} else {}
  }

  lemma AddNoTap(acc: bv32, c: bv32, k: nat, g: bv32)
    requires k < 5 && Bit(c, k) == 0
    ensures AddTap(acc, c, k, g) == acc
  {
    hide Bit, Xor, Tap;
    TapEnds(g);
    XorSelf(acc);
  }

  /** While the state is short, a step only moves it up. */
  lemma PolymodShort(v: bv32)
    requires v < 0x200_0000
    ensures Polymod(v) == v << 5
  {
    hide AddTap, Bit, Low;
    forall k: nat, g, acc | k < 5 ensures AddTap(acc, v, k, g) == acc {
      SmallBit(v, k);
      AddNoTap(acc, v, k, g);
    }
    SmallLow(v);
  }

  // ----- symbols as words

  function Word(v: Sym): (w: bv32) {
    (v as bv8) as bv32
  }

  function Nat(w: bv32): (v: Sym)
    requires w < 32
  {
    NatBound(w as bv8);
    (w as bv8) as int
  }

  lemma NatBound(w: bv8)
    requires w < 32
    ensures 0 <= w as int < 32
  {}

  lemma ByteOfSym(v: Sym)
    ensures (v as bv8) < 32 && (v as bv8) as int == v
  {}

  lemma WordBound(v: Sym)
    ensures Word(v) < 32
  {
    ByteOfSym(v);
  }

  lemma NatOfWord(v: Sym)
    ensures Word(v) < 32 && Nat(Word(v)) == v
  {
    ByteOfSym(v);
    var b := v as bv8;
    assert (b as bv32) as bv8 == b;
  }

  lemma WordOfNat(w: bv32)
    requires w < 32
    ensures Word(Nat(w)) == w
  {
    var b := w as bv8;
    NatBound(b);
    assert b as bv32 == w;
    ByteRound(b);
  }

  lemma ByteRound(b: bv8)
    requires b < 32
    ensures (b as int) as bv8 == b
  {}

  // ----- feeding symbols

  function Step(c: bv32, v: Sym): (r: bv32) {
    Xor(Polymod(c), Word(v))
  }

  function Feed(c: bv32, vs: seq<Sym>): (r: bv32) {
    if vs == [] then c else Step(Feed(c, vs[..|vs| - 1]), vs[|vs| - 1])
  }

  lemma StepBound(c: bv32, v: Sym)
    requires c < LIMIT
    ensures Step(c, v) < LIMIT
  {
    PolymodBound(c);
    WordBound(v);
    hide Polymod, Word, Xor;
    XorBound(Polymod(c), Word(v));
  }

  lemma {:induction false} FeedBound(c: bv32, vs: seq<Sym>)
    requires c < LIMIT
    ensures Feed(c, vs) < LIMIT
  {
    hide Step;
    if vs != [] {
      FeedBound(c, vs[..|vs| - 1]);
      StepBound(Feed(c, vs[..|vs| - 1]), vs[|vs| - 1]);
    }
  }

  lemma FeedSnoc(c: bv32, vs: seq<Sym>, v: Sym)
    ensures Feed(c, vs + [v]) == Step(Feed(c, vs), v)
  {
    hide Step;
    assert (vs + [v])[..|vs|] == vs;
  }

  lemma {:induction false} FeedAppend(c: bv32, a: seq<Sym>, b: seq<Sym>)
    ensures Feed(c, a + b) == Feed(Feed(c, a), b)
  {
    hide Step;
    if b == [] {
      assert a + b == a;
    } else {
      var b', v := b[..|b| - 1], b[|b| - 1];
      FeedAppend(c, a, b');
      assert a + b == (a + b') + [v];
      FeedSnoc(c, a + b', v);
    }
  }

  lemma StepInjective(c: bv32, d: bv32, v: Sym)
    requires c < LIMIT && d < LIMIT && Step(c, v) == Step(d, v)
    ensures c == d
  {
    hide Polymod, Xor, Word;
    XorCancel(Polymod(c), Word(v));
    XorCancel(Polymod(d), Word(v));
    PolymodInjective(c, d);
  }

  lemma {:induction false} FeedInjective(c: bv32, d: bv32, vs: seq<Sym>)
    requires c < LIMIT && d < LIMIT && Feed(c, vs) == Feed(d, vs)
    ensures c == d
  {
    hide Step;
    if vs != [] {
      var vs' := vs[..|vs| - 1];
      FeedBound(c, vs');
      FeedBound(d, vs');
      StepInjective(Feed(c, vs'), Feed(d, vs'), vs[|vs| - 1]);
      FeedInjective(c, d, vs');
    }
  }

  // ----- up to six symbols as one word

  function Push(p: bv32, v: Sym): (r: bv32) {
    Xor(p << 5, Word(v))
  }

  function Pack(vs: seq<Sym>): (w: bv32) {
    if vs == [] then 0 else Push(Pack(vs[..|vs| - 1]), vs[|vs| - 1])
  }

  function Pop(w: bv32): (r: bv32) {
    w >> 5
  }

  function Last(w: bv32): (v: Sym) {
    LowFive(w);
    Nat(w & 31)
  }

  lemma LowFive(w: bv32)
    ensures w & 31 < 32
  {}

  /** The last `k` symbols of a word, high to low. */
  function Symbols(w: bv32, k: nat): (vs: seq<Sym>)
    ensures |vs| == k
  {
    if k == 0 then [] else Symbols(Pop(w), k - 1) + [Last(w)]
  }

  predicate Fits(w: bv32, k: nat)
    requires k <= 6
  {
    if k == 0 then w == 0 else if k == 1 then w < 0x20 else if k == 2 then w < 0x400 else if k == 3 then w < 0x8000
    else if k == 4 then w < 0x10_0000 else if k == 5 then w < 0x200_0000 else w < LIMIT
  }

  lemma PushWord(p: bv32, v: bv32)
    requires p < 0x200_0000 && v < 32
    ensures ((p << 5) ^ v) >> 5 == p && ((p << 5) ^ v) & 31 == v
  {}

  lemma PushParts(p: bv32, v: Sym)
    requires Fits(p, 5)
    ensures Pop(Push(p, v)) == p && Last(Push(p, v)) == v
  {
    NatOfWord(v);
    PushWord(p, Word(v));
    hide Nat, Word;
  }

  lemma PushFits(p: bv32, v: Sym, k: nat)
    requires k < 6 && Fits(p, k)
    ensures Fits(Push(p, v), k + 1) && Fits(p, 5)
  {
    WordBound(v);
    hide Word;
    if k == 0 {} else if k == 1 {} else if k == 2 {} else if k == 3 {} else if k == 4 {} else {}
  }

  lemma PackStep(vs: seq<Sym>)
    ensures Pack(vs) == if vs == [] then 0 else Push(Pack(vs[..|vs| - 1]), vs[|vs| - 1])
  {}

  lemma SymbolsStep(w: bv32, k: nat)
    ensures Symbols(w, k) == if k == 0 then [] else Symbols(Pop(w), k - 1) + [Last(w)]
  {}

  lemma ZeroFits()
    ensures Fits(0, 0)
  {}

  lemma NothingFits(w: bv32)
    requires Fits(w, 0)
    ensures w == 0
  {}

  lemma {:induction false} SymbolsOfPack(vs: seq<Sym>)
    requires |vs| <= 6
    ensures Fits(Pack(vs), |vs|) && Symbols(Pack(vs), |vs|) == vs
  {
    hide Push, Pop, Last, Fits, Pack, Symbols;
    PackStep(vs);
    SymbolsStep(Pack(vs), |vs|);
    if vs != [] {
      var vs', v := vs[..|vs| - 1], vs[|vs| - 1];
      SymbolsOfPack(vs');
      PushFits(Pack(vs'), v, |vs'|);
      PushParts(Pack(vs'), v);
      assert vs == vs' + [v];
    } else {
      ZeroFits();
    }
  }

  lemma PopWord(w: bv32)
    ensures ((w >> 5) << 5) ^ (w & 31) == w
  {}

  lemma PopParts(w: bv32)
    ensures Push(Pop(w), Last(w)) == w
  {
    LowFive(w);
    WordOfNat(w & 31);
    hide Nat, Word;
    PopWord(w);
  }

  lemma PopFits(w: bv32, k: nat)
    requires 0 < k <= 6 && Fits(w, k)
    ensures Fits(Pop(w), k - 1)
  {
    if k == 1 {} else if k == 2 {} else if k == 3 {} else if k == 4 {} else if k == 5 {} else {}
  }

  lemma {:induction false} PackOfSymbols(w: bv32, k: nat)
    requires k <= 6 && Fits(w, k)
    ensures Pack(Symbols(w, k)) == w
    decreases k
  {
    hide Push, Pop, Last, Fits, Pack, Symbols;
    SymbolsStep(w, k);
    PackStep(Symbols(w, k));
    if k > 0 {
      PopFits(w, k);
      PackOfSymbols(Pop(w), k - 1);
      PopParts(w);
      assert Symbols(w, k)[..k - 1] == Symbols(Pop(w), k - 1);
    } else {
      NothingFits(w);
    }
  }

  function Zeros(k: nat): (vs: seq<Sym>)
    ensures |vs| == k
  {
    seq(k, i => 0)
  }

  lemma StepPush(c: bv32, p: bv32, v: Sym)
    requires Fits(p, 5)
    ensures Step(Xor(c, p), v) == Xor(Polymod(c), Push(p, v))
  {
    hide Polymod, Xor, Word;
    PolymodLinear(c, p);
    PolymodShort(p);
    XorAssoc(Polymod(c), p << 5, Word(v));
  }

  lemma WordZero()
    ensures Word(0) == 0
  {}

  lemma StepZero(c: bv32)
    ensures Step(c, 0) == Polymod(c)
  {
    WordZero();
    hide Polymod, Xor, Word;
    XorSelf(Polymod(c));
  }

  /** Up to six symbols are added, packed, to what the state would be without them. */
  lemma {:induction false} FeedPacks(c: bv32, vs: seq<Sym>)
    requires |vs| <= 6
    ensures Feed(c, vs) == Xor(Feed(c, Zeros(|vs|)), Pack(vs))
  {
    hide Step, Xor, Push, Polymod, Word, Fits, Symbols;
    if vs == [] {
      XorSelf(c);
    } else {
      var vs', v := vs[..|vs| - 1], vs[|vs| - 1];
      FeedPacks(c, vs');
      SymbolsOfPack(vs');
      PushFits(Pack(vs'), v, |vs'|);
      var z := Feed(c, Zeros(|vs'|));
      StepPush(z, Pack(vs'), v);
      assert Zeros(|vs|) == Zeros(|vs'|) + [0];
      FeedSnoc(c, Zeros(|vs'|), 0);
      StepZero(z);
    }
  }

  /** A burst is detected: two different runs of up to six symbols, whatever comes before and after
      them, never leave the same state. */
  lemma BurstDetected(c: bv32, a: seq<Sym>, b: seq<Sym>, rest: seq<Sym>)
    requires c < LIMIT && |a| == |b| <= 6 && Feed(c, a + rest) == Feed(c, b + rest)
    ensures a == b
  {
    hide Feed, Pack, Xor, Symbols, Fits;
    FeedAppend(c, a, rest);
    FeedAppend(c, b, rest);
    FeedBound(c, a);
    FeedBound(c, b);
    FeedInjective(Feed(c, a), Feed(c, b), rest);
    FeedPacks(c, a);
    FeedPacks(c, b);
    var z := Feed(c, Zeros(|a|));
    XorCancel(z, Pack(a));
    XorCancel(z, Pack(b));
    SymbolsOfPack(a);
    SymbolsOfPack(b);
  }

  // ----- the six checksum symbols

  function Tail(c: bv32): (vs: seq<Sym>)
    ensures |vs| == 6
  {
    Symbols(Xor(Feed(c, Zeros(6)), 1), 6)
  }

  /** The six symbols computed from a state are the only six that bring it to one. */
  lemma TailExact(c: bv32, vs: seq<Sym>)
    requires c < LIMIT && |vs| == 6
    ensures Feed(c, vs) == 1 <==> vs == Tail(c)
  {
    hide Feed, Pack, Xor, Symbols, Fits;
    var z := Feed(c, Zeros(6));
    FeedBound(c, Zeros(6));
    XorBound(z, 1);
    FeedPacks(c, vs);
    FeedPacks(c, Tail(c));
    assert Fits(Xor(z, 1), 6) by { SixFit(Xor(z, 1)); }
    PackOfSymbols(Xor(z, 1), 6);
    SymbolsOfPack(vs);
    XorCancel(z, Pack(vs));
    XorCancel(z, 1);
  }

  lemma SixFit(w: bv32)
    requires w < LIMIT
    ensures Fits(w, 6)
  {}
}
