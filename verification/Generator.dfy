/** The polynomial behind the checksum: a step multiplies by x modulo the generator of BIP 173, over the field
    of 32 elements. */
module Generator {
  import opened Checksum

  // ----- the field of 32 elements

  /** Symbols are polynomials over the bits; adding them is exclusive or. */
  function Plus(a: Sym, b: Sym): (r: Sym) {
    WordBound(a);
    WordBound(b);
    SmallXor(Word(a), Word(b));
    Nat(Xor(Word(a), Word(b)))
  }

  lemma SmallXor(a: bv32, b: bv32)
    requires a < 32 && b < 32
    ensures Xor(a, b) < 32
  {}

  /** Multiplying by x, modulo x^5 + x^3 + 1: the fifth power is 8 + 1. */
  function Double(a: Sym): (r: Sym) {
    if a < 16 then 2 * a else Plus(2 * a - 32, 9)
  }

  /** The product, bit by bit. */
  function Times(a: Sym, b: nat): (r: Sym) {
    if b == 0 then 0 else Plus(if b % 2 == 1 then a else 0, Double(Times(a, b / 2)))
  }

  // ----- the same on words

  lemma PlusWord(a: Sym, b: Sym)
    ensures Word(Plus(a, b)) == Xor(Word(a), Word(b))
  {
    WordBound(a);
    WordBound(b);
    SmallXor(Word(a), Word(b));
    WordOfNat(Xor(Word(a), Word(b)));
    hide Word, Xor, Nat;
  }

  function DoubleWord(w: bv32): (r: bv32) {
    if w < 16 then w << 1 else ((w << 1) & 31) ^ 9
  }

  lemma WordLow(a: Sym)
    requires a < 16
    ensures Word(2 * a) == Word(a) << 1 && Word(2 * a + 1) == (Word(a) << 1) ^ 1 && Word(a) < 16
  {
    assert a == 0 || a == 1 || a == 2 || a == 3 || a == 4 || a == 5 || a == 6 || a == 7
      || a == 8 || a == 9 || a == 10 || a == 11 || a == 12 || a == 13 || a == 14 || a == 15;
  }

  lemma WordHigh(a: Sym)
    requires a >= 16
    ensures Word(2 * a - 32) == (Word(a) << 1) & 31 && 16 <= Word(a) < 32
  {
    assert a == 16 || a == 17 || a == 18 || a == 19 || a == 20 || a == 21 || a == 22 || a == 23
      || a == 24 || a == 25 || a == 26 || a == 27 || a == 28 || a == 29 || a == 30 || a == 31;
  }

  lemma WordNine()
    ensures Word(9) == 9 && Word(0) == 0
  {}

  lemma DoubleIs(a: Sym)
    ensures Word(Double(a)) == DoubleWord(Word(a))
  {
    WordNine();
    hide Word, Plus;
    if a < 16 {
      WordLow(a);
    } else {
      WordHigh(a);
      PlusWord(2 * a - 32, 9);
    }
  }

  /** A term of the product. */
  function Term(w: bv32, bit: bool): (r: bv32) {
    if bit then w else 0
  }

  /** The product with five bits, lowest first. */
  function Product(w: bv32, b0: bool, b1: bool, b2: bool, b3: bool, b4: bool): (r: bv32) {
    Xor(Term(w, b0), DoubleWord(Xor(Term(w, b1), DoubleWord(Xor(Term(w, b2), DoubleWord(Xor(Term(w, b3), DoubleWord(Term(w, b4)))))))))
  }

  predicate Odd(n: nat) {
    n % 2 == 1
  }

  lemma TimesStep(a: Sym, b: nat)
    ensures Word(Times(a, b)) == if b == 0 then 0 else Xor(Term(Word(a), Odd(b)), DoubleWord(Word(Times(a, b / 2))))
  {
    WordNine();
    hide Word, Plus, DoubleWord, Xor, Double;
    if b > 0 {
      var t := Times(a, b / 2);
      PlusWord(if Odd(b) then a else 0, Double(t));
      DoubleIs(t);
    }
  }

  lemma NoMore(w: bv32)
    ensures DoubleWord(0) == 0 && Xor(w, 0) == w && Xor(0, w) == w
  {}

  lemma TimesZero(a: Sym)
    ensures Word(Times(a, 0)) == 0
  {
    WordNine();
  }

  lemma TimesIs(a: Sym, v: Sym)
    ensures Word(Times(a, v)) == Product(Word(a), Odd(v), Odd(v / 2), Odd(v / 4), Odd(v / 8), Odd(v / 16))
  {
    hide Word, Times, DoubleWord, Xor, Odd, Term;
    NoMore(0);
    forall b: nat ensures Word(Times(a, b)) == Xor(Term(Word(a), Odd(b)), DoubleWord(Word(Times(a, b / 2)))) {
      TimesStep(a, b);
      if b == 0 { EvenZero(Word(a)); }
    }
    TimesZero(a);
    assert v / 16 / 2 == 0;
    NoMore(Term(Word(a), Odd(v / 16)));
    assert v / 2 / 2 == v / 4 && v / 4 / 2 == v / 8 && v / 8 / 2 == v / 16;
  }

  lemma EvenZero(w: bv32)
    ensures Term(w, Odd(0)) == 0
  {}

  // ----- the step on six symbols

  function FiveBits(b0: bool, b1: bool, b2: bool, b3: bool, b4: bool): (w: bv32) {
    Term(1, b0) ^ Term(2, b1) ^ Term(4, b2) ^ Term(8, b3) ^ Term(16, b4)
  }

  function Shifted(w: bv32, bit: bool): (r: bv32) {
    (w << 1) ^ Term(1, bit)
  }

  lemma HalfWord(v: Sym)
    ensures Word(v) == Shifted(Word(v / 2), Odd(v))
  {
    WordLow(v / 2);
    hide Word;
    assert v == 2 * (v / 2) + v % 2;
    ShiftedIs(Word(v / 2));
  }

  lemma ShiftedIs(w: bv32)
    ensures Shifted(w, false) == w << 1 && Shifted(w, true) == (w << 1) ^ 1
  {}

  lemma ShiftedBits(b0: bool, b1: bool, b2: bool, b3: bool, b4: bool)
    ensures Shifted(Shifted(Shifted(Shifted(Shifted(0, b4), b3), b2), b1), b0) == FiveBits(b0, b1, b2, b3, b4)
  {}

  lemma WordBits(v: Sym)
    ensures Word(v) == FiveBits(Odd(v), Odd(v / 2), Odd(v / 4), Odd(v / 8), Odd(v / 16))
  {
    WordNine();
    hide Word, Odd, FiveBits, Shifted;
    HalfWord(v);
    HalfWord(v / 2);
    HalfWord(v / 4);
    HalfWord(v / 8);
    HalfWord(v / 16);
    assert v / 2 / 2 == v / 4 && v / 4 / 2 == v / 8 && v / 8 / 2 == v / 16 && v / 16 / 2 == 0;
    ShiftedBits(Odd(v), Odd(v / 2), Odd(v / 4), Odd(v / 8), Odd(v / 16));
  }

  function Six(a: bv32, b: bv32, c: bv32, d: bv32, e: bv32, f: bv32): (w: bv32) {
    Join(Join(Join(Join(Join(a, b), c), d), e), f)
  }

  function Join(p: bv32, w: bv32): (r: bv32) {
    Xor(Up(p), w)
  }

  function Up(p: bv32): (r: bv32) {
    p << 5
  }

  lemma PackNext(vs: seq<Sym>, v: Sym)
    ensures Pack(vs + [v]) == Join(Pack(vs), Word(v))
  {
    hide Xor, Word;
    assert (vs + [v])[..|vs|] == vs;
  }

  lemma PackNone()
    ensures Pack([]) == 0
  {}

  lemma JoinZero(w: bv32)
    ensures Join(0, w) == w
  {}

  lemma PackSix(a: Sym, b: Sym, c: Sym, d: Sym, e: Sym, f: Sym)
    ensures Pack([a, b, c, d, e, f]) == Six(Word(a), Word(b), Word(c), Word(d), Word(e), Word(f))
  {
    hide Pack, Word, Join;
    PackNone();
    JoinZero(Word(a));
    PackNext([], a);
    PackNext([a], b);
    PackNext([a, b], c);
    PackNext([a, b, c], d);
    PackNext([a, b, c, d], e);
    PackNext([a, b, c, d, e], f);
    assert [] + [a] == [a] && [a] + [b] == [a, b] && [a, b] + [c] == [a, b, c] && [a, b, c] + [d] == [a, b, c, d];
    assert [a, b, c, d] + [e] == [a, b, c, d, e] && [a, b, c, d, e] + [f] == [a, b, c, d, e, f];
  }

  /** The step on the highest symbol alone: the generator, times that symbol. */
  predicate HighStepIs(b0: bool, b1: bool, b2: bool, b3: bool, b4: bool) {
    Polymod(Six(FiveBits(b0, b1, b2, b3, b4), 0, 0, 0, 0, 0)) ==
    Six(Product(29, b0, b1, b2, b3, b4), Product(22, b0, b1, b2, b3, b4), Product(20, b0, b1, b2, b3, b4),
        Product(21, b0, b1, b2, b3, b4), Product(29, b0, b1, b2, b3, b4), Product(18, b0, b1, b2, b3, b4))
  }

  lemma HighLower(b0: bool, b1: bool, b2: bool, b3: bool)
    ensures HighStepIs(b0, b1, b2, b3, false)
  {
    if b0 {
      if b1 { if b2 { if b3 {} else {} } else { if b3 {} else {} } } else { if b2 { if b3 {} else {} } else { if b3 {} else {} } }
    } else {
      if b1 { if b2 { if b3 {} else {} } else { if b3 {} else {} } } else { if b2 { if b3 {} else {} } else { if b3 {} else {} } }
    }
  }

  lemma HighUpper(b0: bool, b1: bool, b2: bool, b3: bool)
    ensures HighStepIs(b0, b1, b2, b3, true)
  {
    if b0 {
      if b1 { if b2 { if b3 {} else {} } else { if b3 {} else {} } } else { if b2 { if b3 {} else {} } else { if b3 {} else {} } }
    } else {
      if b1 { if b2 { if b3 {} else {} } else { if b3 {} else {} } } else { if b2 { if b3 {} else {} } else { if b3 {} else {} } }
    }
  }

  lemma HighStep(b0: bool, b1: bool, b2: bool, b3: bool, b4: bool)
    ensures HighStepIs(b0, b1, b2, b3, b4)
  {
    hide HighStepIs;
    if b4 { HighUpper(b0, b1, b2, b3); } else { HighLower(b0, b1, b2, b3); }
  }

  lemma JoinBound(p: bv32, w: bv32)
    requires w < 32
    ensures p < 0x20 ==> Join(p, w) < 0x400
    ensures p < 0x400 ==> Join(p, w) < 0x8000
    ensures p < 0x8000 ==> Join(p, w) < 0x10_0000
    ensures p < 0x10_0000 ==> Join(p, w) < 0x200_0000
  {}

  lemma JoinNothing(p: bv32)
    ensures Join(p, 0) == p << 5
  {}

  /** ... and on the others: they move up. */
  lemma LowStep(b: bv32, c: bv32, d: bv32, e: bv32, f: bv32)
    requires b < 32 && c < 32 && d < 32 && e < 32 && f < 32
    ensures Polymod(Six(0, b, c, d, e, f)) == Six(b, c, d, e, f, 0)
  {
    hide Join, Polymod;
    JoinZero(b);
    JoinBound(b, c);
    JoinBound(Join(b, c), d);
    JoinBound(Join(Join(b, c), d), e);
    JoinBound(Join(Join(Join(b, c), d), e), f);
    var p := Join(Join(Join(Join(b, c), d), e), f);
    PolymodShort(p);
    JoinNothing(p);
  }

  lemma UpXor(p: bv32, q: bv32)
    ensures Up(Xor(p, q)) == Xor(Up(p), Up(q))
  {}

  lemma JoinXor(p: bv32, q: bv32, a: bv32, b: bv32)
    ensures Xor(Join(p, a), Join(q, b)) == Join(Xor(p, q), Xor(a, b))
  {
    hide Xor, Up;
    UpXor(p, q);
    XorSwap(Up(p), a, Up(q), b);
  }

  lemma SixXor(a: bv32, b: bv32, c: bv32, d: bv32, e: bv32, f: bv32, a': bv32, b': bv32, c': bv32, d': bv32, e': bv32, f': bv32)
    ensures Xor(Six(a, b, c, d, e, f), Six(a', b', c', d', e', f')) ==
            Six(Xor(a, a'), Xor(b, b'), Xor(c, c'), Xor(d, d'), Xor(e, e'), Xor(f, f'))
  {
    hide Join, Xor;
    JoinXor(a, a', b, b');
    var p, p' := Join(a, b), Join(a', b');
    JoinXor(p, p', c, c');
    var q, q' := Join(p, c), Join(p', c');
    JoinXor(q, q', d, d');
    var r, r' := Join(q, d), Join(q', d');
    JoinXor(r, r', e, e');
    JoinXor(Join(r, e), Join(r', e'), f, f');
  }

  /** One step is multiplication by x modulo x^6 + 29x^5 + 22x^4 + 20x^3 + 21x^2 + 29x + 18: the coefficient that
      leaves at the top comes back through the generator. */
  lemma StepMultiplies(p5: Sym, p4: Sym, p3: Sym, p2: Sym, p1: Sym, p0: Sym)
    ensures Polymod(Pack([p5, p4, p3, p2, p1, p0])) ==
            Pack([Plus(p4, Times(29, p5)), Plus(p3, Times(22, p5)), Plus(p2, Times(20, p5)),
                  Plus(p1, Times(21, p5)), Plus(p0, Times(29, p5)), Times(18, p5)])
  {
    PackSix(p5, p4, p3, p2, p1, p0);
    PackSix(Plus(p4, Times(29, p5)), Plus(p3, Times(22, p5)), Plus(p2, Times(20, p5)),
            Plus(p1, Times(21, p5)), Plus(p0, Times(29, p5)), Times(18, p5));
    WordBound(p4);
    WordBound(p3);
    WordBound(p2);
    WordBound(p1);
    WordBound(p0);
    StepWords(p5, Word(p4), Word(p3), Word(p2), Word(p1), Word(p0));
    hide Polymod, Pack, Six, Times, Plus, Word, Xor;
    PlusWord(p4, Times(29, p5));
    PlusWord(p3, Times(22, p5));
    PlusWord(p2, Times(20, p5));
    PlusWord(p1, Times(21, p5));
    PlusWord(p0, Times(29, p5));
  }

  lemma StepWords(p5: Sym, b: bv32, c: bv32, d: bv32, e: bv32, f: bv32)
    requires b < 32 && c < 32 && d < 32 && e < 32 && f < 32
    ensures Polymod(Six(Word(p5), b, c, d, e, f)) ==
            Six(Xor(b, Word(Times(29, p5))), Xor(c, Word(Times(22, p5))), Xor(d, Word(Times(20, p5))),
                Xor(e, Word(Times(21, p5))), Xor(f, Word(Times(29, p5))), Word(Times(18, p5)))
  {
    GeneratorWords();
    hide Polymod, Six, Times, Word, Xor, Product, FiveBits, Odd;
    var a := Word(p5);
    SixXor(a, 0, 0, 0, 0, 0, 0, b, c, d, e, f);
    XorSelf(a);
    XorSelf(b);
    XorSelf(c);
    XorSelf(d);
    XorSelf(e);
    XorSelf(f);
    PolymodLinear(Six(a, 0, 0, 0, 0, 0), Six(0, b, c, d, e, f));
    LowStep(b, c, d, e, f);
    WordBits(p5);
    HighStep(Odd(p5), Odd(p5 / 2), Odd(p5 / 4), Odd(p5 / 8), Odd(p5 / 16));
    TimesIs(29, p5);
    TimesIs(22, p5);
    TimesIs(20, p5);
    TimesIs(21, p5);
    TimesIs(18, p5);
    var t5, t4, t3, t2, t0 := Word(Times(29, p5)), Word(Times(22, p5)), Word(Times(20, p5)), Word(Times(21, p5)), Word(Times(18, p5));
    SixXor(t5, t4, t3, t2, t5, t0, b, c, d, e, f, 0);
    XorComm(t5, b);
    XorComm(t4, c);
    XorComm(t3, d);
    XorComm(t2, e);
    XorComm(t5, f);
    XorSelf(t0);
  }

  lemma GeneratorWords()
    ensures Word(29) == 29 && Word(22) == 22 && Word(20) == 20 && Word(21) == 21 && Word(18) == 18
  {}

  // ----- the checksum as a remainder

  /** Six coefficients, highest first, times x plus `v`, modulo the generator. */
  function Shift(p: seq<Sym>, v: Sym): (r: seq<Sym>)
    requires |p| == 6
    ensures |r| == 6
  {
    [Plus(p[1], Times(29, p[0])), Plus(p[2], Times(22, p[0])), Plus(p[3], Times(20, p[0])),
     Plus(p[4], Times(21, p[0])), Plus(p[5], Times(29, p[0])), Plus(Times(18, p[0]), v)]
  }

  /** The remainder of a polynomial that starts with the coefficients `p` and goes on with `vs`. */
  function Remainder(p: seq<Sym>, vs: seq<Sym>): (r: seq<Sym>)
    requires |p| == 6
    ensures |r| == 6
  {
    if vs == [] then p else Shift(Remainder(p, vs[..|vs| - 1]), vs[|vs| - 1])
  }

  lemma StepShift(p: seq<Sym>, v: Sym)
    requires |p| == 6
    ensures Step(Pack(p), v) == Pack(Shift(p, v))
  {
    hide Polymod, Pack, Times, Plus, Word, Join, Xor;
    assert p == [p[0], p[1], p[2], p[3], p[4], p[5]];
    StepMultiplies(p[0], p[1], p[2], p[3], p[4], p[5]);
    var r := Shift(p, v);
    var t := r[..5];
    assert [r[0], r[1], r[2], r[3], r[4], Times(18, p[0])] == t + [Times(18, p[0])] && r == t + [r[5]];
    PackNext(t, Times(18, p[0]));
    PackNext(t, r[5]);
    PlusWord(Times(18, p[0]), v);
    JoinMore(Pack(t), Word(Times(18, p[0])), Word(v));
  }

  lemma JoinMore(p: bv32, a: bv32, b: bv32)
    ensures Join(p, Xor(a, b)) == Xor(Join(p, a), b)
  {
    hide Xor, Up;
    XorAssoc(Up(p), a, b);
  }

  /** Feeding symbols divides: the state holds the remainder modulo the generator. */
  lemma {:induction false} FeedDivides(p: seq<Sym>, vs: seq<Sym>)
    requires |p| == 6
    ensures Feed(Pack(p), vs) == Pack(Remainder(p, vs))
  {
    hide Step, Pack, Shift;
    if vs != [] {
      var vs', v := vs[..|vs| - 1], vs[|vs| - 1];
      FeedDivides(p, vs');
      StepShift(Remainder(p, vs'), v);
    }
  }

  const ONE: seq<Sym> := [0, 0, 0, 0, 0, 1]

  lemma PackOne()
    ensures Pack(ONE) == 1
  {
    WordNine();
    assert Word(1) == 1;
    PackSix(0, 0, 0, 0, 0, 1);
    hide Word, Pack;
  }

  /** A checksum closes exactly when the polynomial of a leading one and the symbols leaves one. */
  lemma ClosesExactly(vs: seq<Sym>)
    ensures Feed(1, vs) == 1 <==> Remainder(ONE, vs) == ONE
  {
    hide Feed, Pack, Remainder, Symbols, Fits;
    PackOne();
    FeedDivides(ONE, vs);
    SymbolsOfPack(Remainder(ONE, vs));
    SymbolsOfPack(ONE);
  }
}
