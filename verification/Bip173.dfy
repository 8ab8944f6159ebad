/** The strings of bech32 against their standard, BIP 173: the alphabet, the polynomial that accepted strings
    satisfy, and an example. */
module Bip173 {
  import opened Checksum
  import opened Generator
  import opened Bech32
  import opened Wire

  const CHARSET: string := "qpzry9x8gf2tvdw0s3jn54khce6mua7l"

  lemma SymbolIs(v: Sym)
    ensures Symbol(v) == CHARSET[v]
  {
    if v < 8 {} else if v < 16 {} else if v < 24 {} else {}
  }

  /** Accepted strings are those of the right shape whose symbols, after the high bits of the prefix, a zero
      and its low bits, leave one modulo the generator. */
  lemma AcceptedExactly(s: string)
    ensures Deserialized(s).Some? <==>
            && WellFormed(s) && InAlphabet(s[Separator(s) + 1..])
            && Remainder(ONE, Expand(Lower(s[..Separator(s)])) + Values(s[Separator(s) + 1..])) == ONE
  {
    hide Feed, Remainder, InAlphabet, Expand, Values, WellFormed, Separator, Lower;
    if WellFormed(s) { WellFormedFacts(s); }
    if WellFormed(s) && InAlphabet(s[Separator(s) + 1..]) {
      ClosesExactly(Expand(Lower(s[..Separator(s)])) + Values(s[Separator(s) + 1..]));
    }
  }

  lemma ExampleSteps()
    ensures Step(1, 3) == 0x23 && Step(0x23, 0) == 0x460 && Step(0x460, 1) == 0x8c01
    ensures Step(0x8c01, 0) == 0x118020 && Step(0x118020, 0) == 0x2300400 && Step(0x2300400, 0) == 0x3d6ad7b2
    ensures Step(0x3d6ad7b2, 0) == 0x2fd30b9 && Step(0x2fd30b9, 0) == 0x24cc4092 && Step(0x24cc4092, 0) == 0x15ccfe9e
  {
    WordNine();
    assert Word(1) == 1 && Word(3) == 3;
    hide Word;
  }

  lemma FeedFirst(c: bv32, v: Sym, vs: seq<Sym>)
    ensures Feed(c, [v] + vs) == Feed(Step(c, v), vs)
  {
    hide Step;
    FeedAppend(c, [v], vs);
    assert [v] == [] + [v];
    FeedSnoc(c, [], v);
    assert Feed(c, []) == c;
  }

  lemma FeedNothing(c: bv32)
    ensures Feed(c, []) == c
  {}

  lemma ExampleState()
    ensures Feed(1, [3, 0, 1]) == 0x8c01
    ensures Feed(0x8c01, Zeros(6)) == 0x15ccfe9e
  {
    hide Feed, Step;
    ExampleSteps();
    assert [3, 0, 1] == [3] + ([0] + ([1] + []));
    FeedFirst(1, 3, [0] + ([1] + []));
    FeedFirst(0x23, 0, [1] + []);
    FeedFirst(0x460, 1, []);
    FeedNothing(0x8c01);
    assert Zeros(6) == [0] + Zeros(5) && Zeros(5) == [0] + Zeros(4) && Zeros(4) == [0] + Zeros(3);
    assert Zeros(3) == [0] + Zeros(2) && Zeros(2) == [0] + Zeros(1) && Zeros(1) == [0] + [];
    FeedFirst(0x8c01, 0, Zeros(5));
    FeedFirst(0x118020, 0, Zeros(4));
    FeedFirst(0x2300400, 0, Zeros(3));
    FeedFirst(0x3d6ad7b2, 0, Zeros(2));
    FeedFirst(0x2fd30b9, 0, Zeros(1));
    FeedFirst(0x24cc4092, 0, []);
    FeedNothing(0x15ccfe9e);
  }

  lemma ExampleTail()
    ensures Tail(0x8c01) == [10, 28, 25, 31, 20, 31]
  {
    hide Feed, Pack, Symbols;
    ExampleState();
    PackSix(10, 28, 25, 31, 20, 31);
    assert Word(10) == 10 && Word(28) == 28 && Word(25) == 25 && Word(31) == 31 && Word(20) == 20;
    assert Six(10, 28, 25, 31, 20, 31) == 0x15ccfe9f == Xor(0x15ccfe9e, 1);
    SymbolsOfPack([10, 28, 25, 31, 20, 31]);
  }

  lemma ExampleText()
    ensures Text([10, 28, 25, 31, 20, 31]) == "2uel5l"
  {
    hide Symbol;
    SymbolIs(10);
    SymbolIs(28);
    SymbolIs(25);
    SymbolIs(31);
    SymbolIs(20);
  }

  lemma ExampleExpands()
    ensures Expand("a") + [] == [3, 0, 1] && ValidPrefix("a")
  {}

  /** The shortest string of the test vectors: prefix `a`, no data. */
  lemma ShortestExample()
    ensures Serialized("a", []) == Some("a12uel5l")
  {
    hide Feed, Tail, Text, Expand, ValidPrefix;
    ExampleExpands();
    ExampleState();
    ExampleTail();
    ExampleText();
    assert [] + Tail(0x8c01) == [10, 28, 25, 31, 20, 31];
    assert "a" + ['1'] + "2uel5l" == "a12uel5l";
  }
}
