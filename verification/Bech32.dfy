/** Bech32 strings and segregated witness addresses. */
module Bech32 {
  import opened Checksum
  import opened Radix
  import opened Regroup
  import opened Wire

  // ----- the alphabet

  function Symbol(v: Sym): (c: char) {
    match v
      case 0 => 'q'
      case 1 => 'p'
      case 2 => 'z'
      case 3 => 'r'
      case 4 => 'y'
      case 5 => '9'
      case 6 => 'x'
      case 7 => '8'
      case 8 => 'g'
      case 9 => 'f'
      case 10 => '2'
      case 11 => 't'
      case 12 => 'v'
      case 13 => 'd'
      case 14 => 'w'
      case 15 => '0'
      case 16 => 's'
      case 17 => '3'
      case 18 => 'j'
      case 19 => 'n'
      case 20 => '5'
      case 21 => '4'
      case 22 => 'k'
      case 23 => 'h'
      case 24 => 'c'
      case 25 => 'e'
      case 26 => '6'
      case 27 => 'm'
      case 28 => 'u'
      case 29 => 'a'
      case 30 => '7'
      case 31 => 'l'
  }

  /** Both cases of a letter stand for the same symbol; -1 marks a character outside the alphabet. */
  function Digit(c: char): (d: int)
    ensures -1 <= d < 32
  {
    match c
      case 'q' | 'Q' => 0
      case 'p' | 'P' => 1
      case 'z' | 'Z' => 2
      case 'r' | 'R' => 3
      case 'y' | 'Y' => 4
      case '9' => 5
      case 'x' | 'X' => 6
      case '8' => 7
      case 'g' | 'G' => 8
      case 'f' | 'F' => 9
      case '2' => 10
      case 't' | 'T' => 11
      case 'v' | 'V' => 12
      case 'd' | 'D' => 13
      case 'w' | 'W' => 14
      case '0' => 15
      case 's' | 'S' => 16
      case '3' => 17
      case 'j' | 'J' => 18
      case 'n' | 'N' => 19
      case '5' => 20
      case '4' => 21
      case 'k' | 'K' => 22
      case 'h' | 'H' => 23
      case 'c' | 'C' => 24
      case 'e' | 'E' => 25
      case '6' => 26
      case 'm' | 'M' => 27
      case 'u' | 'U' => 28
      case 'a' | 'A' => 29
      case '7' => 30
      case 'l' | 'L' => 31
      case _ => -1
  }

  predicate Printable(c: char) {
    '!' <= c <= '~'
  }

  predicate IsUpper(c: char) {
    'A' <= c <= 'Z'
  }

  predicate IsLower(c: char) {
    'a' <= c <= 'z'
  }

  function ToLower(c: char): (r: char) {
    if IsUpper(c) then c + 32 as char else c
  }

  lemma DigitOfSymbol(v: Sym)
    ensures Digit(Symbol(v)) == v
  {
    if v < 8 {} else if v < 16 {} else if v < 24 {} else {}
  }

  lemma SymbolOfDigit(c: char)
    requires Digit(c) >= 0
    ensures Symbol(Digit(c)) == ToLower(c)
  {}

  lemma SymbolShape(v: Sym)
    ensures Printable(Symbol(v)) && !IsUpper(Symbol(v)) && Symbol(v) != '1'
  {}

  lemma LowerShape(c: char)
    ensures !IsUpper(ToLower(c)) && (Printable(c) ==> Printable(ToLower(c)))
    ensures (c as int) % 32 == (ToLower(c) as int) % 32
    ensures ToLower(c) == '1' <==> c == '1'
  {}

  function Lower(s: string): (r: string)
    ensures |r| == |s| && forall i :: 0 <= i < |s| ==> r[i] == ToLower(s[i])
  {
    seq(|s|, i requires 0 <= i < |s| => ToLower(s[i]))
  }

  function Text(vs: seq<Sym>): (s: string)
    ensures |s| == |vs| && forall i :: 0 <= i < |s| ==> s[i] == Symbol(vs[i])
  {
    seq(|vs|, i requires 0 <= i < |vs| => Symbol(vs[i]))
  }

  predicate InAlphabet(s: string) {
    forall i :: 0 <= i < |s| ==> Digit(s[i]) >= 0
  }

  function Values(s: string): (vs: seq<Sym>)
    requires InAlphabet(s)
    ensures |vs| == |s| && forall i :: 0 <= i < |s| ==> vs[i] == Digit(s[i])
  {
    seq(|s|, i requires 0 <= i < |s| => Digit(s[i]))
  }

  lemma ValuesOfText(vs: seq<Sym>)
    ensures InAlphabet(Text(vs)) && Values(Text(vs)) == vs
  {
    hide Digit, Symbol;
    forall i | 0 <= i < |vs| ensures Digit(Text(vs)[i]) == vs[i] {
      DigitOfSymbol(vs[i]);
    }
  }

  lemma TextOfValues(s: string)
    requires InAlphabet(s)
    ensures Text(Values(s)) == Lower(s)
  {
    hide Digit, Symbol, ToLower;
    forall i | 0 <= i < |s| ensures Text(Values(s))[i] == Lower(s)[i] {
      SymbolOfDigit(s[i]);
    }
  }

  // ----- the prefix

  function HighBits(c: char): (v: Sym) {
    c as int / 32 % 32
  }

  function LowBits(c: char): (v: Sym) {
    c as int % 32
  }

  function Highs(h: string): (vs: seq<Sym>)
    ensures |vs| == |h|
  {
    seq(|h|, i requires 0 <= i < |h| => HighBits(h[i]))
  }

  function Lows(h: string): (vs: seq<Sym>)
    ensures |vs| == |h|
  {
    seq(|h|, i requires 0 <= i < |h| => LowBits(h[i]))
  }

  function Expand(h: string): (vs: seq<Sym>) {
    Highs(h) + [0] + Lows(h)
  }

  predicate ValidPrefix(h: string) {
    1 <= |h| <= 83 && forall i :: 0 <= i < |h| ==> Printable(h[i]) && !IsUpper(h[i])
  }

  // ----- strings

  /** The last `1` separates the prefix from the data. */
  function Separator(s: string): (k: nat)
    ensures k <= |s| && (k > 0 ==> k < |s| && s[k] == '1')
  {
    if s == [] then 0 else if s[|s| - 1] == '1' then |s| - 1 else Separator(s[..|s| - 1])
  }

  lemma {:induction false} SeparatorIs(s: string, k: nat)
    requires k < |s| && s[k] == '1' && forall i :: k < i < |s| ==> s[i] != '1'
    ensures Separator(s) == k
  {
    if k < |s| - 1 { SeparatorIs(s[..|s| - 1], k); }
  }

  lemma {:induction false} SeparatorLast(s: string)
    ensures forall i :: Separator(s) < i < |s| ==> s[i] != '1'
    ensures forall i :: 0 <= i < |s| && s[i] == '1' && Separator(s) == 0 ==> i == 0
  {
    if s != [] && s[|s| - 1] != '1' {
      var t := s[..|s| - 1];
      SeparatorLast(t);
      assert forall i :: 0 <= i < |t| ==> s[i] == t[i];
    }
  }

  predicate HasUpper(s: string) {
    exists i :: 0 <= i < |s| && IsUpper(s[i])
  }

  predicate HasLower(s: string) {
    exists i :: 0 <= i < |s| && IsLower(s[i])
  }

  predicate WellFormed(s: string) {
    && 8 <= |s| <= 90 && (forall i :: 0 <= i < |s| ==> Printable(s[i]))
    && 0 < Separator(s) <= |s| - 7
    && !(HasLower(s) && HasUpper(s))
  }

  function State(h: string, data: seq<Sym>): (c: bv32) {
    Feed(1, Expand(h) + data)
  }

  function Serialized(h: string, data: seq<byte>): (r: Option<string>) {
    if ValidPrefix(h) && |h| + 1 + |data| + 6 <= 90 && (forall i :: 0 <= i < |data| ==> data[i] < 32)
    then Some(h + ['1'] + Text(data + Tail(State(h, data)))) else None
  }

  datatype Content = Content(hrp: string, data: seq<Sym>)

  function Deserialized(s: string): (r: Option<Content>) {
    if WellFormed(s) && InAlphabet(s[Separator(s) + 1..]) then
      var h, vs := Lower(s[..Separator(s)]), Values(s[Separator(s) + 1..]);
      if State(h, vs) == 1 then Some(Content(h, vs[..|vs| - 6])) else None
    else None
  }

  lemma StateBound(h: string, data: seq<Sym>)
    ensures State(h, data) < LIMIT
  {
    FeedBound(1, Expand(h) + data);
  }

  lemma StateAppend(h: string, a: seq<Sym>, b: seq<Sym>)
    ensures State(h, a + b) == Feed(State(h, a), b)
  {
    hide Feed;
    assert Expand(h) + (a + b) == (Expand(h) + a) + b;
    FeedAppend(1, Expand(h) + a, b);
  }

  lemma LowerFixed(h: string)
    requires forall i :: 0 <= i < |h| ==> !IsUpper(h[i])
    ensures Lower(h) == h
  {}

  /** What a serialized string looks like. */
  lemma SerializedShape(h: string, data: seq<Sym>, s: string)
    requires Serialized(h, data) == Some(s)
    ensures WellFormed(s) && Separator(s) == |h| && s[..|h|] == h
    ensures s[|h| + 1..] == Text(data + Tail(State(h, data)))
  {
    hide Digit, Symbol, Tail, State;
    var vs := data + Tail(State(h, data));
    forall v: Sym ensures Printable(Symbol(v)) && !IsUpper(Symbol(v)) && Symbol(v) != '1' {
      SymbolShape(v);
    }
    SeparatorIs(s, |h|);
    assert forall i :: 0 <= i < |s| ==> s[i] == if i < |h| then h[i] else if i == |h| then '1' else Text(vs)[i - |h| - 1];
    assert !HasUpper(s);
  }

  /** Reading undoes writing. */
  lemma DeserializeUndoesSerialize(h: string, data: seq<Sym>, s: string)
    requires Serialized(h, data) == Some(s)
    ensures Deserialized(s) == Some(Content(h, data))
  {
    SerializedShape(h, data, s);
    hide Feed, Digit, Symbol, WellFormed, Expand;
    var c := State(h, data);
    var vs := data + Tail(c);
    ValuesOfText(vs);
    LowerFixed(h);
    StateBound(h, data);
    StateAppend(h, data, Tail(c));
    hide State;
    TailExact(c, Tail(c));
    hide Tail;
    assert Lower(s[..Separator(s)]) == h && Values(s[Separator(s) + 1..]) == vs;
    assert State(h, vs) == 1;
    assert Deserialized(s).Some? && vs[..|vs| - 6] == data;
  }

  /** Writing undoes reading, up to case: an accepted string is the one its content is written as. */
  lemma SerializeUndoesDeserialize(s: string)
    requires Deserialized(s).Some?
    ensures var c := Deserialized(s).value; Serialized(c.hrp, c.data) == Some(Lower(s))
  {
    hide Feed, Digit, Symbol, Expand;
    var k := Separator(s);
    var h, vs := Lower(s[..k]), Values(s[k + 1..]);
    var data, tail := vs[..|vs| - 6], vs[|vs| - 6..];
    assert vs == data + tail;
    StateAppend(h, data, tail);
    StateBound(h, data);
    TailExact(State(h, data), tail);
    TextOfValues(s[k + 1..]);
    forall i | 0 <= i < |h| ensures Printable(h[i]) && !IsUpper(h[i]) {
      LowerShape(s[i]);
    }
    hide State, Tail;
    assert ToLower('1') == '1';
    assert Lower(s) == h + ['1'] + Lower(s[k + 1..]);
  }

  /** A change confined to six neighbouring data symbols (a single substitution in particular) turns
      an accepted string into a rejected one. */
  lemma BurstRejected(s: string, t: string, lo: nat, hi: nat)
    requires Deserialized(s).Some? && |t| == |s|
    requires Separator(s) < lo <= hi <= |s| && hi - lo <= 6
    requires t[..lo] == s[..lo] && t[hi..] == s[hi..]
    requires InAlphabet(s[lo..hi]) && InAlphabet(t[lo..hi]) && Values(s[lo..hi]) != Values(t[lo..hi])
    ensures Deserialized(t) == None
  {
    var k := Separator(s);
    SameSeparator(s, t, lo, hi);
    hide Digit, Feed, Symbol, Expand, WellFormed, Separator, State;
    if Deserialized(t).Some? {
      assert t[..k] == t[..lo][..k] == s[..k];
      Pieces(s, k, lo, hi);
      Pieces(t, k, lo, hi);
      assert t[k + 1..lo] == t[..lo][k + 1..] == s[k + 1..lo];
      SameStates(Lower(s[..k]), Values(s[k + 1..lo]), Values(s[lo..hi]), Values(t[lo..hi]), Values(s[hi..]));
    }
  }

  lemma SameStates(h: string, a: seq<Sym>, x: seq<Sym>, y: seq<Sym>, b: seq<Sym>)
    requires |x| == |y| <= 6 && State(h, a + (x + b)) == State(h, a + (y + b))
    ensures x == y
  {
    StateBound(h, a);
    StateAppend(h, a, x + b);
    StateAppend(h, a, y + b);
    hide State, Feed;
    BurstDetected(State(h, a), x, y, b);
  }

  lemma SameSeparator(s: string, t: string, lo: nat, hi: nat)
    requires |t| == |s| && 0 < Separator(s) < lo <= hi <= |s|
    requires t[..lo] == s[..lo] && t[hi..] == s[hi..] && InAlphabet(t[lo..hi])
    ensures Separator(t) == Separator(s)
  {
    hide Digit;
    var k := Separator(s);
    SeparatorLast(s);
    OneOutside();
    hide Separator;
    assert forall i :: 0 <= i < lo ==> t[i] == t[..lo][i] == s[..lo][i] == s[i];
    assert forall i :: hi <= i < |s| ==> t[i] == t[hi..][i - hi] == s[hi..][i - hi] == s[i];
    assert forall i :: lo <= i < hi ==> t[i] == t[lo..hi][i - lo];

    SeparatorIs(t, k);
  }

  lemma OneOutside()
    ensures Digit('1') == -1
  {}

  lemma Pieces(s: string, k: nat, lo: nat, hi: nat)
    requires k < lo <= hi <= |s| && InAlphabet(s[k + 1..])
    ensures InAlphabet(s[k + 1..lo]) && InAlphabet(s[lo..hi]) && InAlphabet(s[hi..])
    ensures Values(s[k + 1..]) == Values(s[k + 1..lo]) + (Values(s[lo..hi]) + Values(s[hi..]))
  {
    hide Digit;
    var r := s[k + 1..];
    assert s[k + 1..lo] == r[..lo - k - 1] && s[lo..hi] == r[lo - k - 1..hi - k - 1] && s[hi..] == r[hi - k - 1..];
  }

  // ----- the loops

  lemma FeedHigh(h: string, i: nat)
    requires i < |h|
    ensures Feed(1, Highs(h[..i + 1])) == Step(Feed(1, Highs(h[..i])), HighBits(h[i]))
  {
    hide Step, Feed;
    assert Highs(h[..i + 1]) == Highs(h[..i]) + [HighBits(h[i])];
    FeedSnoc(1, Highs(h[..i]), HighBits(h[i]));
  }

  lemma FeedLow(h: string, i: nat)
    requires i < |h|
    ensures Feed(1, Highs(h) + [0] + Lows(h[..i + 1])) == Step(Feed(1, Highs(h) + [0] + Lows(h[..i])), LowBits(h[i]))
  {
    hide Step, Feed;
    assert Highs(h) + [0] + Lows(h[..i + 1]) == (Highs(h) + [0] + Lows(h[..i])) + [LowBits(h[i])];
    FeedSnoc(1, Highs(h) + [0] + Lows(h[..i]), LowBits(h[i]));
  }

  lemma FeedMiddle(h: string)
    ensures Feed(1, Highs(h) + [0] + Lows(h[..0])) == Polymod(Feed(1, Highs(h[..|h|])))
  {
    hide Feed, Step, Polymod;
    assert h[..|h|] == h && Highs(h) + [0] + Lows(h[..0]) == Highs(h) + [0];
    FeedSnoc(1, Highs(h), 0);
    StepZero(Feed(1, Highs(h)));
  }

  lemma FeedEnds(h: string)
    ensures Feed(1, Highs(h[..0])) == 1
    ensures Feed(1, Highs(h) + [0] + Lows(h[..|h|])) == State(h, [])
  {
    assert h[..|h|] == h && Expand(h) + [] == Expand(h);
  }

  lemma FeedData(h: string, data: seq<Sym>, i: nat)
    requires i < |data|
    ensures State(h, data[..i + 1]) == Step(State(h, data[..i]), data[i])
  {
    hide Step, Feed;
    assert data[..i + 1] == data[..i] + [data[i]];
    assert Expand(h) + data[..i + 1] == (Expand(h) + data[..i]) + [data[i]];
    FeedSnoc(1, Expand(h) + data[..i], data[i]);
  }

  lemma FeedZeros(c: bv32, i: nat)
    ensures Feed(c, Zeros(0)) == c && Feed(c, Zeros(i + 1)) == Polymod(Feed(c, Zeros(i)))
  {
    hide Step, Polymod;
    assert Zeros(i + 1) == Zeros(i) + [0];
    FeedSnoc(c, Zeros(i), 0);
    StepZero(Feed(c, Zeros(i)));
  }

  /** `w >> 5k`, in `k` shifts. */
  function Dropped(w: bv32, k: nat): (r: bv32) {
    if k == 0 then w else Dropped(Pop(w), k - 1)
  }

  lemma {:induction false} TailSymbol(w: bv32, n: nat, k: nat)
    requires k < n <= 6
    ensures Symbols(w, n)[n - 1 - k] == Last(Dropped(w, k))
    decreases n
  {
    hide Last, Pop;
    if k > 0 {
      TailSymbol(Pop(w), n - 1, k - 1);
    }
  }

  /** The six symbols that close a string whose symbols so far left the state `c`. */
  method WriteTail(c: bv32) returns (tail: seq<Sym>)
    ensures tail == Tail(c)
  {
    hide Feed, Polymod, Symbols, Last, Xor, Dropped;
    var chk, i := c, 0;
    FeedZeros(c, 0);
    while i < 6
      invariant 0 <= i <= 6 && chk == Feed(c, Zeros(i))
    {
      FeedZeros(c, i);
      chk := Polymod(chk);
      i := i + 1;
    }
    chk := Xor(chk, 1);
    tail := [];
    while |tail| < 6
      invariant |tail| <= 6 && tail == Tail(c)[..|tail|]
    {
      TailSymbol(chk, 6, 5 - |tail|);
      tail := tail + [Last(Dropped(chk, 5 - |tail|))];
    }
  }

  /** The first pass over the prefix. */
  method ScanPrefix(h: string) returns (chk: Option<bv32>)
    ensures chk.Some? <==> ValidPrefix(h)
    ensures chk.Some? ==> chk.value == Feed(1, Highs(h[..|h|]))
  {
    hide Feed, Step, Polymod, Highs, HighBits, Word;
    var c: bv32, hlen := 1, 0;
    FeedEnds(h);
    while hlen < 83 && hlen < |h|
      invariant 0 <= hlen <= |h| && hlen <= 83 && c == Feed(1, Highs(h[..hlen]))
      invariant forall i :: 0 <= i < hlen ==> Printable(h[i]) && !IsUpper(h[i])
    {
      if !Printable(h[hlen]) || IsUpper(h[hlen]) {
        return None;
      }
      FeedHigh(h, hlen);
      c := Step(c, HighBits(h[hlen]));
      hlen := hlen + 1;
    }
    chk := if hlen == 0 || hlen < |h| then None else Some(c);
  }

  method Serialize(h: string, data: seq<byte>) returns (r: Option<string>)
    ensures r == Serialized(h, data)
  {
    hide Feed, Step, Polymod, State, Symbols, Last, Xor, Highs, Lows, HighBits, LowBits, Symbol, Word, ValidPrefix;
    var scan := ScanPrefix(h);
    if scan.None? {
      return None;
    }
    var chk, hlen := scan.value, |h|;
    if hlen + 1 + |data| + 6 > 90 {
      return None;
    }
    FeedEnds(h);
    FeedMiddle(h);
    chk := Polymod(chk);
    var str: string, i := [], 0;
    while i < hlen
      invariant 0 <= i <= hlen && str == h[..i] && chk == Feed(1, Highs(h) + [0] + Lows(h[..i]))
    {
      FeedLow(h, i);
      chk := Step(chk, LowBits(h[i]));
      str := str + [h[i]];
      i := i + 1;
    }
    str := str + ['1'];
    i := 0;
    assert data[..0] == [] && str == h + ['1'];
    while i < |data|
      invariant 0 <= i <= |data| && forall j :: 0 <= j < i ==> data[j] < 32
      invariant chk == State(h, data[..i]) && str == h + ['1'] + Text(data[..i])
    {
      if data[i] / 32 != 0 {
        return None;
      }
      var v: Sym := data[i];
      ghost var read: seq<Sym> := data[..i + 1];
      assert read[..i] == data[..i] && read[..i + 1] == read;
      FeedData(h, read, i);
      chk := Step(chk, v);
      str := str + [Symbol(v)];
      i := i + 1;
    }
    assert data[..i] == data;
    var tail := WriteTail(chk);
    assert Text(data + tail) == Text(data) + Text(tail);
    str := str + Text(tail);
    assert str == h + ['1'] + Text(data + tail);
    r := Some(str);
  }

  /** The scan of the characters: how far it came, and what it saw. */
  ghost predicate Scanned(s: string, slen: nat, hlen: nat, lower: bool, upper: bool) {
    && slen <= |s| && (forall i :: 0 <= i < slen ==> Printable(s[i]))
    && hlen == Separator(s[..slen]) && lower == HasLower(s[..slen]) && upper == HasUpper(s[..slen])
  }

  lemma ScanStep(s: string, slen: nat, hlen: nat, lower: bool, upper: bool)
    requires Scanned(s, slen, hlen, lower, upper) && slen < |s| && Printable(s[slen])
    ensures var c := s[slen];
            Scanned(s, slen + 1, if c == '1' then slen else hlen, lower || IsLower(c), upper || IsUpper(c))
  {
    var a, b := s[..slen], s[..slen + 1];
    assert b[..slen] == a && b[slen] == s[slen] && b == a + [s[slen]];
    assert forall i :: 0 <= i < slen ==> b[i] == a[i];
  }

  method Deserialize(s: string) returns (r: Option<Content>)
    ensures r == Deserialized(s)
  {
    hide Feed, Step, Polymod, State, Highs, Lows, HighBits, LowBits, Digit, Separator, HasLower, HasUpper, Scanned, ToLower;
    var hlen, lower, upper, slen := 0, false, false, 0;
    ScanStart(s);
    while slen < 90 && slen < |s|
      invariant 0 <= slen <= |s| && slen <= 90 && hlen >= 0 && Scanned(s, slen, hlen, lower, upper)
    {
      if !Printable(s[slen]) {
        return None;
      }
      ScanStep(s, slen, hlen, lower, upper);
      CaseSplit(s[slen]);
      if IsLower(s[slen]) {
        lower := true;
      } else if IsUpper(s[slen]) {
        upper := true;
      } else if s[slen] == '1' {
        hlen := slen;
      }
      slen := slen + 1;
    }
    if slen < 8 || slen < |s| {
      return None;
    }
    ScanEnd(s, slen, hlen, lower, upper);
    if hlen == 0 {
      return None;
    }
    if slen - (hlen + 1) < 6 {
      return None;
    }
    if lower && upper {
      return None;
    }
    var chk: bv32, hrp: string, i := 1, [], 0;
    ghost var h := Lower(s[..hlen]);
    FeedEnds(h);
    while i < hlen
      invariant 0 <= i <= hlen && hrp == h[..i] && chk == Feed(1, Highs(h[..i]))
    {
      FeedHigh(h, i);
      chk := Step(chk, HighBits(ToLower(s[i])));
      hrp := hrp + [ToLower(s[i])];
      i := i + 1;
    }
    FeedMiddle(h);
    chk := Polymod(chk);
    i := 0;
    while i < hlen
      invariant 0 <= i <= hlen && chk == Feed(1, Highs(h) + [0] + Lows(h[..i]))
    {
      FeedLow(h, i);
      SameLowBits(s[i]);
      chk := Step(chk, LowBits(s[i]));
      i := i + 1;
    }
    r := ReadData(s, hlen, hrp, chk);
  }

  /** The rest of the string: table lookups, checksum, and all but the last six symbols kept. */
  method ReadData(s: string, hlen: nat, hrp: string, start: bv32) returns (r: Option<Content>)
    requires WellFormed(s) && hlen == Separator(s) && hrp == Lower(s[..hlen]) && start == State(hrp, [])
    ensures r == Deserialized(s)
  {
    hide Feed, Step, Polymod, State, Digit, Separator, WellFormed, ToLower;
    WellFormedFacts(s);
    var chk, i := start, hlen + 1;
    var data: seq<Sym> := [];
    ghost var rest := s[hlen + 1..];
    assert rest[..0] == [] && Values([]) == [];
    while i < |s|
      invariant hlen + 1 <= i <= |s| && InAlphabet(rest[..i - hlen - 1])
      invariant chk == State(hrp, Values(rest[..i - hlen - 1])) && data == Kept(Values(rest[..i - hlen - 1]), |rest| - 6)
    {
      var ch := Digit(s[i]);
      if ch < 0 {
        assert Digit(rest[i - hlen - 1]) < 0;
        return None;
      }
      ReadNext(hrp, rest, i - hlen - 1);
      chk := Step(chk, ch);
      if i < |s| - 6 {
        data := data + [ch];
      }
      i := i + 1;
    }
    assert rest[..|rest|] == rest;
    r := if chk != 1 then None else Some(Content(hrp, data));
  }

  lemma ReadNext(hrp: string, rest: string, j: nat)
    requires j < |rest| && InAlphabet(rest[..j]) && Digit(rest[j]) >= 0
    ensures InAlphabet(rest[..j + 1]) && Values(rest[..j + 1]) == Values(rest[..j]) + [Digit(rest[j])]
    ensures State(hrp, Values(rest[..j + 1])) == Step(State(hrp, Values(rest[..j])), Digit(rest[j]))
  {
    hide Feed, Step, State, Digit;
    assert rest[..j + 1] == rest[..j] + [rest[j]];
    var vs, vs' := Values(rest[..j]), Values(rest[..j + 1]);
    assert vs' == vs + [Digit(rest[j])] && vs'[..j] == vs && vs'[..j + 1] == vs';
    FeedData(hrp, vs', j);
  }

  function Kept(vs: seq<Sym>, k: nat): (r: seq<Sym>) {
    if |vs| <= k then vs else vs[..k]
  }

  lemma WellFormedFacts(s: string)
    requires WellFormed(s)
    ensures 0 < Separator(s) <= |s| - 7
  {}

  lemma ScanStart(s: string)
    ensures Scanned(s, 0, 0, false, false)
  {
    assert s[..0] == [];
  }

  lemma CaseSplit(c: char)
    ensures !(IsLower(c) && IsUpper(c)) && !(IsLower('1') || IsUpper('1'))
  {}

  lemma SameLowBits(c: char)
    ensures LowBits(ToLower(c)) == LowBits(c)
  {
    LowerShape(c);
  }

  lemma ScanEnd(s: string, slen: nat, hlen: nat, lower: bool, upper: bool)
    requires Scanned(s, slen, hlen, lower, upper) && slen == |s|
    ensures hlen == Separator(s) && lower == HasLower(s) && upper == HasUpper(s)
    ensures forall i :: 0 <= i < |s| ==> Printable(s[i])
  {
    assert s[..slen] == s;
  }

  // ----- addresses

  datatype Address = Address(hrp: string, version: byte, hash: seq<byte>)

  lemma ByteRadix(x: seq<byte>)
    ensures InRadix(x, Bits(8))
  {
    assert Power2(8) == 256;
  }

  lemma SymRadix(x: seq<Sym>)
    ensures InRadix(x, Bits(5))
  {
    assert Power2(5) == 32;
  }

  lemma RadixSym(x: seq<int>)
    requires InRadix(x, Bits(5))
    ensures forall i :: 0 <= i < |x| ==> 0 <= x[i] < 32
  {
    assert Power2(5) == 32;
  }

  lemma RadixByte(x: seq<int>)
    requires InRadix(x, Bits(8))
    ensures forall i :: 0 <= i < |x| ==> 0 <= x[i] < 256
  {
    assert Power2(8) == 256;
  }

  /** The witness program in 5-bit groups. */
  ghost function Groups(hash: seq<byte>): (d: seq<Sym>)
    ensures 8 * |hash| <= 5 * |d| < 8 * |hash| + 5
  {
    ByteRadix(hash);
    UnpadUndoesPad(hash);
    RadixSym(Regrouped(hash, 8, 5, true).value);
    Regrouped(hash, 8, 5, true).value
  }

  ghost function Encoded(a: Address): (r: Option<string>) {
    if a.version > 16 || |a.hash| < 2 || |a.hash| > 40 then None
    else Serialized(a.hrp, [a.version] + Groups(a.hash))
  }

  ghost function Program(d: seq<Sym>): (r: Option<seq<byte>>) {
    SymRadix(d);
    var x := Regrouped(d, 5, 8, false);
    if x.None? then None else
      PadUndoesUnpad(d, x.value);
      RadixByte(x.value);
      Some(x.value)
  }

  ghost function Decoded(s: string): (r: Option<Address>) {
    match Deserialized(s)
    case None => None
    case Some(c) =>
      if |c.data| == 0 || |c.data| > 65 || c.data[0] > 16 then None else
      match Program(c.data[1..])
      case None => None
      case Some(x) => if |x| < 2 || |x| > 40 then None else Some(Address(c.hrp, c.data[0], x))
  }

  lemma ProgramOfGroups(hash: seq<byte>)
    ensures Program(Groups(hash)) == Some(hash)
  {
    hide Regrouped;
    ByteRadix(hash);
    UnpadUndoesPad(hash);
  }

  lemma GroupsOfProgram(d: seq<Sym>, x: seq<byte>)
    requires Program(d) == Some(x)
    ensures Groups(x) == d
  {
    hide Regrouped;
    SymRadix(d);
    PadUndoesUnpad(d, x);
    ByteRadix(x);
  }

  /** Decoding returns the triple that was encoded, for every encodable one. */
  lemma DecodeUndoesEncode(a: Address, s: string)
    requires Encoded(a) == Some(s)
    ensures Decoded(s) == Some(a)
  {
    hide Groups, Program, Serialized, Deserialized;
    var d := [a.version as int] + Groups(a.hash);
    DeserializeUndoesSerialize(a.hrp, d, s);
    ProgramOfGroups(a.hash);
    assert d[1..] == Groups(a.hash);
  }

  /** An accepted address is, in lower case, the encoding of what it decodes to. */
  lemma EncodeUndoesDecode(s: string, a: Address)
    requires Decoded(s) == Some(a)
    ensures Encoded(a) == Some(Lower(s))
  {
    hide Groups, Program, Serialized, Deserialized;
    SerializeUndoesDeserialize(s);
    var c := Deserialized(s).value;
    GroupsOfProgram(c.data[1..], a.hash);
    assert c.data == [c.data[0]] + c.data[1..];
  }

  method Encode(a: Address) returns (r: Option<string>)
    ensures r == Encoded(a)
  {
    hide Regrouped, Serialized, Bits, InRadix;
    if a.version > 16 {
      return None;
    }
    if |a.hash| < 2 || |a.hash| > 40 {
      return None;
    }
    ByteRadix(a.hash);
    var data := ConvertBits(a.hash, 8, 5, true);
    UnpadUndoesPad(a.hash);
    RadixSym(data.value);
    var all: seq<byte> := [a.version] + data.value;
    assert |all| <= 65;
    r := Serialize(a.hrp, all);
  }

  method Decode(s: string) returns (r: Option<Address>)
    ensures r == Decoded(s)
  {
    hide Regrouped, Deserialized, Bits, InRadix;
    var c := Deserialize(s);
    if c.None? {
      return None;
    }
    var data := c.value.data;
    if |data| == 0 || |data| > 65 {
      return None;
    }
    if data[0] > 16 {
      return None;
    }
    SymRadix(data[1..]);
    var hash := ConvertBits(data[1..], 5, 8, false);
    if hash.None? {
      return None;
    }
    PadUndoesUnpad(data[1..], hash.value);
    RadixByte(hash.value);
    if |hash.value| < 2 || |hash.value| > 40 {
      return None;
    }
    r := Some(Address(c.value.hrp, data[0], hash.value));
  }
}
