/** Base58 encoding: radix conversion in a digit buffer, with leading zeros kept apart. */
module Base58 {
  import opened Arith
  import opened Radix
  import opened Wire

  // ----- the buffer is always large enough

  lemma Pow58()
    ensures Pow(58, 1) == 58 && Pow(58, 2) == 3364 && Pow(58, 3) == 195112 && Pow(58, 5) == 656356768
    ensures Pow(58, 6) == 38068692544 && Pow(58, 7) == 2207984167552 && Pow(58, 9) == 7427658739644928
    ensures Pow(58, 10) == 430804206899405824 && Pow(58, 11) == 24986644000165537792
  {
    PowAdd(58, 3, 2);
    PowAdd(58, 5, 2);
    PowAdd(58, 7, 2);
  }

  lemma Pow256()
    ensures Pow(256, 1) == 0x100 && Pow(256, 2) == 0x1_0000 && Pow(256, 3) == 0x100_0000
    ensures Pow(256, 4) == 0x1_0000_0000 && Pow(256, 5) == 0x100_0000_0000 && Pow(256, 6) == 0x1_0000_0000_0000
    ensures Pow(256, 7) == 0x100_0000_0000_0000 && Pow(256, 8) == 0x1_0000_0000_0000_0000
  {
    PowAdd(256, 2, 2);
    PowAdd(256, 4, 4);
    PowAdd(256, 4, 3);
  }

  function EncodedSize(n: nat): (size: nat) {
    n * 138 / 100 + 1
  }

  function DecodedSize(n: nat): (size: nat) {
    n * 733 / 1000 + 1
  }

  /** 256^n < 58^size: eight bytes fit eleven digits, and the size grows by eleven every eight bytes. */
  lemma {:induction false} EncodeBufferFits(n: nat)
    ensures Pow(256, n) < Pow(58, EncodedSize(n))
  {
    hide Pow;
    Pow58();
    Pow256();
    if n < 8 {
      PowZero(256);
      assert n == 0 || n == 1 || n == 2 || n == 3 || n == 4 || n == 5 || n == 6 || n == 7;
    } else {
      EncodeBufferFits(n - 8);
      var k := EncodedSize(n - 8);
      PowAdd(256, n - 8, 8);
      PowAdd(58, k, 11);
      ProductOrder(Pow(256, n - 8), Pow(58, k), Pow(256, 8), Pow(58, 11));
      PowMono(58, k + 11, EncodedSize(n));
    }
  }

  lemma ProductOrder(a: nat, b: nat, c: nat, d: nat)
    requires a < b && c < d
    ensures a * c < b * d
  {
    MulMono(a, b, c);
    MulStrict(c, d, b);
  }

  lemma MorePow58()
    ensures Pow(58, 4) == 11316496 && Pow(58, 8) == 128063081718016 && Pow(58, 12) == 1449225352009601191936
    ensures Pow(58, 13) == 84055070416556869132288 && Pow(58, 14) == 4875194084160298409672704
    ensures Pow(58, 15) == 282761256881297307761016832
  {
    Pow58();
    PowAdd(58, 3, 1);
    PowAdd(58, 7, 1);
    PowAdd(58, 11, 1);
    PowAdd(58, 12, 1);
    PowAdd(58, 13, 1);
    PowAdd(58, 14, 1);
  }

  lemma MorePow256()
    ensures Pow(256, 9) == 0x100_0000_0000_0000_0000 && Pow(256, 10) == 0x1_0000_0000_0000_0000_0000
    ensures Pow(256, 11) == 0x100_0000_0000_0000_0000_0000
  {
    Pow256();
    PowAdd(256, 8, 1);
    PowAdd(256, 8, 2);
    PowAdd(256, 8, 3);
  }

  /** The table for fewer than fifteen characters. */
  lemma DecodeFitsSmall(n: nat)
    requires n < 15
    ensures Pow(58, n) < Pow(256, DecodedSize(n))
  {
    hide Pow;
    Pow58();
    MorePow58();
    Pow256();
    MorePow256();
    PowZero(58);
    if n < 8 {
      assert n == 0 || n == 1 || n == 2 || n == 3 || n == 4 || n == 5 || n == 6 || n == 7;
    } else {
      assert n == 8 || n == 9 || n == 10 || n == 11 || n == 12 || n == 13 || n == 14;
    }
  }

  lemma {:induction false} FifteenBlocks(a: nat)
    ensures Pow(58, 15 * a) <= Pow(256, 11 * a) && (a > 0 ==> Pow(58, 15 * a) < Pow(256, 11 * a))
  {
    hide Pow;
    if a == 0 {
      PowZero(58);
      PowZero(256);
    } else {
      FifteenBlocks(a - 1);
      MorePow58();
      MorePow256();
      PowAdd(58, 15 * (a - 1), 15);
      PowAdd(256, 11 * (a - 1), 11);
      var x, y := Pow(58, 15 * (a - 1)), Pow(256, 11 * (a - 1));
      assert x * Pow(58, 15) < y * Pow(256, 11) by {
        MulMono(x, y, Pow(58, 15));
        MulStrict(Pow(58, 15), Pow(256, 11), y);
      }
    }
  }

  /** Fewer than 71 characters: whole blocks of fifteen, and a rest from the table. */
  lemma DecodeFitsMedium(n: nat)
    requires n < 71
    ensures Pow(58, n) < Pow(256, DecodedSize(n))
  {
    hide Pow;
    var a, r := n / 15, n % 15;
    FifteenBlocks(a);
    if r == 0 {
      assert n == 15 * a;
      if a == 0 { DecodeFitsSmall(0); } else { assert DecodedSize(n) == 11 * a; }
    } else {
      DecodeFitsSmall(r);
      PowAdd(58, 15 * a, r);
      PowAdd(256, 11 * a, DecodedSize(r));
      MediumSize(a, r);
      MulMono(Pow(58, 15 * a), Pow(256, 11 * a), Pow(58, r));
      MulStrict(Pow(58, r), Pow(256, DecodedSize(r)), Pow(256, 11 * a));
    }
  }

  lemma MediumSize(a: nat, r: nat)
    requires a <= 4 && 0 < r < 15 && 15 * a + r < 71
    ensures DecodedSize(15 * a + r) == 11 * a + DecodedSize(r)
  {}

  lemma SeventyOne()
    ensures Pow(58, 71) < Pow(256, 52)
  {
    hide Pow;
    Pow58();
    MorePow58();
    Pow256();
    MorePow256();
    PowAdd(58, 15, 15);
    PowAdd(58, 30, 30);
    PowAdd(58, 60, 11);
    PowAdd(256, 11, 2);
    PowAdd(256, 13, 13);
    PowAdd(256, 26, 26);
  }

  /** 58^n < 256^size, for every n: 71 characters fit 52 bytes. */
  lemma {:induction false} DecodeBufferFits(n: nat)
    ensures Pow(58, n) < Pow(256, DecodedSize(n))
  {
    hide Pow;
    if n < 71 {
      DecodeFitsMedium(n);
    } else {
      DecodeBufferFits(n - 71);
      SeventyOne();
      var k := DecodedSize(n - 71);
      PowAdd(58, n - 71, 71);
      PowAdd(256, k, 52);
      ProductOrder(Pow(58, n - 71), Pow(256, k), Pow(58, 71), Pow(256, 52));
      PowMono(256, k + 52, DecodedSize(n));
    }
  }

  // ----- multiply and add, in the buffer

  /** One digit `d` of weight `p`: `t = c + d m` is split into a new digit and a new carry. */
  lemma DigitStep(b: int, m: int, add: int, p: int, ns: int, os: int, c: int, d: int, t: int, d': int, c': int)
    requires ns + c * p == os * m + add && t == c + d * m && t == c' * b + d'
    ensures d' * p + ns + c' * (b * p) == (d * p + os) * m + add
  {
    assert d' * p + c' * (b * p) == (c' * b + d') * p;
    assert (c + d * m) * p == c * p + d * p * m;
    assert (d * p + os) * m == d * p * m + os * m;
  }

  lemma CarryOut(c: nat, p: nat, n: int, total: int)
    requires n + c * p == total && n >= 0 && total < p
    ensures c == 0
  {
    if c > 0 { MulMono(1, c, p); }
  }

  /** The digits in use are the low `length` ones, and the highest of them is not zero. */
  ghost predicate InUse(s: seq<int>, b: nat, length: nat) {
    && length <= |s| && InRadix(s, b)
    && (forall i :: 0 <= i < |s| - length ==> s[i] == 0)
    && (length > 0 ==> s[|s| - length] != 0)
  }

  /** What the inner loop has done to the low `j` digits, with `carry` still to go above them. */
  ghost predicate Multiplied(s: seq<int>, was: seq<int>, b: nat, m: nat, add: nat, j: nat, carry: nat, length: nat) {
    && |s| == |was| && j <= |s| && InRadix(s, b)
    && s[..|s| - j] == was[..|s| - j]
    && Number(b, s[|s| - j..]) + carry * Pow(b, j) == Number(b, was[|s| - j..]) * m + add
    && (j >= length && j > 0 && carry == 0 ==> s[|s| - j] != 0)
  }

  lemma MultipliedStep(s: seq<int>, was: seq<int>, b: nat, m: nat, add: nat, j: nat, carry: nat, length: nat)
    requires b >= 2 && m >= 1 && InUse(was, b, length)
    requires Multiplied(s, was, b, m, add, j, carry, length) && j < |s| && (carry != 0 || j < length)
    ensures var k := |s| - 1 - j; var t := carry + s[k] * m;
            s[k] >= 0 && t >= 0 && 0 <= t % b && 0 <= t / b
            && Multiplied(s[k := t % b], was, b, m, add, j + 1, t / b, length)
  {
    hide Number, Pow;
    var k := |s| - 1 - j;
    assert s[k] == s[..k + 1][k] == was[k];
    var d := was[k];
    MulMono(0, d, m);
    var t := carry + d * m;
    SplitDigit(t, b);
    var s' := s[k := t % b];
    assert s'[..k] == was[..k];
    assert s'[k..] == [t % b] + s[k + 1..] && was[k..] == [d] + was[k + 1..];
    NumberCons(b, t % b, s[k + 1..]);
    NumberCons(b, d, was[k + 1..]);
    PowSucc(b, j);
    DigitStep(b, m, add, Pow(b, j), Number(b, s[k + 1..]), Number(b, was[k + 1..]), carry, d, t, t % b, t / b);
    TopDigit(t, b, d, m, carry, j, length);
    assert j + 1 == length ==> d != 0;
  }

  /** A digit that passes no carry on keeps everything it stood for. */
  lemma TopDigit(t: nat, b: nat, d: nat, m: nat, carry: nat, j: nat, length: nat)
    requires b >= 2 && m >= 1 && t == carry + d * m && t == t / b * b + t % b
    requires (carry != 0 || j < length) && (j + 1 == length ==> d != 0)
    ensures j + 1 >= length && t / b == 0 ==> t % b != 0
  {
    MulMono(1, m, d);
  }

  /** The inner loop of both directions: the number in the buffer times `m`, plus `add`. The bound on
      the result is what makes the final carry zero. */
  method MultiplyAdd(buf: array<int>, b: nat, m: nat, add: nat, length: nat) returns (length': nat)
    requires b >= 2 && m >= 1 && InUse(buf[..], b, length)
    requires Number(b, buf[..]) * m + add < Pow(b, buf.Length)
    modifies buf
    ensures InUse(buf[..], b, length') && Number(b, buf[..]) == old(Number(b, buf[..])) * m + add
  {
    hide Number, Pow, Multiplied;
    var size := buf.Length;
    ghost var was := buf[..];
    var carry, j := add, 0;
    MultipliedStart(was, b, m, add, length);
    while j < size
      invariant 0 <= j <= size && carry >= 0 && Multiplied(buf[..], was, b, m, add, j, carry, length)
    {
      if carry == 0 && j >= length {
        break;
      }
      MultipliedStep(buf[..], was, b, m, add, j, carry, length);
      var k := size - 1 - j;
      carry := carry + buf[k] * m;
      ghost var next := buf[..][k := carry % b];
      buf[k] := carry % b;
      assert buf[..] == next;
      carry := carry / b;
      j := j + 1;
    }
    MultipliedEnd(buf[..], was, b, m, add, j, carry, length);
    assert carry == 0;
    length' := j;
  }

  lemma MultipliedStart(was: seq<int>, b: nat, m: nat, add: nat, length: nat)
    requires InRadix(was, b)
    ensures Multiplied(was, was, b, m, add, 0, add, length)
  {
    hide Number;
    assert was[|was|..] == [];
    NumberEmpty(b);
  }

  lemma MultipliedEnd(s: seq<int>, was: seq<int>, b: nat, m: nat, add: nat, j: nat, carry: nat, length: nat)
    requires b >= 2 && InUse(was, b, length) && Multiplied(s, was, b, m, add, j, carry, length)
    requires Number(b, was) * m + add < Pow(b, |s|)
    requires j == |s| || (carry == 0 && j >= length)
    ensures carry == 0 && InUse(s, b, j) && Number(b, s) == Number(b, was) * m + add
  {
    hide Number, Pow;
    var k := |s| - j;
    if j == |s| {
      assert s[k..] == s && was[k..] == was;
      NumberNonneg(b, s);
      CarryOut(carry, Pow(b, j), Number(b, s), Number(b, was) * m + add);
    }
    assert forall i :: 0 <= i < k ==> s[i] == s[..k][i] && was[i] == was[..k][i];
    LeadingZeros(b, s, k);
    LeadingZeros(b, was, k);
    assert 0 * Pow(b, j) == 0;
  }

  // ----- the alphabet

  function Symbol(d: nat): (c: char)
    requires d < 58
  {
    if d < 9 then '1' + d as char
    else if d < 17 then 'A' + (d - 9) as char
    else if d < 22 then 'J' + (d - 17) as char
    else if d < 33 then 'P' + (d - 22) as char
    else if d < 44 then 'a' + (d - 33) as char
    else 'm' + (d - 44) as char
  }

  const ALPHABET: string := "123456789" + "ABCDEFGH" + "JKLMN" + "PQRSTUVWXYZ" + "abcdefghijk" + "mnopqrstuvwxyz"

  /** Place `k` of a run of characters. */
  lemma RunAt(first: char, run: string, d: nat)
    requires |run| <= 14 && d < |run| && forall i :: 0 <= i < |run| ==> run[i] as int == first as int + i
    requires first as int + d < 0x80
    ensures run[d] == first + d as char
  {}

  lemma SymbolIs(d: nat)
    requires d < 58
    ensures |ALPHABET| == 58 && Symbol(d) == ALPHABET[d]
  {
    if d < 9 {
      RunAt('1', "123456789", d);
    } else if d < 17 {
      RunAt('A', "ABCDEFGH", d - 9);
    } else if d < 22 {
      RunAt('J', "JKLMN", d - 17);
    } else if d < 33 {
      RunAt('P', "PQRSTUVWXYZ", d - 22);
    } else if d < 44 {
      RunAt('a', "abcdefghijk", d - 33);
    } else {
      RunAt('m', "mnopqrstuvwxyz", d - 44);
    }
  }

  function Digit(c: char): (d: int)
    ensures -1 <= d < 58
  {
    if '1' <= c <= '9' then (c - '1') as int
    else if 'A' <= c <= 'H' then (c - 'A') as int + 9
    else if 'J' <= c <= 'N' then (c - 'J') as int + 17
    else if 'P' <= c <= 'Z' then (c - 'P') as int + 22
    else if 'a' <= c <= 'k' then (c - 'a') as int + 33
    else if 'm' <= c <= 'z' then (c - 'm') as int + 44
    else -1
  }

  lemma DigitOfSymbol(d: nat)
    requires d < 58
    ensures Digit(Symbol(d)) == d
  {}

  lemma SymbolOfDigit(c: char)
    requires Digit(c) >= 0
    ensures Symbol(Digit(c)) == c
  {}

  predicate ValidText(s: string) {
    forall i :: 0 <= i < |s| ==> Digit(s[i]) >= 0
  }

  ghost function Text(d: seq<int>): (s: string)
    requires InRadix(d, 58)
    ensures |s| == |d| && forall i :: 0 <= i < |s| ==> s[i] == Symbol(d[i])
  {
    seq(|d|, i requires 0 <= i < |d| => Symbol(d[i]))
  }

  ghost function Digits(s: string): (d: seq<int>)
    requires ValidText(s)
    ensures |d| == |s| && InRadix(d, 58) && forall i :: 0 <= i < |s| ==> d[i] == Digit(s[i])
  {
    seq(|s|, i requires 0 <= i < |s| => Digit(s[i]))
  }

  // ----- the encoding

  /** How many copies of `v` lead `s`. */
  function Leading<T(==)>(s: seq<T>, v: T): (k: nat)
    ensures k <= |s| && (forall i :: 0 <= i < k ==> s[i] == v) && (k < |s| ==> s[k] != v)
  {
    if s == [] || s[0] != v then 0 else 1 + Leading(s[1..], v)
  }

  lemma LeadingIs<T>(s: seq<T>, v: T, k: nat)
    requires k <= |s| && (forall i :: 0 <= i < k ==> s[i] == v) && (k < |s| ==> s[k] != v)
    ensures Leading(s, v) == k
  {
    if k > 0 { LeadingIs(s[1..], v, k - 1); }
  }

  ghost function Copies<T>(v: T, k: nat): (s: seq<T>)
    ensures |s| == k && forall i :: 0 <= i < k ==> s[i] == v
  {
    seq(k, i => v)
  }

  ghost function Magnitude(x: seq<byte>): (n: nat) {
    NumberNonneg(256, x[Leading(x, 0)..]);
    Number(256, x[Leading(x, 0)..])
  }

  /** A `1` for every leading zero byte, then the number in radix 58. */
  ghost function Encoded(x: seq<byte>): (s: string) {
    NumeralNumber(58, Magnitude(x));
    Copies('1', Leading(x, 0)) + Text(Numeral(58, Magnitude(x)))
  }

  ghost function DecodedMagnitude(s: string): (n: nat)
    requires ValidText(s[Leading(s, '1')..])
  {
    NumberNonneg(58, Digits(s[Leading(s, '1')..]));
    Number(58, Digits(s[Leading(s, '1')..]))
  }

  ghost function Decoded(s: string): (x: Option<seq<int>>) {
    if |s| > 1024 || !ValidText(s) then None
    else Some(Copies(0, Leading(s, '1')) + Numeral(256, DecodedMagnitude(s)))
  }

  lemma EncodedLength(x: seq<byte>)
    ensures |Encoded(x)| <= Leading(x, 0) + EncodedSize(|x| - Leading(x, 0))
  {
    hide Number, Pow, Numeral;
    var z := Leading(x, 0);
    var t := x[z..];
    EncodeBufferFits(|t|);
    NumberBound(256, t);
    NumeralLength(58, Magnitude(x), EncodedSize(|t|));
  }

  lemma DecodedLength(s: string)
    requires Decoded(s).Some?
    ensures |Decoded(s).value| <= Leading(s, '1') + DecodedSize(|s| - Leading(s, '1')) && InRadix(Decoded(s).value, 256)
  {
    hide Number, Pow, Numeral;
    var z := Leading(s, '1');
    var t := Digits(s[z..]);
    DecodeBufferFits(|t|);
    NumberBound(58, t);
    NumeralLength(256, DecodedMagnitude(s), DecodedSize(|t|));
    NumeralNumber(256, DecodedMagnitude(s));
  }

  lemma TextDigits(d: seq<int>)
    requires InRadix(d, 58)
    ensures ValidText(Text(d)) && Digits(Text(d)) == d
  {
    forall i | 0 <= i < |d| ensures Digit(Symbol(d[i])) == d[i] {
      DigitOfSymbol(d[i]);
    }
  }

  lemma DigitsText(s: string)
    requires ValidText(s)
    ensures Text(Digits(s)) == s
  {
    forall i | 0 <= i < |s| ensures Symbol(Digit(s[i])) == s[i] {
      SymbolOfDigit(s[i]);
    }
  }

  lemma DigitsOfOnes()
    ensures Digit('1') == 0
    ensures forall c :: Digit(c) == 0 ==> c == '1'
  {
    forall c | Digit(c) == 0 ensures c == '1' {
      SymbolOfDigit(c);
    }
  }

  lemma OnesThenText(z: nat, d: seq<int>)
    requires InRadix(d, 58) && NoLeadingZero(d)
    ensures var s := Copies('1', z) + Text(d);
            ValidText(s) && Leading(s, '1') == z && s[z..] == Text(d)
  {
    hide Digit, Symbol, Leading;
    var s := Copies('1', z) + Text(d);
    TextDigits(d);
    DigitsOfOnes();
    assert s[z..] == Text(d);
    ValidTail(s, z);
    if d != [] { assert Digit(Text(d)[0]) == Digits(Text(d))[0] == d[0]; }
    LeadingIs(s, '1', z);
  }

  /** Decoding undoes encoding, for every input the encoder accepts. */
  lemma DecodeUndoesEncode(x: seq<byte>)
    requires |x| <= 512
    ensures Decoded(Encoded(x)) == Some(x)
  {
    hide Number, Pow, Numeral, Digit, Symbol, Leading;
    EncodedLength(x);
    var z, n, s := Leading(x, 0), Magnitude(x), Encoded(x);
    var d := Numeral(58, n);
    NumeralNumber(58, n);
    TextDigits(d);
    OnesThenText(z, d);
    NumeralUnique(256, x[z..]);
    assert DecodedMagnitude(s) == n;
    assert Decoded(s).value == Copies(0, z) + x[z..] == x;
  }

  /** Encoding undoes decoding, for every text the decoder accepts: no two texts decode alike. */
  lemma EncodeUndoesDecode(s: string, x: seq<byte>)
    requires Decoded(s) == Some(x)
    ensures Encoded(x) == s
  {
    hide Number, Pow, Numeral, Digit, Symbol, Leading;
    DigitsOfOnes();
    var z, n := Leading(s, '1'), DecodedMagnitude(s);
    var d := Digits(s[z..]);
    NumeralNumber(256, n);
    assert x == Copies(0, z) + Numeral(256, n);
    LeadingIs(x, 0, z);
    assert x[z..] == Numeral(256, n);
    NumeralUnique(58, d);
    DigitsText(s[z..]);
    assert s == Copies('1', z) + s[z..];
  }

  /** What the encoder returns: it refuses more than 512 bytes, where the source aborts. */
  ghost function EncodeResult(x: seq<byte>): (r: Option<string>) {
    if |x| > 512 then None else Some(Encoded(x))
  }

  /** Encoding what an accepted text decodes to returns the text exactly when that is at most 512 bytes. */
  lemma ReencodeExactly(s: string, x: seq<byte>)
    requires Decoded(s) == Some(x)
    ensures EncodeResult(x) == Some(s) <==> |x| <= 512
  {
    hide Encoded, Decoded;
    EncodeUndoesDecode(s, x);
  }

  /** Every text of `n` ones, up to the decoder's limit, stands for `n` zero bytes, so there are accepted
      texts the encoder refuses to give back. */
  lemma TooLongToReencode(n: nat)
    requires 512 < n <= 1024
    ensures var s := Copies('1', n); Decoded(s) == Some(Copies(0, n)) && EncodeResult(Copies(0, n)) == None
  {
    hide Number, Pow, Digit, Symbol, Leading;
    var s := Copies('1', n);
    DigitsOfOnes();
    LeadingIs(s, '1', n);
    assert s[n..] == [];
    assert Digits([]) == [];
    NumberEmpty(58);
    NumeralEmpty(256);
    assert Decoded(s).value == Copies(0, n) + [] == Copies(0, n);
  }

  /** The number of the first `i` digits never outgrows the buffer for all of them. */
  lemma PrefixFits(b: nat, s: seq<int>, i: nat, c: nat, size: nat)
    requires b >= 1 && i < |s| && InRadix(s, b) && Pow(b, |s|) <= Pow(c, size)
    ensures s[..i + 1] == s[..i] + [s[i]]
    ensures Number(b, s[..i + 1]) == Number(b, s[..i]) * b + s[i] < Pow(c, size)
  {
    hide Number, Pow;
    assert s[..i + 1] == s[..i] + [s[i]];
    NumberSnoc(b, s[..i], s[i]);
    NumberBound(b, s[..i + 1]);
    PowMono(b, i + 1, |s|);
  }

  /** The digits in use are the canonical ones. */
  lemma InUseNumeral(s: seq<int>, b: nat, length: nat)
    requires b >= 2 && InUse(s, b, length)
    ensures Number(b, s) >= 0 && s[|s| - length..] == Numeral(b, Number(b, s))
  {
    hide Number, Pow, Numeral;
    LeadingZeros(b, s, |s| - length);
    NumeralUnique(b, s[|s| - length..]);
  }

  lemma ZeroBuffer(b: nat, s: seq<int>)
    requires b >= 1 && forall i :: 0 <= i < |s| ==> s[i] == 0
    ensures InUse(s, b, 0) && Number(b, s) == 0
  {
    LeadingZeros(b, s, |s|);
  }

  /** The buffer of the encoder, filled byte by byte: the digits in use are those of the number. */
  method EncodeDigits(tail: seq<byte>) returns (d: seq<int>)
    ensures Number(256, tail) >= 0 && d == Numeral(58, Number(256, tail)) && InRadix(d, 58)
  {
    hide Number, Pow, Numeral, InUse;
    var size := |tail| * 138 / 100 + 1;
    EncodeBufferFits(|tail|);
    var b58 := new int[size](_ => 0);
    var length: nat, i := 0, 0;
    ZeroBuffer(58, b58[..]);
    NumberEmpty(256);
    while i < |tail|
      invariant 0 <= i <= |tail| && InUse(b58[..], 58, length)
      invariant Number(58, b58[..]) == Number(256, tail[..i])
    {
      PrefixFits(256, tail, i, 58, size);
      length := MultiplyAdd(b58, 58, 256, tail[i], length);
      i := i + 1;
    }
    assert tail[..i] == tail;
    InUseNumeral(b58[..], 58, length);
    InUseFacts(b58[..], 58, length);
    i := size - length;
    while i < size && b58[i] == 0
      invariant size - length <= i <= size && forall k :: size - length <= k < i ==> b58[k] == 0
    {
      i := i + 1;
    }
    InUseTop(b58[..], 58, length);
    d := b58[i..];
  }

  lemma InUseFacts(s: seq<int>, b: nat, length: nat)
    requires InUse(s, b, length)
    ensures length <= |s| && InRadix(s, b)
  {}

  lemma InUseTop(s: seq<int>, b: nat, length: nat)
    requires InUse(s, b, length)
    ensures length > 0 ==> s[|s| - length] != 0
  {}

  /** `None` where the source aborts. */
  method Encode(x: seq<byte>) returns (r: Option<string>)
    ensures r == EncodeResult(x)
  {
    hide Number, Pow, Numeral, Digit, Symbol, Leading;
    if |x| > 512 {
      return None;
    }
    var zeroes := 0;
    while zeroes < |x| && x[zeroes] == 0
      invariant 0 <= zeroes <= |x| && forall k :: 0 <= k < zeroes ==> x[k] == 0
    {
      zeroes := zeroes + 1;
    }
    LeadingIs(x, 0, zeroes);
    var d := EncodeDigits(x[zeroes..]);
    var s: string, i := [], 0;
    while |s| < zeroes
      invariant s == Copies('1', |s|) && |s| <= zeroes
    {
      s := s + ['1'];
    }
    while i < |d|
      invariant 0 <= i <= |d| && s == Copies('1', zeroes) + Text(d[..i])
    {
      s := s + [Symbol(d[i])];
      i := i + 1;
      assert d[..i] == d[..i - 1] + [d[i - 1]];
    }
    assert d[..i] == d;
    r := Some(s);
  }

  /** The buffer of the decoder, sized by the whole text of length `n`; `None` at a bad symbol. */
  method DecodeDigits(tail: string, n: nat) returns (d: Option<seq<byte>>)
    requires |tail| <= n
    ensures d.Some? <==> ValidText(tail)
    ensures d.Some? ==> Number(58, Digits(tail)) >= 0 && d.value == Numeral(256, Number(58, Digits(tail)))
  {
    hide Number, Pow, Numeral, InUse, Digit, Symbol;
    var size := n * 733 / 1000 + 1;
    DecodeBufferFits(n);
    var b256 := new int[size](_ => 0);
    var length: nat, i := 0, 0;
    ZeroBuffer(256, b256[..]);
    NumberEmpty(58);
    while i < |tail|
      invariant 0 <= i <= |tail| && ValidText(tail[..i]) && InUse(b256[..], 256, length)
      invariant Number(256, b256[..]) == Number(58, Digits(tail[..i]))
    {
      var val := Digit(tail[i]);
      if val == -1 {
        return None;
      }
      assert tail[..i + 1] == tail[..i] + [tail[i]];
      DecodeStep(tail[..i], tail[i], n);
      length := MultiplyAdd(b256, 256, 58, val, length);
      i := i + 1;
    }
    assert tail[..i] == tail;
    InUseNumeral(b256[..], 256, length);
    InUseFacts(b256[..], 256, length);
    d := Some(b256[size - length..]);
  }

  lemma DecodeStep(s: string, c: char, n: nat)
    requires |s| < n && ValidText(s) && Digit(c) >= 0
    ensures ValidText(s + [c])
    ensures Number(58, Digits(s + [c])) == Number(58, Digits(s)) * 58 + Digit(c) < Pow(58, n)
  {
    hide Number, Pow, Digit;
    assert Digits(s + [c]) == Digits(s) + [Digit(c)];
    NumberSnoc(58, Digits(s), Digit(c));
    NumberBound(58, Digits(s + [c]));
    PowMono(58, |s| + 1, n);
  }

  method Decode(s: string) returns (r: Option<seq<byte>>)
    ensures r == Decoded(s)
  {
    hide Number, Pow, Numeral, Digit, Symbol, Leading;
    if |s| > 1024 {
      return None;
    }
    var zeroes := 0;
    while zeroes < |s| && s[zeroes] == '1'
      invariant 0 <= zeroes <= |s| && forall k :: 0 <= k < zeroes ==> s[k] == '1'
    {
      zeroes := zeroes + 1;
    }
    LeadingIs(s, '1', zeroes);
    DigitsOfOnes();
    ValidTail(s, zeroes);
    var d := DecodeDigits(s[zeroes..], |s|);
    if d.None? {
      return None;
    }
    var x: seq<byte> := [];
    while |x| < zeroes
      invariant x == Copies(0, |x|) && |x| <= zeroes
    {
      x := x + [0];
    }
    r := Some(x + d.value);
  }

  lemma ValidTail(s: string, k: nat)
    requires k <= |s| && (forall i :: 0 <= i < k ==> s[i] == '1')
    ensures ValidText(s) <==> ValidText(s[k..])
  {
    hide Digit;
    DigitsOfOnes();
    if ValidText(s[k..]) {
      forall i | 0 <= i < |s| ensures Digit(s[i]) >= 0 {
        if i >= k { assert s[i] == s[k..][i - k]; }
      }
    }
  }
}
