/** Numbers written in a radix, most significant digit first. */
module Radix {
  import opened Arith

  ghost predicate InRadix(s: seq<int>, b: nat) {
    forall i :: 0 <= i < |s| ==> 0 <= s[i] < b
  }

  ghost function Number(b: nat, s: seq<int>): (n: int) {
    if s == [] then 0 else Number(b, s[..|s| - 1]) * b + s[|s| - 1]
  }

  lemma NumberEmpty(b: nat)
    ensures Number(b, []) == 0
  {}

  lemma NumberSnoc(b: nat, s: seq<int>, d: int)
    ensures Number(b, s + [d]) == Number(b, s) * b + d
  {
    assert (s + [d])[..|s|] == s;
  }

  lemma ConsStep(b: int, d: int, p: int, n: int, e: int)
    ensures (d * p + n) * b + e == d * (b * p) + (n * b + e)
  {
    assert (d * p + n) * b == d * (b * p) + n * b;
  }

  lemma {:induction false} NumberCons(b: nat, d: int, s: seq<int>)
    ensures Number(b, [d] + s) == d * Pow(b, |s|) + Number(b, s)
  {
    hide Number, Pow;
    if s == [] {
      assert [d] + s == [] + [d];
      NumberSnoc(b, [], d);
      NumberEmpty(b);
      PowZero(b);
    } else {
      var s', e := s[..|s| - 1], s[|s| - 1];
      NumberCons(b, d, s');
      assert s == s' + [e] && [d] + s == ([d] + s') + [e];
      NumberSnoc(b, s', e);
      NumberSnoc(b, [d] + s', e);
      PowSucc(b, |s'|);
      ConsStep(b, d, Pow(b, |s'|), Number(b, s'), e);
    }
  }

  lemma {:induction false} NumberBound(b: nat, s: seq<int>)
    requires InRadix(s, b)
    ensures 0 <= Number(b, s) < Pow(b, |s|) || (s == [] && Number(b, s) == 0)
  {
    if s != [] {
      var s', e := s[..|s| - 1], s[|s| - 1];
      NumberBound(b, s');
      hide Pow, Number;
      PowSucc(b, |s'|);
      PowZero(b);
      assert s == s' + [e];
      NumberSnoc(b, s', e);
      BoundStep(b, Number(b, s'), Pow(b, |s'|), e);
    }
  }

  lemma BoundStep(b: int, n: int, p: int, e: int)
    requires 0 <= n < p && 0 <= e < b
    ensures 0 <= n * b + e < b * p
  {
    MulMono(n + 1, p, b);
    assert (n + 1) * b == n * b + b;
    MulMono(0, n, b);
  }

  /** The digits of a number without leading zeros. */
  ghost function Numeral(b: nat, n: nat): (s: seq<int>)
    requires b >= 2
    decreases n
  {
    if n == 0 then [] else
      DivShrinks(n, b);
      Numeral(b, n / b) + [n % b]
  }

  lemma DivShrinks(n: nat, b: nat)
    requires n > 0 && b >= 2
    ensures 0 <= n / b < n
  {
    var q, r := n / b, n % b;
    assert n == q * b + r;
    MulMono(2, b, q);
  }

  predicate NoLeadingZero(s: seq<int>) {
    s == [] || s[0] != 0
  }

  /** A digit string without leading zeros is determined by its number. */
  lemma {:induction false} NumeralUnique(b: nat, s: seq<int>)
    requires b >= 2 && InRadix(s, b) && NoLeadingZero(s)
    ensures Number(b, s) >= 0 && s == Numeral(b, Number(b, s)) && (s != [] ==> Number(b, s) > 0)
  {
    if s != [] {
      var s', e := s[..|s| - 1], s[|s| - 1];
      NumeralUnique(b, s');
      hide Pow;
      var n := Number(b, s');
      DivModUnique(n * b + e, b, n, e);
      assert n * b + e > 0 by { if n > 0 { MulMono(1, n, b); } }
      assert s == s' + [e];
    }
  }

  lemma SplitDigit(t: nat, b: nat)
    requires b >= 2
    ensures 0 <= t % b < b && 0 <= t / b && t == t / b * b + t % b
  {}

  lemma NumeralStep(b: nat, n: nat, q: nat, r: nat)
    requires b >= 2 && n > 0 && q == n / b && r == n % b
    ensures Numeral(b, n) == Numeral(b, q) + [r] && q < n && n == q * b + r && r < b && (q == 0 ==> r > 0)
  {
    DivShrinks(n, b);
    QuotientAndRest(n, b, q, r);
  }

  lemma QuotientAndRest(n: nat, b: nat, q: nat, r: nat)
    requires b >= 2 && n > 0 && q == n / b && r == n % b
    ensures n == q * b + r && (q == 0 ==> r > 0)
  {}

  lemma {:induction false} NumeralNumber(b: nat, n: nat)
    requires b >= 2
    ensures InRadix(Numeral(b, n), b) && NoLeadingZero(Numeral(b, n)) && Number(b, Numeral(b, n)) == n
    ensures n > 0 ==> Numeral(b, n) != []
    decreases n
  {
    NumberEmpty(b);
    if n > 0 {
      var q, r := n / b, n % b;
      NumeralStep(b, n, q, r);
      NumeralNumber(b, q);
      NumberSnoc(b, Numeral(b, q), r);
      if q == 0 { NumeralEmpty(b); }
      hide Number, Numeral, Pow;
    } else {
      NumeralEmpty(b);
      hide Number, Numeral, Pow;
    }
  }

  lemma NumeralEmpty(b: nat)
    requires b >= 2
    ensures Numeral(b, 0) == []
  {}

  lemma {:induction false} NumeralLength(b: nat, n: nat, k: nat)
    requires b >= 2 && n < Pow(b, k)
    ensures |Numeral(b, n)| <= k
    decreases n
  {
    if n > 0 {
      DivShrinks(n, b);
      hide Pow;
      PowZero(b);
      PowSucc(b, k - 1);
      var q, p := n / b, Pow(b, k - 1);
      assert q * b <= n < p * b;
      MulCancelLess(q, p, b);
      NumeralLength(b, q, k - 1);
    }
  }

  lemma {:induction false} LeadingZeros(b: nat, s: seq<int>, k: nat)
    requires k <= |s| && forall i :: 0 <= i < k ==> s[i] == 0
    ensures Number(b, s) == Number(b, s[k..])
    decreases k
  {
    hide Number, Pow;
    if k > 0 {
      LeadingZeros(b, s, k - 1);
      assert s[k - 1..] == [0] + s[k..];
      NumberCons(b, 0, s[k..]);
      assert 0 * Pow(b, |s[k..]|) == 0;
    } else {
      assert s[0..] == s;
    }
  }

  lemma NumberNonneg(b: nat, s: seq<int>)
    requires InRadix(s, b)
    ensures Number(b, s) >= 0
  {
    hide Number, Pow;
    NumberBound(b, s);
  }
}
