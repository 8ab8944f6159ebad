/** Multi-limb natural numbers held in arrays, and the in-place primitives of the mpn layer.
    The library is built with 32-bit or 64-bit limbs; every result here holds for any limb
    width from 8 to 64 bits, those two included. */
module Limbs {
  import opened Arith

  type LimbWidth = w: nat | 8 <= w <= 64 witness 64

  const LIMB_BITS: LimbWidth

  /** The number of values a limb can take. */
  const B: nat := Pow(2, LIMB_BITS)

  const LIMB_MAX: nat := B - 1

  type Limb = x: nat | x < B witness 0

  lemma RadixFacts()
    ensures B >= 16 && B % 2 == 0
  {
    assert Pow(2, 4) == 16;
    PowAdd(2, 4, LIMB_BITS - 4);
    SixteenTimes(B, Pow(2, LIMB_BITS - 4));
  }

  lemma SixteenTimes(b: nat, p: nat)
    requires b == 16 * p && p >= 1
    ensures b >= 16 && b % 2 == 0
  {}

  /** The number a little-endian limb sequence denotes. */
  ghost function Value(s: seq<Limb>): (v: nat)
  {
    if |s| == 0 then 0 else Value(s[..|s| - 1]) + s[|s| - 1] * Pow(B, |s| - 1)
  }

  lemma ValueEmpty()
    ensures Value([]) == 0
  {}

  lemma ValueSnoc(s: seq<Limb>, x: Limb)
    ensures Value(s + [x]) == Value(s) + x * Pow(B, |s|)
  {
    assert (s + [x])[..|s|] == s;
  }

  lemma Shifted(p: int, v: int, x: int, q: int)
    ensures p * (v + x * q) == p * v + x * (p * q)
  {
    assert x * (p * q) == p * (x * q);
  }

  lemma {:induction false} ValueConcat(s: seq<Limb>, t: seq<Limb>)
    ensures Value(s + t) == Value(s) + Pow(B, |s|) * Value(t)
  {
    if t == [] {
      assert s + t == s;
    } else {
      var t', x := t[..|t| - 1], t[|t| - 1];
      ValueConcat(s, t');
      assert s + t == (s + t') + [x];
      ValueSnoc(s + t', x);
      PowAdd(B, |s|, |t'|);
      Shifted(Pow(B, |s|), Value(t'), x, Pow(B, |t'|));
    }
  }

  lemma ValueSingle(x: Limb)
    ensures Value([x]) == x
  {
    ValueSnoc([], x);
    assert [] + [x] == [x];
  }

  lemma ValueCons(x: Limb, s: seq<Limb>)
    ensures Value([x] + s) == x + B * Value(s)
  {
    ValueConcat([x], s);
    ValueSingle(x);
    assert Pow(B, 1) == B * Pow(B, 0);
  }

  lemma TopDigit(b: int, x: int, p: nat)
    requires x < b
    ensures x * p + p <= b * p
  {
    MulMono(x + 1, b, p);
    assert (x + 1) * p == x * p + p;
  }

  lemma {:induction false} ValueBound(s: seq<Limb>)
    ensures Value(s) < Pow(B, |s|)
  {
    if s != [] {
      ValueBound(s[..|s| - 1]);
      TopDigit(B, s[|s| - 1], Pow(B, |s| - 1));
    }
  }

  /** A number whose top limb is nonzero is at least the weight of that limb. */
  lemma ValueTop(s: seq<Limb>)
    requires |s| > 0 && s[|s| - 1] != 0
    ensures Value(s) >= Pow(B, |s| - 1)
  {
    MulMono(1, s[|s| - 1], Pow(B, |s| - 1));
  }

  lemma {:induction false} ValueZeros(s: seq<Limb>)
    requires forall i :: 0 <= i < |s| ==> s[i] == 0
    ensures Value(s) == 0
  {
    if s != [] { ValueZeros(s[..|s| - 1]); }
  }

  /** Cutting a window out of an array leaves the two ends in place. */
  lemma ValueSplit(s: seq<Limb>, k: nat)
    requires k <= |s|
    ensures Value(s) == Value(s[..k]) + Pow(B, k) * Value(s[k..])
  {
    assert s == s[..k] + s[k..];
    ValueConcat(s[..k], s[k..]);
  }

  // ----- one-limb operations (the portable carry and borrow detection)

  /** `[z, c] = x + y`: the wrapped sum is below an operand exactly on overflow. */
  function AddLimbs(x: Limb, y: Limb): (r: (Limb, Limb))
    ensures r.0 + r.1 * B == x + y && r.1 <= 1
  {
    var z: Limb := Wrap(x + y);
    (z, if z < y then 1 else 0)
  }

  /** `[z, c] = x - y`. */
  function SubLimbs(x: Limb, y: Limb): (r: (Limb, Limb))
    ensures r.0 - r.1 * B == x - y && r.1 <= 1
  {
    var z: Limb := Wrap(x - y);
    (z, if z > x then 1 else 0)
  }

  /** Reduction modulo the radix of a number at most one radix out of range. */
  function Wrap(x: int): (z: Limb)
    requires 0 - B <= x < 2 * B
  {
    if x < 0 then x + B else if x < B then x else x - B
  }

  /** Which is what unsigned arithmetic computes. */
  lemma WrapIsMod(x: int)
    requires 0 - B <= x < 2 * B
    ensures Wrap(x) == x % B
  {
    DivModUnique(x, B, if x < 0 then -1 else if x < B then 0 else 1, Wrap(x));
  }

  /** `[z, c] = x + y + c`. */
  function AddCarry(x: Limb, y: Limb, c: Limb): (r: (Limb, Limb))
    requires c <= 1
    ensures r.0 + r.1 * B == x + y + c && r.1 <= 1
  {
    var z: Limb := Wrap(y + c);
    var c' := if z < c then 1 else 0;
    var z': Limb := Wrap(z + x);
    (z', c' + if z' < x then 1 else 0)
  }

  /** `[z, c] = x - (y + c)`. */
  function SubBorrow(x: Limb, y: Limb, c: Limb): (r: (Limb, Limb))
    requires c <= 1
    ensures r.0 - r.1 * B == x - y - c && r.1 <= 1
  {
    var z: Limb := Wrap(y + c);
    var c' := if z < c then 1 else 0;
    var z': Limb := Wrap(x - z);
    (z', c' + if z' > x then 1 else 0)
  }

  lemma ProductBound(b: int, x: int, y: int)
    requires 0 <= x < b && 0 <= y < b
    ensures 0 <= x * y <= b * b - 2 * b + 1
  {
    MulMono2(x, b - 1, y, b - 1);
    assert (b - 1) * (b - 1) == b * b - 2 * b + 1;
  }

  lemma WideSplit(b: int, n: int)
    requires b > 1 && 0 <= n < b * b - b
    ensures 0 <= n / b <= b - 2 && 0 <= n % b < b && (n / b) * b + n % b == n
  {
    var q, r := n / b, n % b;
    assert q * b + r == n;
    assert (b - 1) * b == b * b - b;
    MulCancelLess(q, b - 1, b);
  }

  /** `[hi, lo] = x * y`. */
  function MulWide(x: Limb, y: Limb): (r: (Limb, Limb))
    ensures r.0 * B + r.1 == x * y && r.0 <= B - 2
  {
    RadixFacts();
    ProductBound(B, x, y);
    WideSplit(B, x * y);
    ((x * y) / B, (x * y) % B)
  }

  /** `[z, c] = x * y + c`. */
  function MulCarry(x: Limb, y: Limb, c: Limb): (r: (Limb, Limb))
    ensures r.0 + r.1 * B == x * y + c
  {
    var (hi, lo) := MulWide(x, y);
    var lo': Limb := Wrap(lo + c);
    (lo', hi + if lo' < c then 1 else 0)
  }

  /** A two-limb total below B^2 has a high limb in range. */
  lemma HighFits(b: int, hi: int, lo: int)
    requires b > 0 && 0 <= lo && hi * b + lo < b * b
    ensures hi < b
  {
    MulCancelLess(hi, b, b);
  }

  /** `[z, c] = z + x * y + c`: two carries, and the high limb still does not overflow. */
  function AddMulCarry(z: Limb, x: Limb, y: Limb, c: Limb): (r: (Limb, Limb))
    ensures r.0 + r.1 * B == z + x * y + c
  {
    var (hi, lo) := MulWide(x, y);
    var lo1: Limb := Wrap(lo + c);
    var hi1 := hi + if lo1 < c then 1 else 0;
    var lo2: Limb := Wrap(lo1 + z);
    var hi2 := hi1 + if lo2 < z then 1 else 0;
    assert hi2 < B by {
      ProductBound(B, x, y);
      TwoCarries(B, hi, if lo1 < c then 1 else 0, if lo2 < z then 1 else 0);
      HighFits(B, hi2, lo2);
    }
    TwoCarries(B, hi, if lo1 < c then 1 else 0, if lo2 < z then 1 else 0);
    (lo2, hi2)
  }

  lemma TwoCarries(b: int, hi: int, c: int, d: int)
    ensures (hi + c + d) * b == hi * b + c * b + d * b
  {}

  /** `[z, c] = z - (x * y + c)`. */
  function SubMulCarry(z: Limb, x: Limb, y: Limb, c: Limb): (r: (Limb, Limb))
    ensures r.0 - r.1 * B == z - x * y - c
  {
    var (hi, lo) := MulWide(x, y);
    var lo1: Limb := Wrap(lo + c);
    var hi1 := hi + if lo1 < c then 1 else 0;
    var lo2: Limb := Wrap(z - lo1);
    var hi2 := hi1 + if lo2 > z then 1 else 0;
    TwoCarries(B, hi, if lo1 < c then 1 else 0, if lo2 > z then 1 else 0);
    ProductBound(B, x, y);
    HighFits(B, hi2, 0);
    (lo2, hi2)
  }

}
