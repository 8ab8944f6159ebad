/** Modular inversion by the right-shift binary extended gcd
    (exercise 4.5.2-39 of "The Art of Computer Programming", volume 2). */
module ModInverse {
  import opened Arith
  import opened Limbs
  import opened LimbArrays
  import opened Shifts
  import opened Reciprocal

  // ----- the numbers behind the loop

  /** `x` and `y` have no common divisor but 1. */
  ghost predicate Coprime(x: int, y: int) {
    forall d: int :: d > 0 && Divides(d, x) && Divides(d, y) ==> d == 1
  }

  ghost predicate CommonDivisor(d: int, x: int, y: int) {
    d > 0 && Divides(d, x) && Divides(d, y)
  }

  /** `u` and `v` have the common divisors of `x` and `y`. */
  ghost predicate SameDivisors(u: int, v: int, x: int, y: int) {
    forall d: int :: CommonDivisor(d, u, v) <==> CommonDivisor(d, x, y)
  }

  predicate Odd(n: int) {
    n % 2 == 1
  }

  /** An odd divisor of 2 e divides e. */
  lemma OddDivisor(d: int, e: int)
    requires Odd(d) && Divides(d, 2 * e)
    ensures Divides(d, e)
  {
    var k: int :| 2 * e == k * d;
    var h, i, r := d / 2, k / 2, k % 2;
    assert k * d == 2 * (k * h + i) + r by { assert d == 2 * h + 1 && k == 2 * i + r; }
    assert i * d + i * d == (2 * i) * d;
    DividesIntro(d, e, i);
  }

  /** A divisor of an odd number is odd. */
  lemma DivisorOfOdd(d: int, v: int)
    requires d > 0 && Divides(d, v) && Odd(v)
    ensures Odd(d)
  {
    var k: int :| v == k * d;
    var h, r := d / 2, d % 2;
    assert k * d == 2 * (k * h) + k * r by { assert d == 2 * h + r; }
  }

  lemma {:induction false} OddDivisorPow(d: int, e: int, z: nat)
    requires Odd(d) && Divides(d, e * Pow(2, z))
    ensures Divides(d, e)
  {
    if z == 0 {
      assert e * 1 == e;
    } else {
      hide Divides;
      assert e * Pow(2, z) == 2 * (e * Pow(2, z - 1));
      OddDivisor(d, e * Pow(2, z - 1));
      OddDivisorPow(d, e, z - 1);
    }
  }

  /** Dropping factors of two from one of two numbers keeps their common divisors when the other is odd. */
  lemma ShiftKeepsDivisors(u: int, u': int, z: nat, v: int, x: int, y: int)
    requires SameDivisors(u, v, x, y) && u == u' * Pow(2, z) && (Odd(v) || z == 0)
    ensures SameDivisors(u', v, x, y)
  {
    hide Divides;
    forall d: int
      ensures CommonDivisor(d, u', v) <==> CommonDivisor(d, u, v)
    {
      if z == 0 {
        PowZero(2);
      } else {
        if CommonDivisor(d, u', v) { DividesMul(d, u', Pow(2, z)); }
        if CommonDivisor(d, u, v) {
          DivisorOfOdd(d, v);
          OddDivisorPow(d, u', z);
        }
      }
    }
  }

  lemma SwapDivisors(u: int, v: int, x: int, y: int)
    requires SameDivisors(u, v, x, y)
    ensures SameDivisors(v, u, x, y)
  {
    hide Divides;
    forall d: int
      ensures CommonDivisor(d, v, u) <==> CommonDivisor(d, u, v)
    {}
  }

  lemma SubtractKeepsDivisors(u: int, v: int, x: int, y: int)
    requires SameDivisors(u, v, x, y)
    ensures SameDivisors(u - v, v, x, y)
  {
    hide Divides;
    forall d: int
      ensures CommonDivisor(d, u - v, v) <==> CommonDivisor(d, u, v)
    {
      if CommonDivisor(d, u - v, v) { DividesSum(d, u - v, v); }
      if CommonDivisor(d, u, v) { DividesSum(d, u, v); }
    }
  }

  /** With nothing left on one side, the other side decides. */
  lemma LastDivisor(v: int, x: int, y: int)
    requires SameDivisors(0, v, x, y) && v > 0
    ensures v == 1 <==> Coprime(x, y)
  {
    if v == 1 {
      forall d: int | d > 0 && Divides(d, x) && Divides(d, y)
        ensures d == 1
      {
        assert CommonDivisor(d, 0, v);
        DivisorOfOne(d);
      }
    }
    if Coprime(x, y) {
      assert 0 == 0 * v && v == 1 * v;
      assert CommonDivisor(v, 0, v);
      assert CommonDivisor(v, x, y);
    }
  }

  lemma DivisorOfOne(d: int)
    requires d > 0 && Divides(d, 1)
    ensures d == 1
  {
    var k: int :| 1 == k * d;
    if k <= 0 { MulMono(k, 0, d); }
    MulMono(1, k, d);
  }

  /** The coefficient `a` of `u`: `a x = u` modulo y. */
  ghost predicate Coefficient(a: int, x: int, u: int, y: int) {
    0 <= a < y && Congruent(a * x, u, y)
  }

  /** Halving modulo an odd number. */
  function Half(a: int, y: int): (h: int)
    requires Odd(y)
    ensures 2 * h == a || 2 * h == a + y
  {
    if a % 2 == 0 then a / 2 else (a + y) / 2
  }

  lemma HalfKeeps(a: int, x: int, u: int, y: int)
    requires Odd(y) && Coefficient(a, x, 2 * u, y)
    ensures Coefficient(Half(a, y), x, u, y)
  {
    hide Divides, Half;
    var h := Half(a, y);
    var j := if 2 * h == a then 0 else 1;
    // 2 (h x - u) = (a x - 2 u) + j x y
    DividesIntro(y, (j * x) * y, j * x);
    DividesSum(y, a * x - 2 * u, (j * x) * y);
    assert 2 * (h * x - u) == a * x - 2 * u + (j * x) * y by {
      assert 2 * (h * x) == (2 * h) * x;
      assert (a + j * y) * x == a * x + (j * x) * y;
    }
    OddDivisor(y, h * x - u);
  }

  /** Subtraction modulo y. */
  function SubtractMod(a: int, b: int, y: int): (d: int)
  {
    if a >= b then a - b else y - (b - a)
  }

  lemma SubtractKeeps(a: int, b: int, x: int, u: int, v: int, y: int)
    requires Coefficient(a, x, u, y) && Coefficient(b, x, v, y)
    ensures Coefficient(SubtractMod(a, b, y), x, u - v, y)
  {
    hide Divides;
    var d := SubtractMod(a, b, y);
    var j := if a >= b then 0 else 1;
    DividesSum(y, a * x - u, b * x - v);
    DividesIntro(y, (j * x) * y, j * x);
    DividesSum(y, a * x - u - (b * x - v), (j * x) * y);
    assert d * x - (u - v) == a * x - u - (b * x - v) + (j * x) * y by {
      assert (a - b + j * y) * x == a * x - b * x + (j * x) * y;
    }
  }

  lemma StartCoefficients(x: int, y: int)
    requires y > 1
    ensures Coefficient(1, x, x, y) && Coefficient(0, x, y, y)
  {
    DividesIntro(y, 1 * x - x, 0);
    DividesIntro(y, 0 * x - y, -1);
  }

  /** An inverse exists only for coprime numbers. */
  lemma InverseMeansCoprime(x: int, y: int, z: int)
    requires y > 1 && Congruent(z * x, 1, y)
    ensures Coprime(x, y)
  {
    hide Divides;
    forall d: int | d > 0 && Divides(d, x) && Divides(d, y)
      ensures d == 1
    {
      DividesMul(d, x, z);
      DividesTrans(d, y, z * x - 1);
      DividesSum(d, z * x, z * x - 1);
      DivisorOfOne(d);
    }
  }

  // ----- the limb operations the loop uses

  /** `mp_ctz` of a nonzero limb. */
  function Ctz(x: Limb): (k: nat)
    requires x > 0
  {
    if x % 2 == 1 then 0 else 1 + Ctz(x / 2)
  }

  lemma {:induction false} CtzOdd(x: Limb) returns (o: nat)
    requires x > 0
    ensures x == o * Pow(2, Ctz(x)) && Odd(o)
  {
    if x % 2 == 1 {
      o := x;
    } else {
      o := CtzOdd(x / 2);
      hide Pow, B;
      PowSucc(2, Ctz(x / 2));
      Doubling(x / 2, o, Pow(2, Ctz(x / 2)));
    }
  }

  lemma Doubling(x: int, o: int, p: int)
    requires x == o * p
    ensures 2 * x == o * (2 * p)
  {}

  lemma CtzFits(x: Limb)
    requires x > 0
    ensures Ctz(x) < LIMB_BITS
  {
    hide Ctz, Pow;
    var o := CtzOdd(x);
    MulMono(1, o, Pow(2, Ctz(x)));
    if Ctz(x) >= LIMB_BITS { PowMono(2, LIMB_BITS, Ctz(x)); }
  }

  /** A window whose top limb is nonzero, or an empty one. */
  predicate Stripped(s: seq<Limb>) {
    |s| == 0 || s[|s| - 1] != 0
  }

  lemma StrippedPositive(s: seq<Limb>)
    requires Stripped(s)
    ensures Value(s) > 0 <==> |s| > 0
  {
    hide Pow;
    if |s| > 0 { ValueTop(s); }
  }

  /** Among stripped numbers, more limbs means more. */
  lemma LongerIsLarger(s: seq<Limb>, t: seq<Limb>)
    requires |s| < |t| && Stripped(t)
    ensures Value(s) < Value(t)
  {
    hide Pow, Value;
    ValueBound(s);
    ValueTop(t);
    PowMono(B, |s|, |t| - 1);
  }

  /** The value after dropping all factors of two: odd, and stripped again. */
  ghost predicate ShiftedOut(was: int, win: seq<Limb>, z: nat) {
    was == Value(win) * Pow(2, z) && Odd(Value(win)) && Stripped(win) && |win| > 0
  }

  /** Dropping a zero limb drops `LIMB_BITS` factors of two. */
  lemma DropZeroLimb(s: seq<Limb>, was: int, z: nat)
    requires |s| > 1 && s[0] == 0 && was == Value(s) * Pow(2, z)
    ensures was == Value(s[1..]) * Pow(2, z + LIMB_BITS)
  {
    hide Pow, Value;
    assert s == [s[0]] + s[1..];
    ValueCons(s[0], s[1..]);
    PowAdd(2, LIMB_BITS, z);
    MulAssoc(Value(s[1..]), B, Pow(2, z));
  }

  lemma LowLimbParity(s: seq<Limb>)
    requires |s| > 0
    ensures Odd(Value(s)) <==> Odd(s[0])
  {
    hide Pow, Value;
    RadixFacts();
    assert s == [s[0]] + s[1..];
    ValueCons(s[0], s[1..]);
    EvenTerm(B, Value(s[1..]), s[0]);
  }

  lemma EvenTerm(b: int, r: int, x: int)
    requires b % 2 == 0
    ensures (x + b * r) % 2 == x % 2
  {
    var h := b / 2;
    assert b * r == 2 * (h * r) by { assert b == 2 * h; }
  }

  lemma OddPart(p: int, h: int, o: int, r: int, v: int, low: int, n: int)
    requires v * p + low == n && 0 <= low < p && n == o * p + (p * h) * r && h % 2 == 0 && Odd(o)
    ensures v * p == n && Odd(v)
  {
    assert (o + h * r) * p == o * p + (p * h) * r;
    DivModUnique(n, p, v, low);
    DivModUnique(n, p, o + h * r, 0);
    EvenTerm(h, r, o);
  }

  /** Shifting out the trailing zeros of the low limb leaves an odd number. */
  lemma ShiftOutLimb(s: seq<Limb>, k: ShiftCount)
    requires |s| > 0 && s[0] > 0 && k == Ctz(s[0])
    ensures Value(RightShifted(s, k)) * Pow(2, k) == Value(s) && Odd(Value(RightShifted(s, k)))
  {
    hide Ctz, Pow, Value, RightShifted, Low, Shr, Funnel, Odd;
    RightShiftedValue(s, k);
    var o := CtzOdd(s[0]);
    assert s == [s[0]] + s[1..];
    ValueCons(s[0], s[1..]);
    PowAdd(2, k, LIMB_BITS - k);
    EvenPow(LIMB_BITS - k);
    OddPart(Pow(2, k), Pow(2, LIMB_BITS - k), o, Value(s[1..]), Value(RightShifted(s, k)), Low(s[0], k), Value(s));
  }

  lemma EvenPow(k: nat)
    requires k > 0
    ensures Pow(2, k) % 2 == 0
  {
    PowSucc(2, k - 1);
  }

  /** At most the top limb of a shifted number becomes zero. */
  lemma ShiftedTop(s: seq<Limb>, k: ShiftCount)
    requires |s| > 1 && s[|s| - 1] != 0 && Shr(s[|s| - 1], k) == 0
    ensures RightShifted(s, k)[|s| - 2] != 0
  {
    hide Pow, RightShifted, Low, Shr, Funnel, Shl;
    var n := |s|;
    ShrLow(s[n - 1], k);
    ShiftFacts(s[n - 1], LIMB_BITS - k);
    assert 0 * Pow(2, k) == 0;
    PowPositiveFactor(Low(s[n - 1], k), LIMB_BITS - k);
  }

  lemma PowPositiveFactor(x: nat, k: nat)
    requires x > 0
    ensures x * Pow(2, k) > 0
  {
    MulMono(1, x, Pow(2, k));
  }

  /** The window left by a shift, without its top limb when that became zero. */
  function Trimmed(r: seq<Limb>): (t: seq<Limb>) {
    if |r| > 0 && r[|r| - 1] == 0 then r[..|r| - 1] else r
  }

  lemma TrimmedShift(s: seq<Limb>, k: ShiftCount, was: int, z: nat)
    requires |s| > 0 && s[0] > 0 && s[|s| - 1] != 0 && k == Ctz(s[0]) && was == Value(s) * Pow(2, z)
    ensures ShiftedOut(was, Trimmed(RightShifted(s, k)), z + k)
  {
    hide Ctz, Pow, Value, RightShifted, Shr, Low, Funnel;
    var n, r := |s|, RightShifted(s, k);
    ShiftOutLimb(s, k);
    PowAdd(2, k, z);
    MulAssoc(Value(r), Pow(2, k), Pow(2, z));
    if r[n - 1] == 0 {
      assert r == r[..n - 1] + [0];
      ValueSnoc(r[..n - 1], 0);
      assert Value(r) == Value(r[..n - 1]);
      ValueEmpty();
      assert n > 1;
      ShiftedTop(s, k);
    }
  }

  /** `MPN_SHIFT_ZEROES`: skip zero limbs, then shift in place. The window moves up inside its array. */
  method ShiftZeroes(x: array<Limb>, xo: nat, xn: nat) returns (o: nat, n: nat, z: nat)
    requires 0 < xn && xo + xn <= x.Length && x[xo + xn - 1] != 0
    modifies x
    ensures xo <= o && o + n <= xo + xn
    ensures ShiftedOut(old(Value(x[xo..xo + xn])), x[o..o + n], z)
  {
    hide Ctz, Pow, Value, RightShifted, Shr, Low, Funnel, Odd;
    ghost var was := Value(x[xo..xo + xn]);
    o, n, z := xo, xn, 0;
    PowZero(2);
    while x[o] == 0
      invariant xo <= o && o + n == xo + xn && 0 < n && x[o + n - 1] != 0
      invariant was == Value(x[o..o + n]) * Pow(2, z)
      decreases n
    {
      assert x[o..o + n][1..] == x[o + 1..o + n];
      DropZeroLimb(x[o..o + n], was, z);
      z := z + LIMB_BITS;
      o, n := o + 1, n - 1;
    }
    n, z := ShiftBits(x, o, n, z, was);
  }

  /** The last step of it: the low limb is not zero, and its trailing zeros are shifted out. */
  method ShiftBits(x: array<Limb>, o: nat, n0: nat, z0: nat, ghost was: int) returns (n: nat, z: nat)
    requires 0 < n0 && o + n0 <= x.Length && x[o + n0 - 1] != 0 && x[o] != 0
    requires was == Value(x[o..o + n0]) * Pow(2, z0)
    modifies x
    ensures n <= n0 && ShiftedOut(was, x[o..o + n], z)
  {
    hide Ctz, Pow, Value, RightShifted, Shr, Low, Funnel, Odd;
    ghost var s := x[o..o + n0];
    n, z := n0, z0;
    var tz := Ctz(x[o]);
    CtzFits(x[o]);
    if tz > 0 {
      TrimmedShift(s, tz, was, z);
      RShift(x, o, x, o, n, tz);
      assert x[o..o + n] == RightShifted(s, tz);
      z := z + tz;
      if x[o + n - 1] == 0 {
        n := n - 1;
      }
      assert x[o..o + n] == Trimmed(RightShifted(s, tz));
    } else {
      NoTrailingZeros(s);
    }
  }

  lemma NoTrailingZeros(s: seq<Limb>)
    requires |s| > 0 && s[0] > 0 && Ctz(s[0]) == 0
    ensures Odd(Value(s))
  {
    hide Value, Pow;
    LowLimbParity(s);
  }

  // ----- halving, comparing and subtracting windows

  lemma HalvedValue(a: int, y: int, v: int, low: int, s: int)
    requires Odd(y) && 0 <= low < 2 && v * 2 + low == s && s == if Odd(a) then a + y else a
    ensures v == Half(a, y)
  {}

  /** The carry limb and the shift by one bit: the halved sum fits the limbs of the modulus again. */
  lemma HalvedLimbs(s: seq<Limb>, n: nat, a: int, y: int)
    requires 0 < n <= |s| <= n + 1 && (|s| == n + 1 ==> s[n] <= 1)
    requires Odd(y) && Value(s) == if Odd(a) then a + y else a
    ensures Value(RightShifted(s, 1)[..n]) == Half(a, y)
    ensures |s| == n + 1 ==> RightShifted(s, 1)[n] == 0
  {
    hide Value, RightShifted, Low, Shr, Shl, Funnel, Half, Odd;
    var r := RightShifted(s, 1);
    RightShiftedValue(s, 1);
    assert Pow(2, 1) == 2;
    HalvedValue(a, y, Value(r), Low(s[0], 1), Value(s));
    if |s| == n + 1 {
      ShrLow(s[n], 1);
      assert r == r[..n] + [r[n]];
      ValueSnoc(r[..n], r[n]);
    } else {
      assert r[..n] == r;
    }
  }

  /** The body of the two coefficient loops. */
  method HalveMod(ap: array<Limb>, yp: array<Limb>, yn: nat)
    requires 0 < yn <= yp.Length && ap.Length == yn + 1 && ap != yp && ap[yn] == 0
    requires Odd(Value(yp[..yn]))
    modifies ap
    ensures ap[yn] == 0 && Value(ap[..yn]) == Half(old(Value(ap[..yn])), Value(yp[..yn]))
  {
    hide Pow, Value, RightShifted, Low, Shr, Shl, Funnel, Half, SumLimbs;
    ghost var a, y := ap[..yn], yp[..yn];
    LowLimbParity(a);
    if ap[0] % 2 == 1 {
      SumLimbsValue(a, y);
      assert ap[0..0 + yn] == a && yp[0..0 + yn] == y;
      var c := AddN(ap, 0, ap, 0, yp, 0, yn);
      ap[yn] := c;
      ghost var low := ap[..yn];
      assert low == ap[0..0 + yn] == SumLimbs(a, y).limbs;
      assert ap[..yn + 1] == low + [c];
      ValueSnoc(low, c);
    }
    var n := yn + ap[yn];
    ghost var s := ap[..n];
    assert s == ap[0..0 + n];
    if ap[yn] == 0 {
      assert 0 * Pow(B, yn) == 0;
    }
    HalvedLimbs(s, yn, Value(a), Value(y));
    RShift(ap, 0, ap, 0, n, 1);
    assert ap[0..0 + n] == RightShifted(s, 1);
    assert ap[..yn] == RightShifted(s, 1)[..yn];
    if n == yn {
      assert ap[yn] == ap[0 + n..][0] == 0;
    }
  }

  /** The highest differing limb decides. */
  lemma TopDiffers(s: seq<Limb>, t: seq<Limb>, i: nat)
    requires |s| == |t| && i < |s| && s[i + 1..] == t[i + 1..] && s[i] < t[i]
    ensures Value(s) < Value(t)
  {
    hide Pow, Value;
    ValueSplit(s, i + 1);
    ValueSplit(t, i + 1);
    assert s[..i + 1] == s[..i] + [s[i]] && t[..i + 1] == t[..i] + [t[i]];
    ValueSnoc(s[..i], s[i]);
    ValueSnoc(t[..i], t[i]);
    ValueBound(s[..i]);
    TopDigit(t[i], s[i], Pow(B, i));
  }

  /** `mpn_cmp`, as the test `>= 0`. */
  method CmpAtLeast(x: array<Limb>, xo: nat, y: array<Limb>, yo: nat, n: nat) returns (ge: bool)
    requires xo + n <= x.Length && yo + n <= y.Length
    ensures ge <==> Value(x[xo..xo + n]) >= Value(y[yo..yo + n])
  {
    hide Pow, Value;
    ghost var s, t := x[xo..xo + n], y[yo..yo + n];
    var i := n;
    while i > 0
      invariant 0 <= i <= n && s[i..] == t[i..]
    {
      i := i - 1;
      if x[xo + i] != y[yo + i] {
        assert s[i] == x[xo + i] && t[i] == y[yo + i];
        if s[i] < t[i] { TopDiffers(s, t, i); } else { TopDiffers(t, s, i); }
        return x[xo + i] > y[yo + i];
      }
      assert s[i] == t[i];
    }
    assert s == s[0..] == t[0..] == t;
    return true;
  }

  /** `mpn_cmp2 >= 0`, on stripped windows. */
  method AtLeast(x: array<Limb>, xo: nat, xn: nat, y: array<Limb>, yo: nat, yn: nat) returns (ge: bool)
    requires xo + xn <= x.Length && yo + yn <= y.Length
    requires Stripped(x[xo..xo + xn]) && Stripped(y[yo..yo + yn])
    ensures ge <==> Value(x[xo..xo + xn]) >= Value(y[yo..yo + yn])
    ensures if ge then xn >= yn else xn <= yn
  {
    hide Pow, Value;
    if xn != yn {
      if xn < yn {
        LongerIsLarger(x[xo..xo + xn], y[yo..yo + yn]);
      } else {
        LongerIsLarger(y[yo..yo + yn], x[xo..xo + xn]);
      }
      return xn > yn;
    }
    ge := CmpAtLeast(x, xo, y, yo, xn);
  }

  function BorrowLimbs(x: seq<Limb>, c: Limb): (r: Carried)
    requires c <= 1
    ensures |r.limbs| == |x| && r.carry <= 1
  {
    if |x| == 0 then Carried([], c)
    else
      var low := BorrowLimbs(x[..|x| - 1], c);
      var (s, c') := SubLimbs(x[|x| - 1], low.carry);
      Carried(low.limbs + [s], c')
  }

  lemma {:induction false} BorrowLimbsValue(x: seq<Limb>, c: Limb)
    requires c <= 1
    ensures var r := BorrowLimbs(x, c); Value(r.limbs) - r.carry * Pow(B, |x|) == Value(x) - c
  {
    if |x| > 0 {
      hide SubLimbs;
      var n := |x| - 1;
      BorrowLimbsValue(x[..n], c);
      var low, r := BorrowLimbs(x[..n], c), BorrowLimbs(x, c);
      ValueSnoc(low.limbs, r.limbs[n]);
      BorrowStep(Value(low.limbs), r.limbs[n], low.carry, r.carry, Value(x[..n]) - c, x[n], 0, Pow(B, n));
    }
  }

  /** `mpn_sub_1` in place: the rest is left alone once the borrow is gone. */
  method Sub1(x: array<Limb>, xo: nat, n: nat, y: Limb) returns (c: Limb)
    requires xo + n <= x.Length && y <= 1
    modifies x
    ensures Carried(x[xo..xo + n], c) == BorrowLimbs(old(x[xo..xo + n]), y)
    ensures x[..xo] == old(x[..xo]) && x[xo + n..] == old(x[xo + n..])
  {
    hide SubLimbs, BorrowLimbs;
    c := y;
    ghost var all, xs := x[..], x[xo..xo + n];
    var i := 0;
    BorrowNothing(y);
    assert xs[..0] == [];
    while i < n && c != 0
      invariant 0 <= i <= n && c <= 1 && BorrowLimbs(xs[..i], y).carry == c
      invariant forall k :: xo + i <= k < x.Length ==> x[k] == all[k]
      invariant x[..xo] == all[..xo] && x[xo..xo + i] == BorrowLimbs(xs[..i], y).limbs
    {
      ghost var done := x[xo..xo + i];
      assert x[xo + i] == xs[i];
      BorrowNext(xs, i, y);
      var r := SubLimbs(x[xo + i], c);
      x[xo + i], c := r.0, r.1;
      assert x[xo..xo + i + 1] == done + [x[xo + i]];
      i := i + 1;
    }
    NoBorrowLeft(xs, i, y, c);
    assert x[xo + i..xo + n] == xs[i..];
    assert x[xo..xo + n] == x[xo..xo + i] + x[xo + i..xo + n];
    assert x[xo + n..] == all[xo + n..];
  }

  lemma BorrowNext(xs: seq<Limb>, i: nat, y: Limb)
    requires i < |xs| && y <= 1
    ensures var low := BorrowLimbs(xs[..i], y);
            var (s, c) := SubLimbs(xs[i], low.carry);
            BorrowLimbs(xs[..i + 1], y) == Carried(low.limbs + [s], c)
  {
    hide SubLimbs;
    assert xs[..i + 1][..i] == xs[..i];
  }

  lemma {:induction false} NoBorrowLeft(xs: seq<Limb>, i: nat, y: Limb, c: Limb)
    requires i <= |xs| && y <= 1 && BorrowLimbs(xs[..i], y).carry == c && (c == 0 || i == |xs|)
    ensures BorrowLimbs(xs, y) == Carried(BorrowLimbs(xs[..i], y).limbs + xs[i..], c)
    decreases |xs|
  {
    if i == |xs| {
      assert xs[..i] == xs;
      assert xs[i..] == [];
    } else {
      var n := |xs| - 1;
      assert xs[..n][..i] == xs[..i];
      NoBorrowLeft(xs[..n], i, y, c);
      assert xs[..n][i..] + [xs[n]] == xs[i..];
    }
  }

  lemma WindowDifference(low: int, hi: int, low': int, hi': int, c: int, c': int, v: int, p: int, q: int)
    requires low' - c * p == low - v && hi' - c' * q == hi - c
    ensures low' + p * hi' - c' * (p * q) == low + p * hi - v
  {
    assert p * (hi' - c' * q) == p * hi' - c' * (p * q);
    assert p * (hi - c) == p * hi - c * p;
  }

  lemma DifferenceLimbs(xs: seq<Limb>, ys: seq<Limb>, zs: seq<Limb>, hs: seq<Limb>, c: Limb, c': Limb)
    requires |ys| <= |xs| && Value(ys) <= Value(xs) && c <= 1
    requires Carried(zs, c) == DiffLimbs(xs[..|ys|], ys) && Carried(hs, c') == BorrowLimbs(xs[|ys|..], c)
    ensures Value(zs + hs) == Value(xs) - Value(ys)
  {
    hide Pow, Value, DiffLimbs, BorrowLimbs;
    var n := |ys|;
    DifferenceValue(xs, ys, zs, hs, c, c') by {
      DiffLimbsValue(xs[..n], ys);
      BorrowLimbsValue(xs[n..], c);
    }
    var ws := zs + hs;
    assert |ws| == |xs|;
    NoCarryLimbs(ws, c', Value(xs) - Value(ys));
  }

  /** Without a value below zero to stand for, limbs do not borrow. */
  lemma NoCarryLimbs(ws: seq<Limb>, c: Limb, d: int)
    requires Value(ws) - c * Pow(B, |ws|) == d && d >= 0
    ensures Value(ws) == d
  {
    hide Pow, Value;
    ValueBound(ws);
    NoCarry(Value(ws), c, Pow(B, |ws|), d);
  }

  lemma DifferenceValue(xs: seq<Limb>, ys: seq<Limb>, zs: seq<Limb>, hs: seq<Limb>, c: int, c': int)
    requires |ys| == |zs| <= |xs| == |zs| + |hs|
    requires Value(zs) - c * Pow(B, |ys|) == Value(xs[..|ys|]) - Value(ys)
    requires Value(hs) - c' * Pow(B, |xs| - |ys|) == Value(xs[|ys|..]) - c
    ensures Value(zs + hs) - c' * Pow(B, |xs|) == Value(xs) - Value(ys)
  {
    hide Pow, Value;
    var n := |ys|;
    ValueSplit(xs, n);
    ValueConcat(zs, hs);
    PowAdd(B, n, |xs| - n);
    WindowDifference(Value(xs[..n]), Value(xs[n..]), Value(zs), Value(hs), c, c', Value(ys),
                     Pow(B, n), Pow(B, |xs| - n));
  }

  /** `mpn_sub` of a smaller window from a larger one, in place. */
  method SubWindow(x: array<Limb>, xo: nat, xn: nat, y: array<Limb>, yo: nat, yn: nat)
    requires yn <= xn && xo + xn <= x.Length && yo + yn <= y.Length && x != y
    requires Value(y[yo..yo + yn]) <= Value(x[xo..xo + xn])
    modifies x
    ensures Value(x[xo..xo + xn]) == old(Value(x[xo..xo + xn])) - Value(y[yo..yo + yn])
  {
    hide Pow, Value, DiffLimbs, BorrowLimbs;
    ghost var xs, ys := x[xo..xo + xn], y[yo..yo + yn];
    ghost var r := DiffLimbs(xs[..yn], ys);
    ghost var h := BorrowLimbs(xs[yn..], r.carry);
    DifferenceLimbs(xs, ys, r.limbs, h.limbs, r.carry, h.carry);
    assert x[xo..xo + yn] == xs[..yn];
    assert x[xo + yn..xo + xn] == xs[yn..];
    var c := SubN(x, xo, x, xo, y, yo, yn);
    assert x[xo + yn..xo + xn] == xs[yn..];
    ghost var low := x[xo..xo + yn];
    if xn > yn {
      c := Sub1(x, xo + yn, xn - yn, c);
      assert x[xo..xo + yn] == low;
      assert x[xo..xo + xn] == low + x[xo + yn..xo + xn];
    } else {
      BorrowNothing(c);
      assert xs[yn..] == [];
      assert x[xo..xo + xn] == low + [];
    }
  }

  lemma BorrowNothing(c: Limb)
    requires c <= 1
    ensures BorrowLimbs([], c) == Carried([], c)
  {}

  /** `mpn_sub_mod` into its first operand. */
  method SubModInto(ap: array<Limb>, bp: array<Limb>, yp: array<Limb>, yn: nat)
    requires yn <= ap.Length && yn <= bp.Length && yn <= yp.Length && ap != bp && ap != yp
    requires Value(ap[..yn]) < Value(yp[..yn]) && Value(bp[..yn]) < Value(yp[..yn])
    modifies ap
    ensures Value(ap[..yn]) == SubtractMod(old(Value(ap[..yn])), Value(bp[..yn]), Value(yp[..yn]))
    ensures ap[yn..] == old(ap[yn..])
  {
    hide Pow, Value, DiffLimbs;
    ghost var a, b, y := ap[..yn], bp[..yn], yp[..yn];
    assert ap[0..0 + yn] == a && bp[0..0 + yn] == b && yp[0..0 + yn] == y;
    var ge := CmpAtLeast(ap, 0, bp, 0, yn);
    if ge {
      DiffExact(a, b);
      var c := SubN(ap, 0, ap, 0, bp, 0, yn);
      assert ap[0..0 + yn] == ap[..yn];
    } else {
      DiffExact(b, a);
      var c := SubN(ap, 0, bp, 0, ap, 0, yn);
      ghost var d := ap[0..0 + yn];
      DiffExact(y, d);
      c := SubN(ap, 0, yp, 0, ap, 0, yn);
      assert ap[0..0 + yn] == ap[..yn];
    }
  }

  /** A difference of ordered numbers does not borrow. */
  lemma DiffExact(x: seq<Limb>, y: seq<Limb>)
    requires |x| == |y| && Value(y) <= Value(x)
    ensures Value(DiffLimbs(x, y).limbs) == Value(x) - Value(y)
  {
    hide Pow, Value, DiffLimbs;
    var r := DiffLimbs(x, y);
    DiffLimbsValue(x, y);
    NoCarryLimbs(r.limbs, r.carry, Value(x) - Value(y));
  }

  lemma NoCarry(v: int, c: int, p: int, d: int)
    requires v - c * p == d && 0 <= v < p && d >= 0 && c >= 0
    ensures v == d
  {
    MulCancelLess(c, 1, p);
  }

  /** `mpn_strip`. */
  method Strip(x: array<Limb>, xo: nat, xn: nat) returns (n: nat)
    requires xo + xn <= x.Length
    ensures n <= xn && Stripped(x[xo..xo + n]) && Value(x[xo..xo + n]) == Value(x[xo..xo + xn])
  {
    hide Pow, Value;
    n := xn;
    while n > 0 && x[xo + n - 1] == 0
      invariant n <= xn && Value(x[xo..xo + n]) == Value(x[xo..xo + xn])
    {
      assert x[xo..xo + n] == x[xo..xo + n - 1] + [0];
      ValueSnoc(x[xo..xo + n - 1], 0);
      n := n - 1;
    }
  }

  // ----- the loop

  /** What every round keeps: the coefficients, the common divisors, and that not both numbers are even. */
  ghost predicate Kept(u: int, v: int, a: int, b: int, x: int, y: int) {
    && u >= 0 && v > 0 && (Odd(u) || Odd(v))
    && Coefficient(a, x, u, y) && Coefficient(b, x, v, y)
    && SameDivisors(u, v, x, y)
  }

  /** An odd number has no factor of two to drop. */
  lemma NoShift(u: int, u': int, z: nat)
    requires u == u' * Pow(2, z) && Odd(u)
    ensures z == 0
  {
    if z > 0 { HalvingStep(u', z); }
  }

  lemma ShiftedDivisors(u: int, v: int, u': int, v': int, uz: nat, vz: nat, x: int, y: int)
    requires SameDivisors(u, v, x, y) && (Odd(u) || Odd(v))
    requires u == u' * Pow(2, uz) && v == v' * Pow(2, vz) && Odd(u')
    ensures SameDivisors(u', v', x, y)
  {
    hide Pow, Odd, SameDivisors;
    if !Odd(v) { NoShift(u, u', uz); }
    ShiftKeepsDivisors(u, u', uz, v, x, y);
    SwapDivisors(u', v, x, y);
    ShiftKeepsDivisors(v, v', vz, u', x, y);
    SwapDivisors(v', u', x, y);
  }

  /** The state between the shifts and the subtraction of a round. */
  ghost predicate BothOdd(u: int, v: int, a: int, b: int, x: int, y: int) {
    && u > 0 && v > 0 && Odd(u) && Odd(v)
    && Coefficient(a, x, u, y) && Coefficient(b, x, v, y)
    && SameDivisors(u, v, x, y)
  }

  lemma BothOddRanges(u: int, v: int, a: int, b: int, x: int, y: int)
    requires BothOdd(u, v, a, b, x, y)
    ensures u > 0 && v > 0 && 0 <= a < y && 0 <= b < y
  {}

  lemma KeptCoefficients(u: int, v: int, a: int, b: int, x: int, y: int)
    requires Kept(u, v, a, b, x, y)
    ensures Coefficient(a, x, u, y) && Coefficient(b, x, v, y)
  {}

  lemma ShiftedKept(u0: int, v0: int, a0: int, b0: int, u: int, v: int, a: int, b: int, uz: nat, vz: nat, x: int, y: int)
    requires Kept(u0, v0, a0, b0, x, y) && u0 == u * Pow(2, uz) && v0 == v * Pow(2, vz)
    requires Odd(u) && Odd(v) && u > 0 && v > 0
    requires Coefficient(a, x, u, y) && Coefficient(b, x, v, y)
    ensures BothOdd(u, v, a, b, x, y)
  {
    hide Pow, Odd, SameDivisors, Coefficient;
    ShiftedDivisors(u0, v0, u, v, uz, vz, x, y);
  }

  /** Subtracting the smaller of two odd numbers from the larger. */
  lemma SubtractedU(u: int, v: int, a: int, b: int, x: int, y: int)
    requires BothOdd(u, v, a, b, x, y) && u >= v
    ensures Kept(u - v, v, SubtractMod(a, b, y), b, x, y)
  {
    hide Coefficient, SameDivisors, SubtractMod;
    SubtractKeeps(a, b, x, u, v, y);
    SubtractKeepsDivisors(u, v, x, y);
  }

  lemma SubtractedV(u: int, v: int, a: int, b: int, x: int, y: int)
    requires BothOdd(u, v, a, b, x, y) && v > u
    ensures Kept(u, v - u, a, SubtractMod(b, a, y), x, y)
  {
    hide Coefficient, SameDivisors, SubtractMod;
    SubtractKeeps(b, a, x, v, u, y);
    SwapDivisors(u, v, x, y);
    SubtractKeepsDivisors(v, u, x, y);
    SwapDivisors(v - u, u, x, y);
  }

  lemma HalvingStep(u: int, z: nat)
    requires z > 0
    ensures u * Pow(2, z) == 2 * (u * Pow(2, z - 1))
  {
    PowSucc(2, z - 1);
  }

  /** `while (uz--)`: halve the coefficient once for every factor of two dropped. */
  method HalveLoop(ap: array<Limb>, yp: array<Limb>, yn: nat, z: nat, ghost x: int, ghost u: int)
    requires 0 < yn <= yp.Length && ap.Length == yn + 1 && ap != yp && ap[yn] == 0
    requires Odd(Value(yp[..yn])) && Coefficient(Value(ap[..yn]), x, u * Pow(2, z), Value(yp[..yn]))
    modifies ap
    ensures ap[yn] == 0 && Coefficient(Value(ap[..yn]), x, u, Value(yp[..yn]))
  {
    hide Pow, Value, Coefficient, Half, Odd;
    var k := z;
    while k > 0
      invariant 0 <= k && ap[yn] == 0
      invariant Coefficient(Value(ap[..yn]), x, u * Pow(2, k), Value(yp[..yn]))
    {
      k := k - 1;
      HalvingStep(u, k + 1);
      HalfKeeps(Value(ap[..yn]), x, u * Pow(2, k), Value(yp[..yn]));
      HalveMod(ap, yp, yn);
    }
    PowZero(2);
  }

  lemma SmallerAfterShift(was: int, v: int, z: nat)
    requires was == v * Pow(2, z) && v >= 0
    ensures v <= was
  {
    MulMono(1, Pow(2, z), v);
  }

  lemma UseShiftedOut(was: int, win: seq<Limb>, z: nat)
    requires ShiftedOut(was, win, z)
    ensures was == Value(win) * Pow(2, z) && Odd(Value(win)) && Stripped(win) && |win| > 0 && 0 < Value(win) <= was
  {
    hide Pow, Value;
    SmallerAfterShift(was, Value(win), z);
  }

  /** One number of a round: shift it odd, and halve its coefficient once per bit. */
  method ShiftSide(up: array<Limb>, uo0: nat, un0: nat, ap: array<Limb>, yp: array<Limb>, yn: nat, ghost x: int)
    returns (uo: nat, un: nat, ghost uz: nat)
    requires 0 < yn <= yp.Length && ap.Length == yn + 1 && ap[yn] == 0 && up != ap && yp != up && yp != ap
    requires 0 < un0 && uo0 + un0 <= up.Length && Stripped(up[uo0..uo0 + un0]) && Odd(Value(yp[..yn]))
    requires Coefficient(Value(ap[..yn]), x, Value(up[uo0..uo0 + un0]), Value(yp[..yn]))
    modifies up, ap
    ensures 0 < un && uo + un <= up.Length && ap[yn] == 0 && Stripped(up[uo..uo + un])
    ensures Coefficient(Value(ap[..yn]), x, Value(up[uo..uo + un]), Value(yp[..yn]))
    ensures var was := old(Value(up[uo0..uo0 + un0])); var u := Value(up[uo..uo + un]);
            was == u * Pow(2, uz) && Odd(u) && 0 < u <= was
  {
    hide Pow, Value, Coefficient, ShiftedOut, Odd;
    ghost var u0 := Value(up[uo0..uo0 + un0]);
    assert up[uo0 + un0 - 1] == up[uo0..uo0 + un0][un0 - 1];
    var z: nat;
    uo, un, z := ShiftZeroes(up, uo0, un0);
    uz := z;
    UseShiftedOut(u0, up[uo..uo + un], uz);
    HalveLoop(ap, yp, yn, z, x, Value(up[uo..uo + un]));
  }

  /** One round: shift both numbers odd, halving their coefficients along, and subtract the smaller. */
  method Round(up: array<Limb>, uo0: nat, un0: nat, vp: array<Limb>, vo0: nat, vn0: nat,
               ap: array<Limb>, bp: array<Limb>, yp: array<Limb>, yn: nat, ghost x: int)
    returns (uo: nat, un: nat, vo: nat, vn: nat)
    requires 0 < yn <= yp.Length && ap.Length == yn + 1 == bp.Length && ap[yn] == 0 == bp[yn]
    requires up != vp && ap != bp && up != ap && up != bp && vp != ap && vp != bp && yp !in {up, vp, ap, bp}
    requires 0 < un0 && uo0 + un0 <= up.Length && Stripped(up[uo0..uo0 + un0])
    requires 0 < vn0 && vo0 + vn0 <= vp.Length && Stripped(vp[vo0..vo0 + vn0])
    requires Odd(Value(yp[..yn]))
    requires Kept(Value(up[uo0..uo0 + un0]), Value(vp[vo0..vo0 + vn0]), Value(ap[..yn]), Value(bp[..yn]),
                  x, Value(yp[..yn]))
    modifies up, vp, ap, bp
    ensures uo + un <= up.Length && Stripped(up[uo..uo + un])
    ensures 0 < vn && vo + vn <= vp.Length && Stripped(vp[vo..vo + vn])
    ensures ap[yn] == 0 == bp[yn]
    ensures Kept(Value(up[uo..uo + un]), Value(vp[vo..vo + vn]), Value(ap[..yn]), Value(bp[..yn]),
                 x, Value(yp[..yn]))
    ensures Value(up[uo..uo + un]) + Value(vp[vo..vo + vn])
          < old(Value(up[uo0..uo0 + un0])) + old(Value(vp[vo0..vo0 + vn0]))
  {
    hide Pow, Value, Coefficient, Kept, BothOdd, Odd;
    ghost var u0, v0, a0, b0 := Value(up[uo0..uo0 + un0]), Value(vp[vo0..vo0 + vn0]), Value(ap[..yn]), Value(bp[..yn]);
    ghost var y := Value(yp[..yn]);
    KeptCoefficients(u0, v0, a0, b0, x, y);
    ghost var uz: nat, vz: nat;
    uo, un, uz := ShiftSide(up, uo0, un0, ap, yp, yn, x);
    ghost var us, a := up[uo..uo + un], ap[..yn];
    vo, vn, vz := ShiftSide(vp, vo0, vn0, bp, yp, yn, x);
    assert up[uo..uo + un] == us && ap[..yn] == a;
    ShiftedKept(u0, v0, a0, b0, Value(us), Value(vp[vo..vo + vn]), Value(a), Value(bp[..yn]), uz, vz, x, y);
    un, vn := SubtractSide(up, uo, un, vp, vo, vn, ap, bp, yp, yn, x);
  }

  /** The comparison and subtraction that end a round. */
  method SubtractSide(up: array<Limb>, uo: nat, un0: nat, vp: array<Limb>, vo: nat, vn0: nat,
                      ap: array<Limb>, bp: array<Limb>, yp: array<Limb>, yn: nat, ghost x: int)
    returns (un: nat, vn: nat)
    requires 0 < yn <= yp.Length && ap.Length == yn + 1 == bp.Length && ap[yn] == 0 == bp[yn]
    requires up != vp && ap != bp && up != ap && up != bp && vp != ap && vp != bp && yp !in {up, vp, ap, bp}
    requires 0 < un0 && uo + un0 <= up.Length && Stripped(up[uo..uo + un0])
    requires 0 < vn0 && vo + vn0 <= vp.Length && Stripped(vp[vo..vo + vn0])
    requires BothOdd(Value(up[uo..uo + un0]), Value(vp[vo..vo + vn0]), Value(ap[..yn]), Value(bp[..yn]),
                     x, Value(yp[..yn]))
    modifies up, vp, ap, bp
    ensures uo + un <= up.Length && Stripped(up[uo..uo + un])
    ensures 0 < vn && vo + vn <= vp.Length && Stripped(vp[vo..vo + vn])
    ensures ap[yn] == 0 == bp[yn]
    ensures Kept(Value(up[uo..uo + un]), Value(vp[vo..vo + vn]), Value(ap[..yn]), Value(bp[..yn]),
                 x, Value(yp[..yn]))
    ensures Value(up[uo..uo + un]) + Value(vp[vo..vo + vn])
          < old(Value(up[uo..uo + un0])) + old(Value(vp[vo..vo + vn0]))
  {
    hide Pow, Value, Kept, BothOdd, SubtractMod;
    un, vn := un0, vn0;
    ghost var u, v, a, b := Value(up[uo..uo + un]), Value(vp[vo..vo + vn]), Value(ap[..yn]), Value(bp[..yn]);
    ghost var y := Value(yp[..yn]);
    BothOddRanges(u, v, a, b, x, y);
    var ge := AtLeast(up, uo, un, vp, vo, vn);
    if ge {
      SubtractedU(u, v, a, b, x, y);
      SubWindow(up, uo, un, vp, vo, vn);
      SubModInto(ap, bp, yp, yn);
      assert ap[yn] == ap[yn..][0] == 0;
      un := Strip(up, uo, un);
    } else {
      SubtractedV(u, v, a, b, x, y);
      SubWindow(vp, vo, vn, up, uo, un);
      SubModInto(bp, ap, yp, yn);
      assert bp[yn] == bp[yn..][0] == 0;
      vn := Strip(vp, vo, vn);
      StrippedPositive(vp[vo..vo + vn]);
    }
  }

  lemma KeptStart(x: int, y: int)
    requires y > 1 && Odd(y) && x >= 0
    ensures Kept(x, y, 1, 0, x, y)
  {
    hide Coefficient;
    StartCoefficients(x, y);
  }

  /** With `u` used up, the last `v` is the greatest common divisor and `b` its coefficient. */
  lemma KeptEnd(v: int, a: int, b: int, x: int, y: int)
    requires Kept(0, v, a, b, x, y)
    ensures v == 1 <==> Coprime(x, y)
    ensures v == 1 ==> 0 <= b < y && Congruent(b * x, 1, y)
  {
    hide Coprime, SameDivisors;
    LastDivisor(v, x, y);
  }

  method SetOne(z: array<Limb>, x: Limb)
    requires z.Length > 0
    modifies z
    ensures z[0] == x && forall i :: 0 < i < z.Length ==> z[i] == 0
  {
    z[0] := x;
    for i := 1 to z.Length
      invariant z[0] == x && forall j :: 0 < j < i ==> z[j] == 0
    {
      z[i] := 0;
    }
  }

  lemma SmallValue(s: seq<Limb>, x: Limb)
    requires |s| > 0 && s[0] == x && forall i :: 0 < i < |s| ==> s[i] == 0
    ensures Value(s) == x
  {
    hide Pow, Value;
    assert s == [x] + s[1..];
    ValueZeros(s[1..]);
    ValueCons(x, s[1..]);
  }

  lemma OneLimb(s: seq<Limb>)
    requires Stripped(s) && |s| > 0
    ensures Value(s) == 1 <==> |s| == 1 && s[0] == 1
  {
    hide Pow, Value;
    if |s| == 1 {
      assert s == [s[0]];
      ValueSingle(s[0]);
    } else {
      RadixFacts();
      ValueTop(s);
      PowSucc(B, |s| - 2);
      MulMono(1, Pow(B, |s| - 2), B);
    }
  }

  method CopyNew(x: array<Limb>, n: nat, size: nat) returns (z: array<Limb>)
    requires n <= x.Length && n <= size
    ensures fresh(z) && z.Length == size && z[..n] == x[..n]
  {
    z := new Limb[size];
    CopyTo(z, x, 0, n);
    assert x[0..0 + n] == x[..n];
  }

  method ZeroOut(z: array<Limb>, n: nat)
    requires n <= z.Length
    modifies z
    ensures forall i :: 0 <= i < n ==> z[i] == 0
    ensures z[n..] == old(z[n..])
  {
    for i := 0 to n
      invariant forall j :: 0 <= j < i ==> z[j] == 0
      invariant z[n..] == old(z[n..])
    {
      z[i] := 0;
    }
  }

  /** `mpn_invert`: succeeds exactly when an inverse exists, and then returns it. */
  method Invert(zp: array<Limb>, xp: array<Limb>, xn: nat, yp: array<Limb>, yn: nat) returns (ok: bool)
    requires 0 < yn <= yp.Length && xn <= yn && xn <= xp.Length && yn <= zp.Length
    requires Stripped(xp[..xn]) && yp[yn - 1] != 0 && Odd(yp[0])
    modifies zp
    ensures ok <==> old(Value(yp[..yn])) > 1 && Coprime(old(Value(xp[..xn])), old(Value(yp[..yn])))
    ensures ok ==> Value(zp[..yn]) < old(Value(yp[..yn]))
    ensures ok ==> Congruent(Value(zp[..yn]) * old(Value(xp[..xn])), 1, old(Value(yp[..yn])))
    ensures !ok ==> forall i :: 0 <= i < yn ==> zp[i] == 0
    ensures zp[yn..] == old(zp[yn..])
  {
    hide Pow, Value, Kept, Coprime, Congruent;
    ghost var x, y := Value(xp[..xn]), Value(yp[..yn]);
    LowLimbParity(yp[..yn]);
    OneLimb(yp[..yn]);
    StrippedPositive(yp[..yn]);
    if yn == 1 && yp[0] == 1 {
      ZeroOut(zp, yn);
      return false;
    }
    var up := CopyNew(xp, xn, yn + 1);
    var vp := CopyNew(yp, yn, yn + 1);
    var ap := new Limb[yn + 1];
    var bp := new Limb[yn + 1];
    SetOne(ap, 1);
    SetOne(bp, 0);
    SmallValue(ap[..yn], 1);
    SmallValue(bp[..yn], 0);
    KeptStart(x, y);
    var uo: nat, un: nat, vo: nat, vn: nat := 0, xn, 0, yn;
    assert up[0..0 + xn] == xp[..xn] && vp[0..0 + yn] == yp[..yn];
    while un != 0
      invariant uo + un <= up.Length && Stripped(up[uo..uo + un])
      invariant 0 < vn && vo + vn <= vp.Length && Stripped(vp[vo..vo + vn])
      invariant ap[yn] == 0 == bp[yn] && zp[..] == old(zp[..]) && yp[..yn] == old(yp[..yn])
      invariant Kept(Value(up[uo..uo + un]), Value(vp[vo..vo + vn]), Value(ap[..yn]), Value(bp[..yn]), x, y)
      decreases Value(up[uo..uo + un]) + Value(vp[vo..vo + vn])
    {
      uo, un, vo, vn := Round(up, uo, un, vp, vo, vn, ap, bp, yp, yn, x);
    }
    assert up[uo..uo + 0] == [];
    ValueEmpty();
    KeptEnd(Value(vp[vo..vo + vn]), Value(ap[..yn]), Value(bp[..yn]), x, y);
    OneLimb(vp[vo..vo + vn]);
    if vn != 1 || vp[vo] != 1 {
      ZeroOut(zp, yn);
      return false;
    }
    CopyTo(zp, bp, 0, yn);
    assert bp[0..0 + yn] == bp[..yn];
    return true;
  }
}
