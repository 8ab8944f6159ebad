/** Products and quotients of two limbs without a wider type, from half-limbs. */
module HalfLimbs {
  import opened Arith
  import opened Limbs
  import opened Shifts

  // ----- the product

  lemma HalfBound(h: int, a: int, b: int, k: int)
    requires h > 0 && 0 <= a < h && 0 <= b < h && 0 <= k < h
    ensures 0 <= a * b + k < h * h
  {
    MulMono2(a, h - 1, b, h - 1);
    assert (h - 1) * (h - 1) == h * h - 2 * h + 1;
  }

  lemma HalfSplit(h: int, t: int)
    requires h > 0 && 0 <= t < h * h
    ensures 0 <= t / h < h && 0 <= t % h < h && t == t / h * h + t % h
  {
    MulCancelLess(t / h, h, h);
  }

  /** Shifting a limb up by half a limb keeps its low half only. */
  lemma ShiftedHalf(h: int, t: int)
    requires h > 0 && 0 <= t < h * h
    ensures t * h % (h * h) == t % h * h
  {
    HalfSplit(h, t);
    var q, r := t / h, t % h;
    assert t * h == q * (h * h) + r * h by { assert (q * h + r) * h == q * (h * h) + r * h; }
    MulMono(0, r, h);
    MulStrict(r, h, h);
    DivModUnique(t * h, h * h, q, r * h);
  }

  lemma HalfIdentity(h: int, u0: int, u1: int, v0: int, v1: int, w1: int, w2: int, w3: int, k: int, k2: int, r: int)
    requires u1 * v1 == k * h + w3 && u0 * v1 + k == w1 * h + w2 && u1 * v0 + w2 == k2 * h + r
    ensures (u0 * h + u1) * (v0 * h + v1) == (u0 * v0 + w1 + k2) * (h * h) + (r * h + w3)
  {
    assert (u0 * h + u1) * (v0 * h + v1) == u0 * v0 * (h * h) + (u0 * v1) * h + (u1 * v0) * h + u1 * v1;
    assert (u0 * v1) * h == (w1 * h + w2 - k) * h == w1 * (h * h) + w2 * h - k * h;
    assert (u1 * v0) * h == (k2 * h + r - w2) * h == k2 * (h * h) + r * h - w2 * h;
    assert (u0 * v0 + w1 + k2) * (h * h) == u0 * v0 * (h * h) + w1 * (h * h) + k2 * (h * h);
  }

  lemma HighFitsLimb(b: int, hi: int, lo: int, x: int, y: int)
    requires b > 1 && 0 <= x < b && 0 <= y < b && 0 <= lo && hi * b + lo == x * y
    ensures hi < b
  {
    ProductBound(b, x, y);
    HighFits(b, hi, lo);
  }

  /** Four half-limb products and their carries: none of the intermediate sums overflows a limb, and
      the two limbs are those of the true product. */
  method MulHalves(x: Limb, y: Limb, h: nat) returns (hi: Limb, lo: Limb)
    requires h > 1 && h * h == B
    ensures hi * B + lo == x * y
  {
    HalfSplit(h, x);
    HalfSplit(h, y);
    var u0, u1, v0, v1 := x / h, x % h, y / h, y % h;
    HalfBound(h, u1, v1, 0);
    var t := u1 * v1;
    HalfSplit(h, t);
    var w3, k := t % h, t / h;
    HalfBound(h, u0, v1, k);
    t := u0 * v1 + k;
    HalfSplit(h, t);
    var w2, w1 := t % h, t / h;
    HalfBound(h, u1, v0, w2);
    t := u1 * v0 + w2;
    HalfSplit(h, t);
    ShiftedHalf(h, t);
    var k2 := t / h;
    ghost var r := t % h;
    HalfIdentity(h, u0, u1, v0, v1, w1, w2, w3, k, k2, r);
    HalfBound(h, r, h - 1, w3);
    LowFits(h, r, w3);
    MulMono(0, u0, v0);
    HighFitsLimb(B, u0 * v0 + w1 + k2, r * h + w3, x, y);
    hi := u0 * v0 + w1 + k2;
    lo := t * h % B + w3;
  }

  lemma LowFits(h: int, r: int, w: int)
    requires h > 0 && 0 <= r < h && 0 <= w < h
    ensures 0 <= r * h + w < h * h
  {
    MulMono(0, r, h);
    MulMono(r + 1, h, h);
    assert (r + 1) * h == r * h + h;
  }

  // ----- the quotient

  /** What the correction loop keeps: the estimate is never below the true digit. */
  ghost predicate Above(top: int, x: int, d: int, h: int, q: int) {
    top * h + x < (q + 1) * d
  }

  lemma FirstAbove(top: int, x: int, d: int, h: int, v1: int, v0: int, q: int, rhat: int)
    requires d == v1 * h + v0 && v0 >= 0 && v1 > 0 && 0 <= x < h && rhat == top - q * v1 && rhat < v1 && q >= 0
    ensures Above(top, x, d, h, q)
  {
    assert (q + 1) * v1 == q * v1 + v1;
    MulMono(top + 1, (q + 1) * v1, h);
    assert (top + 1) * h == top * h + h;
    MulMono(v1 * h, d, q + 1);
    assert (q + 1) * v1 * h == v1 * h * (q + 1);
  }

  /** An estimate of a whole half-limb or more is too large. */
  lemma TooWide(top: int, x: int, d: int, h: int, q: int)
    requires 0 <= top < d && 0 <= x < h && q >= h
    ensures Above(top, x, d, h, q - 1)
  {
    MulMono(top + 1, d, h);
    assert (top + 1) * h == top * h + h;
    MulMono(h, q, d);
    assert h * d == d * h;
  }

  /** The test compares the window with the multiple of the divisor. */
  lemma TestIsExact(top: int, x: int, d: int, h: int, v1: int, v0: int, q: int, rhat: int)
    requires d == v1 * h + v0 && rhat == top - q * v1
    ensures rhat * h + x - q * v0 == top * h + x - q * d
  {
    assert (top - q * v1) * h == top * h - q * v1 * h;
    assert q * (v1 * h + v0) == q * v1 * h + q * v0;
  }

  /** Once the running remainder leaves the half-limb, the estimate has come into range. */
  lemma EarlyExit(top: int, x: int, d: int, h: int, v1: int, v0: int, q: int, rhat: int)
    requires d == v1 * h + v0 && 0 <= v0 < h && 0 <= top < d && rhat == top - q * v1 && rhat >= h && q >= 0 && v1 > 0 && x >= 0
    ensures q < h && q * v0 <= rhat * h + x
  {
    MulCancelLess(q, h, v1);
    MulMono2(q, h, v0, h);
    MulMono(h, rhat, h);
  }

  lemma StillPositive(top: int, x: int, d: int, h: int, q: int)
    requires Above(top, x, d, h, q - 1) && top >= 0 && x >= 0 && h > 0 && d > 0
    ensures q >= 1
  {
    MulMono(0, top, h);
    MulCancelLess(0, q, d);
  }

  lemma LowerEstimate(q: int, v1: int)
    ensures (q - 1) * v1 == q * v1 - v1
  {}

  /** One half-limb digit; with a divisor of two half-limbs the correction loop makes it exact. */
  method HalfDigit(top: Limb, x: nat, d: Limb, v1: nat, v0: nat, h: nat) returns (q: nat, rem: Limb)
    requires h > 1 && h * h == B && d == v1 * h + v0 && v0 < h && 0 < v1 < h && top < d && x < h
    ensures q < h && q * d + rem == top * h + x && rem < d
  {
    hide Above;
    q := top / v1;
    var rhat: int := top - q * v1;
    FirstAbove(top, x, d, h, v1, v0, q, rhat);
    while q >= h || q * v0 > rhat * h + x
      invariant q >= 0 && rhat == top - q * v1 && Above(top, x, d, h, q)
      decreases q
    {
      TestIsExact(top, x, d, h, v1, v0, q, rhat);
      if q >= h {
        TooWide(top, x, d, h, q);
      } else {
        assert Above(top, x, d, h, q - 1) by { Fired(top, x, d, h, q); }
      }
      StillPositive(top, x, d, h, q);
      LowerEstimate(q, v1);
      q := q - 1;
      rhat := rhat + v1;
      if rhat >= h {
        EarlyExit(top, x, d, h, v1, v0, q, rhat);
        break;
      }
    }
    TestIsExact(top, x, d, h, v1, v0, q, rhat);
    DigitExact(top, x, d, h, q);
    rem := (top * h + x - q * d) % B;
  }

  lemma Fired(top: int, x: int, d: int, h: int, q: int)
    requires top * h + x < q * d
    ensures Above(top, x, d, h, q - 1)
  {}

  lemma DigitExact(top: int, x: int, d: int, h: int, q: int)
    requires Above(top, x, d, h, q) && q * d <= top * h + x && d < B
    ensures 0 <= top * h + x - q * d < d && (top * h + x - q * d) % B == top * h + x - q * d
  {
    assert (q + 1) * d == q * d + d;
    WithinLimb(top * h + x - q * d);
  }

  lemma WithinLimb(x: int)
    requires 0 <= x < B
    ensures x % B == x
  {
    DivModUnique(x, B, 0, x);
  }

  lemma TwoDigits(h: int, d: int, un32: int, un1: int, un0: int, q1: int, un21: int, q0: int, r: int)
    requires q1 * d + un21 == un32 * h + un1 && q0 * d + r == un21 * h + un0
    ensures (q1 * h + q0) * d + r == un32 * (h * h) + (un1 * h + un0)
  {
    assert (q1 * h + q0) * d == q1 * d * h + q0 * d;
    assert (q1 * d + un21) * h == (un32 * h + un1) * h;
    assert (un32 * h + un1) * h == un32 * (h * h) + un1 * h;
    assert (q1 * d + un21) * h == q1 * d * h + un21 * h;
  }

  lemma QuotientInRange(h: int, q1: int, q0: int)
    requires 0 <= q1 < h && 0 <= q0 < h
    ensures 0 <= q1 * h + q0 < h * h
  {
    LowFits(h, q1, q0);
  }

  /** Half of a normalized limb is not zero. */
  lemma HalfOfNormalized(h: int, b: int, d: int)
    requires h > 1 && h * h == b && b <= 2 * d
    ensures d / h > 0
  {
    assert h * h >= 2 * h by { MulMono(2, h, h); }
  }

  /** Two limbs by one, in two half-limb digits: exact for every divisor above the top limb. */
  method DivHalves(n1: Limb, n0: Limb, divisor: Limb, h: nat) returns (q: Limb, r: Limb)
    requires h > 1 && h * h == B && n1 < divisor
    ensures q * divisor + r == n1 * B + n0 && r < divisor
  {
    hide Pow, Shr, Low, Clz;
    if n1 == 0 {
      SplitLimb(n0, divisor);
      q := n0 / divisor;
      r := n0 - q * divisor;
      return;
    }
    var s := Clz(divisor);
    ClzFits(divisor);
    PowPositive(2, s);
    var d: Limb := divisor * Pow(2, s);
    HalfSplit(h, d);
    HalfOfNormalized(h, B, d);
    var v1, v0 := d / h, d % h;
    RemainderFits(n1, divisor, Pow(2, s), d);
    var un32, un10 := ShiftPair(n1, n0, s);
    SmallNumerator(B, divisor, Pow(2, s), n1, n0, un32, un10);
    HalfSplit(h, un10);
    var un1, un0 := un10 / h, un10 % h;
    var q1, un21 := HalfDigit(un32, un1, d, v1, v0, h);
    var q0, rem := HalfDigit(un21, un0, d, v1, v0, h);
    TwoDigits(h, d, un32, un1, un0, q1, un21, q0, rem);
    QuotientInRange(h, q1, q0);
    q := q1 * h + q0;
    ShrLow(rem, s);
    Unscaled(n1 * B + n0, divisor, Pow(2, s), q, rem, Shr(rem, s), Low(rem, s));
    r := Shr(rem, s);
  }

  lemma SplitLimb(n: int, d: int)
    requires d > 0 && n >= 0
    ensures 0 <= n / d <= n && n == n / d * d + n % d && 0 <= n % d < d && 0 <= n - n / d * d < d
  {
    var q := n / d;
    assert n == q * d + n % d;
    MulMono(1, d, q);
  }
}
