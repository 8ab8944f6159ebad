/** Inversion modulo the limb radix and word-by-word "almost" Montgomery multiplication. */
module Montgomery {
  import opened Arith
  import opened Limbs
  import opened LimbArrays
  import opened Reciprocal
  import DivMod

  // ----- the inverse of an odd limb

  /** `m` inverts `d` modulo 2^bits. */
  ghost predicate Inverts(d: int, m: int, bits: nat) {
    Divides(Pow(2, bits), d * m - 1)
  }

  function Min(x: nat, y: nat): nat {
    if x <= y then x else y
  }

  lemma ConsecutiveProduct(t: int) returns (h: int)
    ensures t * (t + 1) == 2 * h
  {
    var k := t / 2;
    if t % 2 == 0 {
      h := k * (t + 1);
      assert t == 2 * k;
    } else {
      h := t * (k + 1);
      assert t + 1 == 2 * (k + 1);
    }
  }

  /** An odd number is its own inverse modulo 8. */
  lemma OddSquare(d: int)
    requires d % 2 == 1
    ensures Inverts(d, d, 3)
  {
    var t := d / 2;
    assert d == 2 * t + 1;
    var h := ConsecutiveProduct(t);
    assert d * d - 1 == 4 * (t * (t + 1));
    assert Pow(2, 3) == 8;
    DividesIntro(8, d * d - 1, h);
  }

  lemma PowDivides(x: nat, y: nat)
    requires x <= y
    ensures Divides(Pow(2, x), Pow(2, y))
  {
    PowAdd(2, y - x, x);
    DividesIntro(Pow(2, x), Pow(2, y), Pow(2, y - x));
  }

  /** A square of something divisible by 2^j is divisible by 2^(2j). */
  lemma SquareDivides(j: nat, e: int)
    requires Divides(Pow(2, j), e)
    ensures Divides(Pow(2, 2 * j), e * e)
  {
    hide Pow;
    var p := Pow(2, j);
    var k: int :| e == k * p;
    PowAdd(2, j, j);
    SquareIdentity(k, p);
    DividesIntro(p * p, e * e, k * k);
  }

  lemma SquareIdentity(k: int, p: int)
    ensures (k * p) * (k * p) == (k * k) * (p * p)
  {
    calc {
      (k * p) * (k * p);
      k * (p * (k * p));
      k * (k * (p * p));
      (k * k) * (p * p);
    }
  }

  /** d m (2 - d m) - 1 = -(1 - d m)^2. */
  lemma NewtonIdentity(d: int, m: int, m': int)
    ensures d * m' - 1 == -((d * m - 1) * (d * m - 1)) - d * (m * (2 - d * m) - m')
  {
    var x := d * m;
    assert d * (m * (2 - x)) == x * (2 - x);
    assert d * (m * (2 - x) - m') == d * (m * (2 - x)) - d * m';
    assert (x - 1) * (x - 1) == x * x - 2 * x + 1;
    assert x * (2 - x) == 2 * x - x * x;
  }

  /** One Newton step doubles the number of correct bits, up to the limb width. */
  lemma NewtonStep(d: int, m: int, m': int, j: nat)
    requires Inverts(d, m, j) && Divides(B, m * (2 - d * m) - m')
    ensures Inverts(d, m', Min(2 * j, LIMB_BITS))
  {
    hide Pow, Divides;
    var k := Min(2 * j, LIMB_BITS);
    var p, e, f := Pow(2, k), d * m - 1, m * (2 - d * m) - m';
    assert Divides(p, e * e) by {
      SquareDivides(j, e);
      PowDivides(k, 2 * j);
      DividesTrans(p, Pow(2, 2 * j), e * e);
    }
    assert Divides(p, d * f) by {
      PowDivides(k, LIMB_BITS);
      DividesTrans(p, B, f);
      DividesMul(p, f, d);
    }
    NewtonIdentity(d, m, m');
    DividesSum(p, e * e, d * f);
    DividesMul(p, e * e + d * f, -1);
  }

  /** The limb expression `m * (2 - d * m)`, every operation wrapping. */
  method Newton(d: Limb, m: Limb, ghost j: nat) returns (m': Limb)
    requires Inverts(d, m, j)
    ensures Inverts(d, m', Min(2 * j, LIMB_BITS))
  {
    hide MulLow, Pow, Inverts, Divides;
    RadixFacts();
    var x: int := MulLow(d, m);
    var y := Wrap(2 - x);
    m' := MulLow(m, y);
    NewtonResidue(B, d, m, x, y, m', if x > 2 then 1 else 0);
    NewtonStep(d, m, m', j);
  }

  lemma NewtonResidue(b: int, d: int, m: int, x: int, y: int, m': int, k: int)
    requires Divides(b, d * m - x) && y == 2 - x + k * b && Divides(b, m * y - m')
    ensures Divides(b, m * (2 - d * m) - m')
  {
    hide Divides;
    DividesIntro(b, k * b, k);
    DividesSum(b, d * m - x, k * b);
    DividesMul(b, d * m - x + k * b, m);
    DividesSum(b, m * y - m', m * (d * m - x + k * b));
    assert m * y - m' - m * (d * m - x + k * b) == m * (2 - d * m) - m' by {
      assert m * y - m * (d * m - x + k * b) == m * (y - (d * m - x + k * b));
    }
  }

  /** `mp_inv_mod`: four Newton steps suffice for 32-bit limbs, five for 64-bit ones. */
  method InvMod(d: Limb) returns (m: Limb)
    requires d % 2 == 1
    ensures Divides(B, d * m - 1)
  {
    hide Pow;
    OddSquare(d);
    m := d;
    m := Newton(d, m, 3);
    m := Newton(d, m, Min(6, LIMB_BITS));
    m := Newton(d, m, Min(12, LIMB_BITS));
    m := Newton(d, m, Min(24, LIMB_BITS));
    if LIMB_BITS > 32 {
      m := Newton(d, m, Min(48, LIMB_BITS));
    }
  }

  // ----- the running total

  /** After the limbs of `y` below weight `w`: `t w = x y + k m`, with as many multiples of `m` as that
      weight allows. */
  ghost predicate Reducing(t: int, w: int, x: int, y: int, k: int, m: int) {
    t * w == x * y + k * m && 0 <= y < w && 0 <= k < w && t >= 0
  }

  /** Bringing in one limb of `y` and one multiple of `m`, and dropping one limb of zeros. */
  lemma ReducingStep(b: int, t: int, w: int, x: int, y: int, k: int, m: int, yi: int, q: int, t': int)
    requires Reducing(t, w, x, y, k, m) && b * t' == t + x * yi + m * q
    requires 0 <= yi < b && 0 <= q < b && t' >= 0
    ensures Reducing(t', b * w, x, y + yi * w, k + q * w, m)
  {
    assert t' * (b * w) == (b * t') * w == t * w + (x * yi) * w + (m * q) * w by {
      StepProducts(b, t, w, x, m, yi, q, t');
    }
    assert x * (y + yi * w) == x * y + (x * yi) * w;
    assert (k + q * w) * m == k * m + (m * q) * w;
    TopDigit(b, yi, w);
    TopDigit(b, q, w);
    MulNonneg(yi, w);
    MulNonneg(q, w);
  }

  lemma StepProducts(b: int, t: int, w: int, x: int, m: int, yi: int, q: int, t': int)
    requires b * t' == t + x * yi + m * q
    ensures t' * (b * w) == (b * t') * w
    ensures (b * t') * w == t * w + (x * yi) * w + (m * q) * w
  {
    assert (t + x * yi + m * q) * w == t * w + (x * yi) * w + (m * q) * w;
  }

  /** The running total stays below x + m. */
  lemma ReducingBound(t: int, w: int, x: int, y: int, k: int, m: int)
    requires Reducing(t, w, x, y, k, m) && x >= 0 && m > 0
    ensures t < x + m
  {
    MulMono(y, w - 1, x);
    MulMono(k, w - 1, m);
    assert (w - 1) * x + (w - 1) * m == (x + m) * w - (x + m);
    assert x * y == y * x;
    MulCancelLess(t, x + m, w);
  }

  lemma ReducingStart(x: int, m: int)
    ensures Reducing(0, 1, x, 0, 0, m)
  {}

  // ----- one limb of the multiplication

  /** The low limb of a number is its residue modulo the radix. */
  lemma LowLimb(s: seq<Limb>)
    requires |s| > 0
    ensures Value(s) == s[0] + B * Value(s[1..])
  {
    hide Pow, Value;
    assert s == [s[0]] + s[1..];
    ValueCons(s[0], s[1..]);
  }

  lemma ClearingMultiplier(b: int, t0: int, m0: int, k: int, q: int)
    requires Divides(b, m0 * k + 1) && Divides(b, t0 * k - q)
    ensures Divides(b, t0 + m0 * q)
  {
    hide Divides;
    DividesMul(b, m0 * k + 1, t0);
    DividesMul(b, t0 * k - q, m0);
    DividesSum(b, t0 * (m0 * k + 1), m0 * (t0 * k - q));
    assert t0 * (m0 * k + 1) - m0 * (t0 * k - q) == t0 + m0 * q by {
      assert t0 * (m0 * k + 1) == m0 * (t0 * k) + t0;
      assert m0 * (t0 * k - q) == m0 * (t0 * k) - m0 * q;
    }
  }

  lemma SmallMultiple(b: int, z: int)
    requires b > 0 && Divides(b, z) && 0 <= z < b
    ensures z == 0
  {
    var f: int :| z == f * b;
    MulCancelLess(f, 1, b);
    MulCancelLess(-1, f, b);
  }

  /** The multiplier `q = t0 k` is chosen so that adding `q m` clears the low limb. */
  lemma LowLimbCleared(b: int, t0: int, m0: int, k: int, q: int, t1: int, m1: int, c: int, z0: int, z1: int)
    requires b > 0 && Divides(b, m0 * k + 1) && Divides(b, t0 * k - q)
    requires z0 + b * z1 + b * c == t0 + b * t1 + (m0 + b * m1) * q && 0 <= z0 < b
    ensures z0 == 0
  {
    hide Divides;
    ClearingMultiplier(b, t0, m0, k, q);
    var f := t1 + m1 * q - z1 - c;
    assert z0 == t0 + m0 * q + f * b by {
      assert (m0 + b * m1) * q == m0 * q + b * (m1 * q);
      assert f * b == b * t1 + b * (m1 * q) - b * z1 - b * c;
    }
    DividesIntro(b, f * b, f);
    DividesSum(b, t0 + m0 * q, f * b);
    SmallMultiple(b, z0);
  }

  /** `k` is minus the inverse of the low limb of the modulus. */
  ghost predicate IsNegInverse(m0: Limb, k: Limb) {
    Divides(B, m0 * k + 1)
  }

  /** The second accumulation clears the low limb of the window. */
  lemma ClearedLimbs(us: seq<Limb>, ms: seq<Limb>, k: Limb, q: Limb)
    requires |us| == |ms| > 0 && IsNegInverse(ms[0], k) && Divides(B, us[0] * k - q)
    ensures AddMulLimbs(us, ms, q).limbs[0] == 0
  {
    hide Pow, Value, Divides, AddMulLimbs;
    var n, r := |us| - 1, AddMulLimbs(us, ms, q);
    AddMulLimbsValue(us, ms, q);
    LowLimb(us);
    LowLimb(ms);
    LowLimb(r.limbs);
    PowSucc(B, n);
    TopCarry(B, r.carry, Pow(B, n));
    LowLimbCleared(B, us[0], ms[0], k, q, Value(us[1..]), Value(ms[1..]), r.carry * Pow(B, n),
                   r.limbs[0], Value(r.limbs[1..]));
  }

  lemma TopCarry(b: int, c: int, p: int)
    ensures c * (b * p) == b * (c * p)
  {}

  /** Dropping the cleared limb and taking in the carry limb divides by the radix. */
  lemma ShiftedWindow(zs: seq<Limb>, cy: Limb, e: int)
    requires |zs| > 0 && zs[0] == 0
    ensures Value(zs) + (cy + e * B) * Pow(B, |zs|) == B * (Value(zs[1..] + [cy]) + e * Pow(B, |zs|))
  {
    hide Pow, Value;
    LowLimb(zs);
    ValueSnoc(zs[1..], cy);
    PowSucc(B, |zs| - 1);
    MergeIdentity(B, Value(zs[1..]), cy, e, Pow(B, |zs| - 1));
  }

  lemma MergeIdentity(b: int, v: int, cy: int, e: int, p: int)
    ensures b * v + (cy + e * b) * (b * p) == b * (v + cy * p + e * (b * p))
  {
    assert (cy + e * b) * (b * p) == b * (cy * p + e * (b * p)) by {
      assert (cy + e * b) * (b * p) == cy * (b * p) + (e * b) * (b * p);
      assert cy * (b * p) == b * (cy * p);
      assert (e * b) * (b * p) == b * (e * (b * p));
    }
    assert b * (v + cy * p + e * (b * p)) == b * v + b * (cy * p + e * (b * p));
  }

  // ----- the multiplication

  /** The state after `i` limbs of `y`: the window and the carry above it hold the running total. */
  ghost predicate MontState(win: seq<Limb>, c: int, i: nat, x: int, y: int, k: int, m: int) {
    Reducing(Value(win) + c * Pow(B, |win|), Pow(B, i), x, y, k, m) && 0 <= c <= 1
  }

  /** What a window accumulates in one pass, with its two carries. */
  ghost predicate Pass(zs: seq<Limb>, c: int, tv: int, x: int, yi: int, m: int, q: int) {
    Value(zs) + c * Pow(B, |zs|) == tv + x * yi + m * q
  }

  lemma PassIntro(us: seq<Limb>, ms: seq<Limb>, c2: Limb, tv: int, x: int, yi: int, q: Limb)
    requires |us| == |ms| && Value(us) + c2 * Pow(B, |us|) == tv + x * yi
    ensures var r := AddMulLimbs(us, ms, q); Pass(r.limbs, c2 + r.carry, tv, x, yi, Value(ms), q)
  {
    hide Pow, Value, AddMulLimbs;
    AddMulLimbsValue(us, ms, q);
    SumOfCarries(c2, AddMulLimbs(us, ms, q).carry, Pow(B, |us|));
  }

  lemma SumOfCarries(c2: int, c3: int, p: int)
    ensures (c2 + c3) * p == c2 * p + c3 * p
  {}

  /** One pass of the loop. The merged carry `e` is 0 or 1: the two carries it stands for are never both
      set, because the running total stays below x + m. */
  lemma MontStep(zs: seq<Limb>, tv: int, c1: int, c: int, cy: Limb, e: int, i: nat,
                 x: int, y: int, yi: Limb, k: int, m: int, q: Limb)
    requires |zs| > 0 && zs[0] == 0 && Pass(zs, c, tv, x, yi, m, q)
    requires Reducing(tv + c1 * Pow(B, |zs|), Pow(B, i), x, y, k, m)
    requires c1 + c == cy + e * B && e >= 0 && 0 <= x < Pow(B, |zs|) && 0 < m < Pow(B, |zs|)
    ensures MontState(zs[1..] + [cy], e, i + 1, x, y + yi * Pow(B, i), k + q * Pow(B, i), m)
  {
    hide Pow, Value, Reducing;
    var p, win := Pow(B, |zs|), zs[1..] + [cy];
    var t, t' := tv + c1 * p, Value(win) + e * p;
    ShiftedWindow(zs, cy, e);
    SumOfCarries(c1, c, p);
    assert B * t' == t + x * yi + m * q;
    MulNonneg(e, p);
    PowSucc(B, i);
    ReducingStep(B, t, Pow(B, i), x, y, k, m, yi, q, t');
    ReducingBound(t', Pow(B, i + 1), x, y + yi * Pow(B, i), k + q * Pow(B, i), m);
    MulCancelLess(e, 2, p);
    assert |win| == |zs|;
  }

  /** Bitwise or of two carry bits. */
  function OrBits(a: Limb, b: Limb): (c: Limb)
    requires a <= 1 && b <= 1
    ensures a + b <= 1 ==> c == a + b
  {
    if a == 0 && b == 0 then 0 else 1
  }

  /** The second accumulation of a pass, on a window that already holds the product with a limb of `y`. */
  method AddModulus(tp: array<Limb>, i: nat, m: array<Limb>, n: nat, k: Limb, c2: Limb,
                    ghost tv: int, ghost x: int, ghost yi: int) returns (c3: Limb, ghost q: Limb)
    requires 0 < n <= m.Length && i + n <= tp.Length && tp != m && IsNegInverse(m[0], k)
    requires Value(tp[i..i + n]) + c2 * Pow(B, n) == tv + x * yi
    modifies tp
    ensures tp[i] == 0 && Pass(tp[i..i + n], c2 + c3, tv, x, yi, Value(m[..n]), q)
    ensures tp[i + n..] == old(tp[i + n..])
  {
    hide Pow, Value, Pass, IsNegInverse, AddMulLimbs, MulLow, Divides;
    ghost var us, ms := tp[i..i + n], m[..n];
    assert us[0] == tp[i];
    var mult := MulLow(tp[i], k);
    ClearedLimbs(us, ms, k, mult);
    PassIntro(us, ms, c2, tv, x, yi, mult);
    c3 := AddMul1(tp, i, m, n, mult);
    assert tp[i] == tp[i..i + n][0];
    q := mult;
  }

  /** `mpn_montmul_inner`: the product, reduced limb by limb, in the upper half of the scratch space. */
  method MontMulInner(x: array<Limb>, y: array<Limb>, m: array<Limb>, n: nat, k: Limb, tp: array<Limb>)
    returns (c1: Limb, ghost kk: int)
    requires 0 < n <= x.Length && n <= y.Length && n <= m.Length && 2 * n <= tp.Length
    requires tp != x && tp != y && tp != m
    requires IsNegInverse(m[0], k) && Value(m[..n]) > 0
    modifies tp
    ensures MontState(tp[n..2 * n], c1, n, Value(x[..n]), Value(y[..n]), kk, Value(m[..n]))
  {
    hide Pow, Value, Reducing, MontState, IsNegInverse;
    ghost var ys := y[..n];
    c1, kk := FirstPass(tp, x, y[0], m, n, k);
    assert ys[..1] == [y[0]];
    ValueSingle(y[0]);
    var i := 1;
    while i < n
      invariant 1 <= i <= n && c1 <= 1
      invariant MontState(tp[i..i + n], c1, i, Value(x[..n]), Value(ys[..i]), kk, Value(m[..n]))
    {
      c1, kk := NextPass(tp, i, x, y[i], m, n, k, c1, Value(ys[..i]), kk);
      assert ys[..i + 1] == ys[..i] + [ys[i]];
      ValueSnoc(ys[..i], ys[i]);
      i := i + 1;
    }
    assert ys[..n] == ys;
  }

  /** The pass before the loop, which overwrites the window instead of adding to it. */
  method FirstPass(tp: array<Limb>, x: array<Limb>, y0: Limb, m: array<Limb>, n: nat, k: Limb)
    returns (c1: Limb, ghost kk: int)
    requires 0 < n <= x.Length && n <= m.Length && n < tp.Length && tp != x && tp != m
    requires IsNegInverse(m[0], k) && Value(m[..n]) > 0
    modifies tp
    ensures c1 <= 1 && MontState(tp[1..1 + n], c1, 1, Value(x[..n]), y0, kk, Value(m[..n]))
  {
    hide Pow, Value, Reducing, MontState, Pass, IsNegInverse, MulLimbs, AddLimbs;
    ghost var xv, mv := Value(x[..n]), Value(m[..n]);
    ValueBound(x[..n]);
    ValueBound(m[..n]);
    var c2 := Mul1(tp, x, n, y0);
    MulLimbsValue(x[..n], y0);
    assert tp[0..0 + n] == tp[..n];
    var c3, q := AddModulus(tp, 0, m, n, k, c2, 0, xv, y0);
    ghost var zs := tp[0..0 + n];
    assert zs[0] == tp[0];
    var sum := AddLimbs(c2, c3);
    tp[n], c1 := sum.0, sum.1;
    ReducingStart(xv, mv);
    PowZero(B);
    ghost var c: int := c2;
    MontStep(zs, 0, 0, c + c3, tp[n], c1, 0, xv, 0, y0, 0, mv, q);
    assert tp[1..1 + n] == zs[1..] + [tp[n]];
    kk := 0 + q * Pow(B, 0);
    assert 0 + y0 * Pow(B, 0) == y0;
  }

  /** The body of the loop, for one limb of `y`. */
  method NextPass(tp: array<Limb>, i: nat, x: array<Limb>, yi: Limb, m: array<Limb>, n: nat, k: Limb, c: Limb,
                  ghost yv: int, ghost kk: int) returns (c1: Limb, ghost kk': int)
    requires 0 < n <= x.Length && n <= m.Length && i + n < tp.Length && tp != x && tp != m && c <= 1
    requires IsNegInverse(m[0], k) && Value(m[..n]) > 0
    requires MontState(tp[i..i + n], c, i, Value(x[..n]), yv, kk, Value(m[..n]))
    modifies tp
    ensures c1 <= 1
    ensures MontState(tp[i + 1..i + 1 + n], c1, i + 1, Value(x[..n]), yv + yi * Pow(B, i), kk', Value(m[..n]))
  {
    hide Pow, Value, Reducing, MontState, Pass, IsNegInverse, AddMulLimbs, AddLimbs;
    ghost var ts, xv, mv := tp[i..i + n], Value(x[..n]), Value(m[..n]);
    ValueBound(x[..n]);
    ValueBound(m[..n]);
    StateTotal(ts, c, i, xv, yv, kk, mv);
    var c2 := AddMul1(tp, i, x, n, yi);
    AddMulLimbsValue(ts, x[..n], yi);
    var c3, q := AddModulus(tp, i, m, n, k, c2, Value(ts), xv, yi);
    ghost var zs := tp[i..i + n];
    assert zs[0] == tp[i];
    var s2 := AddLimbs(c, c2);
    var s3 := AddLimbs(s2.0, c3);
    c1 := OrBits(s2.1, s3.1);
    tp[n + i] := s3.0;
    ghost var e: int, cc: int := s2.1, c2;
    e, cc := e + s3.1, cc + c3;
    CarryTotal(B, c, c2, c3, s2.0, s2.1, s3.0, s3.1);
    MontStep(zs, Value(ts), c, cc, s3.0, e, i, xv, yv, yi, kk, mv, q);
    assert tp[i + 1..i + 1 + n] == zs[1..] + [s3.0];
    kk' := kk + q * Pow(B, i);
    StateCarry(zs[1..] + [s3.0], e, i + 1, xv, yv + yi * Pow(B, i), kk', mv);
  }

  lemma StateTotal(win: seq<Limb>, c: int, i: nat, x: int, y: int, k: int, m: int)
    requires MontState(win, c, i, x, y, k, m)
    ensures Reducing(Value(win) + c * Pow(B, |win|), Pow(B, i), x, y, k, m)
  {}

  lemma StateCarry(win: seq<Limb>, c: int, i: nat, x: int, y: int, k: int, m: int)
    requires MontState(win, c, i, x, y, k, m)
    ensures 0 <= c <= 1
  {}

  lemma CarryTotal(b: int, c: int, c2: int, c3: int, cx: int, d2: int, cy: int, d3: int)
    requires cx + d2 * b == c + c2 && cy + d3 * b == cx + c3
    ensures c + (c2 + c3) == cy + (d2 + d3) * b
  {
    assert (d2 + d3) * b == d2 * b + d3 * b;
  }

  /** `mpn_montmul`: `z B^n = x y` modulo m, and `z` fits its limbs whatever the operands. */
  method MontMul(z: array<Limb>, x: array<Limb>, y: array<Limb>, m: array<Limb>, n: nat, k: Limb, tp: array<Limb>)
    requires 0 < n <= x.Length && n <= y.Length && n <= m.Length && n <= z.Length && 2 * n <= tp.Length
    requires tp != x && tp != y && tp != m && tp != z
    requires IsNegInverse(m[0], k) && Value(m[..n]) > 0
    modifies z, tp
    ensures Congruent(Value(z[..n]) * Pow(B, n), old(Value(x[..n])) * old(Value(y[..n])), old(Value(m[..n])))
    ensures Value(z[..n]) < Pow(B, n)
    ensures z[n..] == old(z[n..])
  {
    hide Pow, Value, MontState, IsNegInverse, DiffLimbs, Congruent;
    ghost var xs, ys, ms := x[..n], y[..n], m[..n];
    var c, kk := MontMulInner(x, y, m, n, k, tp);
    ghost var ts := tp[n..2 * n];
    FinalReduction(ts, ms, c, n, xs, ys, kk);
    if c != 0 {
      assert tp[n..n + n] == ts && m[0..0 + n] == ms;
      var brw := SubN(z, 0, tp, n, m, 0, n);
      assert z[0..0 + n] == z[..n];
    } else {
      CopyTo(z, tp, n, n);
      assert tp[n..n + n] == ts;
    }
    ValueBound(z[..n]);
  }

  /** The last step: subtract the modulus once when the total overflowed its limbs. */
  lemma FinalReduction(ts: seq<Limb>, ms: seq<Limb>, c: Limb, n: nat, xs: seq<Limb>, ys: seq<Limb>, kk: int)
    requires |ts| == |ms| == |xs| == n && Value(ms) > 0
    requires MontState(ts, c, n, Value(xs), Value(ys), kk, Value(ms))
    ensures c != 0 ==> Congruent(Value(DiffLimbs(ts, ms).limbs) * Pow(B, n), Value(xs) * Value(ys), Value(ms))
    ensures c == 0 ==> Congruent(Value(ts) * Pow(B, n), Value(xs) * Value(ys), Value(ms))
  {
    hide Pow, Value, DiffLimbs, Reducing, Congruent;
    var p := Pow(B, n);
    if c == 0 {
      ReducedCongruent(Value(ts), p, Value(xs), Value(ys), kk, Value(ms), 0);
    } else {
      var total := Value(ts) + p;
      ReducingBound(total, p, Value(xs), Value(ys), kk, Value(ms));
      Overflowed(ts, ms, xs);
      ReducedCongruent(total, p, Value(xs), Value(ys), kk, Value(ms), 1);
    }
  }

  /** The total is B^n plus the window, so subtracting the modulus from the window borrows. */
  lemma Overflowed(ts: seq<Limb>, ms: seq<Limb>, xs: seq<Limb>)
    requires |ts| == |ms| == |xs| && Pow(B, |ts|) + Value(ts) < Value(xs) + Value(ms)
    ensures Value(DiffLimbs(ts, ms).limbs) == Pow(B, |ts|) + Value(ts) - Value(ms)
  {
    hide Pow, Value, DiffLimbs;
    var r := DiffLimbs(ts, ms);
    ValueBound(xs);
    ValueBound(r.limbs);
    DiffLimbsValue(ts, ms);
    OverflowBorrows(Pow(B, |ts|), Value(ts), Value(ms), Value(xs), Value(r.limbs), r.carry);
  }

  lemma OverflowBorrows(p: int, t: int, m: int, x: int, d: int, brw: int)
    requires d - brw * p == t - m && 0 <= brw <= 1 && 0 <= d && p + t < x + m && x < p
    ensures d == p + t - m
  {
    assert brw == 0 ==> brw * p == 0;
    assert brw == 1 ==> brw * p == p;
  }

  lemma ReducedCongruent(t: int, w: int, x: int, y: int, k: int, m: int, j: int)
    requires Reducing(t, w, x, y, k, m)
    ensures Congruent((t - j * m) * w, x * y, m)
  {
    assert (t - j * m) * w - x * y == (k - j * w) * m by {
      assert (t - j * m) * w == t * w - (j * w) * m;
      assert (k - j * w) * m == k * m - (j * w) * m;
    }
    DividesIntro(m, (t - j * m) * w - x * y, k - j * w);
  }

  /** `mpn_mont`: the constants for an odd modulus, `k = -1/m` modulo B and `r = B^(2n) mod m`. */
  method Precompute(rp: array<Limb>, m: array<Limb>, n: nat, xp: array<Limb>) returns (k: Limb)
    requires 0 < n <= m.Length && n <= rp.Length && xp.Length == 2 * n + 1
    requires xp != m && rp != m && m[n - 1] != 0 && m[0] % 2 == 1
    modifies rp, xp
    ensures IsNegInverse(m[0], k)
    ensures Value(rp[..n]) < Value(m[..n]) && Congruent(Value(rp[..n]), Pow(B, 2 * n), Value(m[..n]))
  {
    hide Pow, Value, Divides, Congruent;
    var inv := InvMod(m[0]);
    var low: int := inv;
    k := Wrap(-low);
    NegatedInverse(B, m[0], inv, k, if inv == 0 then 0 else 1);
    for i := 0 to 2 * n
      invariant forall j :: 0 <= j < i ==> xp[j] == 0
    {
      xp[i] := 0;
    }
    xp[2 * n] := 1;
    assert xp[..2 * n + 1] == xp[..2 * n] + [1];
    ValueZeros(xp[..2 * n]);
    ValueSnoc(xp[..2 * n], 1);
    ghost var big, mv := Pow(B, 2 * n), Value(m[..n]);
    ghost var quot, rem := DivMod.DivMod(null, rp, xp, 2 * n + 1, m, n);
    RemainderCongruent(big, quot, mv, rem);
  }

  lemma RemainderCongruent(x: int, q: int, m: int, r: int)
    requires x == q * m + r
    ensures Congruent(r, x, m)
  {
    assert r - x == (-q) * m;
    DividesIntro(m, r - x, -q);
  }

  lemma NegatedInverse(b: int, m0: int, inv: int, k: int, j: int)
    requires Divides(b, m0 * inv - 1) && k == j * b - inv
    ensures Divides(b, m0 * k + 1)
  {
    hide Divides;
    DividesIntro(b, (m0 * j) * b, m0 * j);
    DividesSum(b, (m0 * j) * b, m0 * inv - 1);
    assert m0 * k == (m0 * j) * b - m0 * inv by { assert m0 * (j * b - inv) == m0 * (j * b) - m0 * inv; }
  }
}
