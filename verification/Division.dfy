/** Division of limb arrays: one-limb divisors through the shifting loop, longer divisors through
    Algorithm D of section 4.3.1 of "The Art of Computer Programming", volume 2. */
module Division {
  import opened Arith
  import opened Limbs
  import opened LimbArrays
  import opened Reciprocal
  import opened Shifts

  // ----- estimating one quotient digit

  /** The window `u` over the divisor `v`: three top limbs `u3` against two top limbs `vv`, with rests
      below weight `p`. The window is short enough for a one-limb quotient. */
  ghost predicate Window(b: int, u: int, v: int, u3: int, vv: int, p: int) {
    && u3 * p <= u < u3 * p + p
    && vv * p <= v < vv * p + p
    && u < v * b && p >= 1 && b >= 2
  }

  /** The limbs of `u3` and of a normalized `vv`. */
  ghost predicate TopDigits(b: int, u3: int, vv: int, ua: int, ub: int, uc: int, v1: int, v2: int) {
    && u3 == (ua * b + ub) * b + uc && vv == v1 * b + v2
    && 0 <= ua < b && 0 <= ub < b && 0 <= uc < b && 0 <= v2 < b && 0 < v1 < b <= 2 * v1
  }

  /** The estimate is the true quotient digit or one more. */
  ghost predicate AtMostOneOver(qhat: int, u: int, v: int) {
    (qhat - 1) * v <= u < (qhat + 1) * v
  }

  ghost predicate NotUnder(qhat: int, u: int, v: int) {
    u < (qhat + 1) * v
  }

  lemma WindowTop(b: int, u: int, v: int, u3: int, vv: int, p: int)
    requires Window(b, u, v, u3, vv, p)
    ensures u3 < (vv + 1) * b
  {
    assert (vv + 1) * p == vv * p + p;
    MulMono(v, (vv + 1) * p, b);
    assert (vv + 1) * p * b == (vv + 1) * b * p;
    MulCancelLess(u3, (vv + 1) * b, p);
  }

  /** The top limb of the window never exceeds the top limb of the divisor. */
  lemma TopLimbs(b: int, u: int, v: int, u3: int, vv: int, p: int,
                 ua: int, ub: int, uc: int, v1: int, v2: int)
    requires Window(b, u, v, u3, vv, p) && TopDigits(b, u3, vv, ua, ub, uc, v1, v2)
    ensures ua <= v1
  {
    hide Window;
    WindowTop(b, u, v, u3, vv, p);
    MulCancelLess(ua * b + ub, vv + 1, b);
    assert (v1 + 1) * b == v1 * b + b;
    MulCancelLess(ua, v1 + 1, b);
  }

  lemma SaturatedWeights(b: int, u: int, v: int, v1: int, w: int)
    requires u >= v1 * b * w && v <= (v1 + 1) * w && 2 <= b <= 2 * v1 && w > 0
    ensures (b - 2) * v <= u
  {
    MulMono(v, (v1 + 1) * w, b - 2);
    assert (v1 + 1) * w * (b - 2) == (v1 * b + (b - 2 * v1 - 2)) * w;
    MulMono(v1 * b + (b - 2 * v1 - 2), v1 * b, w);
  }

  /** When the top limbs agree, the code takes b - 1 without correcting it. The true digit is b - 1 or
      b - 2, so the estimate is still at most one too large. */
  lemma SaturatedDigit(b: int, u: int, v: int, u3: int, vv: int, p: int,
                       ua: int, ub: int, uc: int, v1: int, v2: int)
    requires Window(b, u, v, u3, vv, p) && TopDigits(b, u3, vv, ua, ub, uc, v1, v2) && ua == v1
    ensures AtMostOneOver(b - 1, u, v)
  {
    assert u >= v1 * b * (b * p) by {
      hide Window;
      LowerWeight(b, u, v, u3, vv, p, v1 * b) by {
        MulMono(v1 * b, ua * b + ub, b);
      }
    }
    assert v <= (v1 + 1) * (b * p) by {
      UpperWeight(b, v, vv, p, v1, v2);
    }
    assert b * p > 0 by { MulStrict(0, p, b); }
    SaturatedWeights(b, u, v, v1, b * p);
  }

  lemma LowerWeight(b: int, u: int, v: int, u3: int, vv: int, p: int, t: int)
    requires Window(b, u, v, u3, vv, p) && t * b <= u3
    ensures t * (b * p) <= u
  {
    MulMono(t * b, u3, p);
    assert t * b * p == t * (b * p);
  }

  lemma UpperWeight(b: int, v: int, vv: int, p: int, v1: int, v2: int)
    requires v < vv * p + p && vv == v1 * b + v2 && v2 < b && p >= 1
    ensures v <= (v1 + 1) * (b * p)
  {
    assert (v1 + 1) * b == v1 * b + b;
    MulMono(vv + 1, (v1 + 1) * b, p);
    assert (vv + 1) * p == vv * p + p;
    assert (v1 + 1) * b * p == (v1 + 1) * (b * p);
  }

  /** The first estimate, from two limbs over one, is never too small. */
  lemma FirstEstimate(b: int, u: int, v: int, u3: int, vv: int, p: int,
                      ua: int, ub: int, uc: int, v1: int, v2: int, qhat: int, rhat: int)
    requires Window(b, u, v, u3, vv, p) && TopDigits(b, u3, vv, ua, ub, uc, v1, v2)
    requires Remaining(b, ua, ub, v1, qhat, rhat) && rhat < v1 && qhat >= 0
    ensures NotUnder(qhat, u, v)
  {
    // u < (t + 1) b p <= (qhat + 1) v1 b p <= (qhat + 1) v, with t = ua b + ub
    hide NotUnder;
    var t := ua * b + ub;
    UpperStrict(b, u, u3, p, t, uc);
    DivisorWeight(b, v, vv, p, v1, v2);
    assert t + 1 <= (qhat + 1) * v1 by { hide Window, TopDigits; assert (qhat + 1) * v1 == qhat * v1 + v1; }
    hide Window, TopDigits, Remaining;
    assert b * p > 0 by { MulStrict(0, p, b); }
    ChainEstimate(u, v, t, v1, b * p, qhat);
  }

  lemma DivisorWeight(b: int, v: int, vv: int, p: int, v1: int, v2: int)
    requires vv * p <= v && vv == v1 * b + v2 && v2 >= 0 && p >= 1
    ensures v1 * (b * p) <= v
  {
    MulMono(v1 * b, vv, p);
    assert v1 * b * p == v1 * (b * p);
  }

  lemma UpperStrict(b: int, u: int, u3: int, p: int, t: int, uc: int)
    requires u < u3 * p + p && u3 == t * b + uc && uc < b && p >= 1
    ensures u < (t + 1) * (b * p)
  {
    assert (t + 1) * b == t * b + b;
    MulMono(u3 + 1, (t + 1) * b, p);
    assert (u3 + 1) * p == u3 * p + p;
    assert (t + 1) * b * p == (t + 1) * (b * p);
  }

  lemma ChainEstimate(u: int, v: int, t: int, v1: int, w: int, qhat: int)
    requires u < (t + 1) * w && v1 * w <= v && t + 1 <= (qhat + 1) * v1 && w > 0 && qhat >= 0
    ensures NotUnder(qhat, u, v)
  {
    MulMono(t + 1, (qhat + 1) * v1, w);
    MulMono(v1 * w, v, qhat + 1);
    assert (qhat + 1) * v1 * w == v1 * w * (qhat + 1);
  }

  /** The running remainder of the estimate, and the test of the correction loop on it. */
  ghost predicate Remaining(b: int, ua: int, ub: int, v1: int, qhat: int, rhat: int) {
    rhat == ua * b + ub - qhat * v1
  }

  lemma TestIdentity(b: int, t: int, uc: int, v1: int, v2: int, qhat: int)
    ensures (t - qhat * v1) * b + uc - qhat * v2 == t * b + uc - qhat * (v1 * b + v2)
  {
    assert (t - qhat * v1) * b == t * b - qhat * v1 * b;
    assert qhat * (v1 * b + v2) == qhat * v1 * b + qhat * v2;
  }

  /** The test compares three limbs of the window with the product of two limbs of the divisor. */
  lemma TestMeaning(b: int, u3: int, vv: int, ua: int, ub: int, uc: int, v1: int, v2: int, qhat: int, rhat: int)
    requires TopDigits(b, u3, vv, ua, ub, uc, v1, v2) && Remaining(b, ua, ub, v1, qhat, rhat)
    ensures rhat * b + uc - qhat * v2 == u3 - qhat * vv
  {
    TestIdentity(b, ua * b + ub, uc, v1, v2, qhat);
  }

  /** When the test fires, the estimate is too large, so lowering it keeps it an upper bound. */
  lemma TestFires(b: int, u: int, v: int, u3: int, vv: int, p: int, qhat: int)
    requires Window(b, u, v, u3, vv, p) && qhat * vv > u3 && qhat >= 0
    ensures NotUnder(qhat - 1, u, v)
  {
    MulMono(u3 + 1, qhat * vv, p);
    assert (u3 + 1) * p == u3 * p + p;
    MulRotate(vv, p, qhat);
    MulMono(vv * p, v, qhat);
  }

  lemma MulRotate(x: int, y: int, z: int)
    ensures (x * y) * z == (z * x) * y
  {}

  /** When the test does not fire, the estimate is at most one too large. */
  lemma TestPasses(b: int, u: int, v: int, u3: int, vv: int, p: int, qhat: int)
    requires Window(b, u, v, u3, vv, p) && NotUnder(qhat, u, v)
    requires qhat * vv <= u3 && 0 <= qhat <= vv && u >= 0
    ensures AtMostOneOver(qhat, u, v)
  {
    if qhat == 0 {
      assert -1 * v <= u by { MulNonneg(vv, p); }
    } else {
      PassingProduct(vv, qhat, u3);
      PassingWeight(u, v, u3, vv, p, qhat) by { assert (vv + 1) * p == vv * p + p; }
    }
  }

  /** (qhat - 1) v <= (qhat - 1)(vv + 1) p <= u3 p <= u. */
  lemma PassingWeight(u: int, v: int, u3: int, vv: int, p: int, qhat: int)
    requires v <= (vv + 1) * p && u3 * p <= u && (qhat - 1) * (vv + 1) <= u3 && qhat >= 1 && p >= 1
    ensures (qhat - 1) * v <= u
  {
    MulMono(v, (vv + 1) * p, qhat - 1);
    MulMono((qhat - 1) * (vv + 1), u3, p);
    MulRotate(vv + 1, p, qhat - 1);
  }

  lemma PassingProduct(vv: int, qhat: int, u3: int)
    requires qhat * vv <= u3 && qhat <= vv
    ensures (qhat - 1) * (vv + 1) <= u3
  {
    assert (qhat - 1) * (vv + 1) == qhat * vv + qhat - vv - 1;
  }

  lemma Lowered(b: int, ua: int, ub: int, v1: int, qhat: int, rhat: int)
    requires Remaining(b, ua, ub, v1, qhat, rhat)
    ensures Remaining(b, ua, ub, v1, qhat - 1, rhat + v1)
  {
    assert (qhat - 1) * v1 == qhat * v1 - v1;
  }

  /** Once the running remainder reaches b, the test cannot fire any more. */
  lemma OverflowPasses(b: int, rhat: int, v2: int, uc: int, qhat: int)
    requires rhat >= b && 0 <= qhat < b && 0 <= v2 < b && 0 <= uc
    ensures qhat * v2 <= rhat * b + uc
  {
    MulMono(b, rhat, b);
    MulMono2(qhat, b, v2, b);
  }

  lemma DivisorAtLeastBase(b: int, u3: int, vv: int, ua: int, ub: int, uc: int, v1: int, v2: int)
    requires TopDigits(b, u3, vv, ua, ub, uc, v1, v2)
    ensures vv >= b
  {
    MulMono(1, v1, b);
  }

  /** `mp_mul_gt_2`: the two-limb product against a two-limb number. */
  predicate MulGt2(u: Limb, v: Limb, y1: Limb, y0: Limb) {
    var (x1, x0) := MulWide(u, v);
    x1 > y1 || (x1 == y1 && x0 > y0)
  }

  lemma MulGt2Meaning(u: Limb, v: Limb, y1: Limb, y0: Limb)
    ensures MulGt2(u, v, y1, y0) <==> u * v > y1 * B + y0
  {
    hide MulWide, Pow;
    var (x1, x0) := MulWide(u, v);
    TwoLimbOrder(B, x1, x0, y1, y0);
  }

  lemma TwoLimbOrder(b: int, x1: int, x0: int, y1: int, y0: int)
    requires 0 <= x0 < b && 0 <= y0 < b
    ensures (x1 > y1 || (x1 == y1 && x0 > y0)) <==> x1 * b + x0 > y1 * b + y0
  {
    if x1 > y1 { MulMono(y1 + 1, x1, b); assert (y1 + 1) * b == y1 * b + b; }
    if x1 < y1 { MulMono(x1 + 1, y1, b); assert (x1 + 1) * b == x1 * b + b; }
  }

  lemma PositiveFactor(x: nat, y: nat)
    requires x * y > 0
    ensures x > 0
  {}

  /** One round of the correction loop. */
  lemma CorrectionFires(u: int, v: int, u3: int, vv: int, p: int, ua: Limb, ub: Limb, uc: Limb, v1: Limb, v2: Limb,
                        qhat: Limb, rhat: Limb)
    requires Window(B, u, v, u3, vv, p) && TopDigits(B, u3, vv, ua, ub, uc, v1, v2)
    requires Remaining(B, ua, ub, v1, qhat, rhat) && MulGt2(qhat, v2, rhat, uc)
    ensures qhat > 0 && NotUnder(qhat - 1, u, v)
    ensures Remaining(B, ua, ub, v1, qhat - 1, rhat + v1)
  {
    hide Pow, Window, TopDigits, NotUnder, Remaining, MulGt2;
    MulGt2Meaning(qhat, v2, rhat, uc);
    TestMeaning(B, u3, vv, ua, ub, uc, v1, v2, qhat, rhat);
    TestFires(B, u, v, u3, vv, p, qhat);
    Lowered(B, ua, ub, v1, qhat, rhat);
    MulNonneg(rhat, B);
    PositiveFactor(qhat, v2);
  }

  /** Leaving the loop, by a failed test or by the remainder outgrowing a limb. */
  lemma CorrectionPasses(u: int, v: int, u3: int, vv: int, p: int, ua: Limb, ub: Limb, uc: Limb, v1: Limb, v2: Limb,
                         qhat: Limb, rhat: int)
    requires Window(B, u, v, u3, vv, p) && TopDigits(B, u3, vv, ua, ub, uc, v1, v2) && u >= 0
    requires Remaining(B, ua, ub, v1, qhat, rhat) && NotUnder(qhat, u, v)
    requires rhat >= B || (rhat >= 0 && !MulGt2(qhat, v2, rhat, uc))
    ensures AtMostOneOver(qhat, u, v)
  {
    hide Pow, Window, TopDigits, NotUnder, Remaining, MulGt2, AtMostOneOver;
    if rhat >= B {
      OverflowPasses(B, rhat, v2, uc, qhat);
    } else {
      MulGt2Meaning(qhat, v2, rhat, uc);
    }
    TestMeaning(B, u3, vv, ua, ub, uc, v1, v2, qhat, rhat);
    DivisorAtLeastBase(B, u3, vv, ua, ub, uc, v1, v2);
    TestPasses(B, u, v, u3, vv, p, qhat);
  }

  /** The quotient of two limbs by one, as the start of the correction loop. */
  method FirstDigit(ua: Limb, ub: Limb, v1: Limb, inv: Limb) returns (qhat: Limb, rhat: Limb)
    requires Normalized(v1) && IsReciprocal(v1, inv) && ua < v1
    ensures Remaining(B, ua, ub, v1, qhat, rhat) && rhat < v1
  {
    hide Pow, IsReciprocal;
    qhat, rhat := Div2By1(ua, ub, v1, inv);
  }

  /** Step D3: the estimate is the true digit or one more, in every branch. */
  method EstimateDigit(ua: Limb, ub: Limb, uc: Limb, v1: Limb, v2: Limb, inv: Limb,
                       ghost u: int, ghost v: int, ghost u3: int, ghost vv: int, ghost p: int)
    returns (qhat: Limb)
    requires Window(B, u, v, u3, vv, p) && u >= 0
    requires TopDigits(B, u3, vv, ua, ub, uc, v1, v2)
    requires Normalized(v1) && IsReciprocal(v1, inv)
    ensures AtMostOneOver(qhat, u, v)
  {
    hide Pow, Window, TopDigits, IsReciprocal, AtMostOneOver, NotUnder, Remaining, MulGt2;
    TopLimbs(B, u, v, u3, vv, p, ua, ub, uc, v1, v2);
    if ua == v1 {
      SaturatedDigit(B, u, v, u3, vv, p, ua, ub, uc, v1, v2);
      return LIMB_MAX;
    }
    var rhat: Limb;
    qhat, rhat := FirstDigit(ua, ub, v1, inv);
    FirstEstimate(B, u, v, u3, vv, p, ua, ub, uc, v1, v2, qhat, rhat);
    while MulGt2(qhat, v2, rhat, uc)
      invariant Remaining(B, ua, ub, v1, qhat, rhat) && NotUnder(qhat, u, v)
      decreases qhat
    {
      CorrectionFires(u, v, u3, vv, p, ua, ub, uc, v1, v2, qhat, rhat);
      qhat := qhat - 1;
      rhat := Wrap(rhat + v1);
      if rhat < v1 {
        // the limb wrapped: the true remainder is at least B
        CorrectionPasses(u, v, u3, vv, p, ua, ub, uc, v1, v2, qhat, rhat + B);
        return;
      }
    }
    CorrectionPasses(u, v, u3, vv, p, ua, ub, uc, v1, v2, qhat, rhat);
  }

  // ----- one step of the division: subtract, and add back at most once

  /** The window after the multiply-and-subtract of step D4, as one number. `low` and `top` are the
      window's lower limbs and its top limb, with `c` the borrow between them and `k` the final borrow. */
  lemma Subtracted(b: int, u: int, v: int, qhat: int, low: int, top: int, low': int, top': int, c: int, k: int, w: int)
    requires u == low + top * w
    requires low' - c * w == low - v * qhat && top' - k * b == top - c
    ensures low' + top' * w - k * (b * w) == u - v * qhat
  {
    assert (top' - k * b) * w == (top - c) * w;
    assert (top' - k * b) * w == top' * w - k * (b * w);
    assert (top - c) * w == top * w - c * w;
  }

  /** Without a borrow the window already holds the remainder: the estimate was the true digit. */
  lemma NoBorrow(u: int, v: int, qhat: int, low: int, top: int, w: int)
    requires AtMostOneOver(qhat, u, v) && low + top * w == u - v * qhat
    requires 0 <= low < w && 0 <= top && 0 < v < w
    ensures top == 0 && qhat * v + low == u && low < v
  {
    assert (qhat + 1) * v == v * qhat + v;
    if top > 0 { MulMono(1, top, w); }
  }

  /** With a borrow the estimate was one too large: adding the divisor back once cancels the borrow. */
  lemma AddedBack(b: int, u: int, v: int, qhat: int, low: int, top: int, low': int, c: int, w: int)
    requires AtMostOneOver(qhat, u, v) && low + top * w - b * w == u - v * qhat
    requires low' + c * w == low + v
    requires 0 <= low' < w && 0 <= top < b && 0 <= c <= 1 && 0 <= low < w && 0 < v < w
    ensures top + c == b && (qhat - 1) * v + low' == u && low' < v
  {
    assert (qhat - 1) * v == v * qhat - v;
    assert low' + (top + c) * w == u - (qhat - 1) * v + b * w by {
      assert (top + c) * w == top * w + c * w;
    }
    assert (top + c) * w <= b * w by { MulMono(top + c, b, w); }
    var rem := u - (qhat - 1) * v;
    assert 0 <= rem;
    assert (top + c + 1) * w == (top + c) * w + w;
    if top + c < b { MulMono(top + c + 1, b, w); }
    assert low' == rem;
    // u < qhat v, since the window came out negative
    assert u < v * qhat by {
      MulMono(top + 1, b, w);
      assert (top + 1) * w == top * w + w;
    }
  }

  ghost predicate DigitDone(q: int, rem: int, u: int, v: int) {
    q * v + rem == u && 0 <= rem < v
  }

  lemma DigitNonneg(q: int, rem: int, u: int, v: int)
    requires DigitDone(q, rem, u, v) && u >= 0
    ensures q >= 0
  {
    MulCancelLess(-1, q, v);
  }

  // ----- the same facts about limb sequences

  lemma TwoLimbs(x: Limb, y: Limb)
    ensures Value([x, y]) == y * B + x
  {
    hide Pow, Value;
    ValueSingle(y);
    ValueCons(x, [y]);
    assert [x] + [y] == [x, y];
  }

  lemma ThreeLimbs(x: Limb, y: Limb, z: Limb)
    ensures Value([x, y, z]) == (z * B + y) * B + x
  {
    hide Pow, Value;
    TwoLimbs(y, z);
    ValueCons(x, [y, z]);
    assert [x] + [y, z] == [x, y, z];
  }

  lemma SplitBounds(s: seq<Limb>, k: nat)
    requires k <= |s|
    ensures Value(s[k..]) * Pow(B, k) <= Value(s) < Value(s[k..]) * Pow(B, k) + Pow(B, k)
  {
    hide Pow, Value;
    ValueSplit(s, k);
    ValueBound(s[..k]);
  }

  /** A window of limbs over a normalized divisor has the shape the estimate needs. */
  lemma LimbWindow(us: seq<Limb>, vs: seq<Limb>)
    requires 2 <= |vs| && |us| == |vs| + 1
    requires Value(us) < Value(vs) * B && Normalized(vs[|vs| - 1])
    ensures var n := |vs| - 2;
            && Window(B, Value(us), Value(vs), Value(us[n..]), Value(vs[n..]), Pow(B, n))
            && TopDigits(B, Value(us[n..]), Value(vs[n..]), us[n + 2], us[n + 1], us[n], vs[n + 1], vs[n])
  {
    hide Pow, Value;
    var n := |vs| - 2;
    RadixFacts();
    SplitBounds(us, n);
    SplitBounds(vs, n);
    assert us[n..] == [us[n], us[n + 1], us[n + 2]] && vs[n..] == [vs[n], vs[n + 1]];
    ThreeLimbs(us[n], us[n + 1], us[n + 2]);
    TwoLimbs(vs[n], vs[n + 1]);
  }

  /** The divisor is positive and fits its limbs, and so does whatever replaces the window. */
  lemma DivisorFits(vs: seq<Limb>)
    requires |vs| > 0 && Normalized(vs[|vs| - 1])
    ensures 0 < Value(vs) < Pow(B, |vs|)
  {
    hide Pow, Value;
    RadixFacts();
    ValueBound(vs);
    ValueTop(vs);
  }

  /** After D4 the window stands for `us - vs * qhat`, plus one radix of the window when `k` is set. */
  ghost predicate Reduced(low: seq<Limb>, top: Limb, k: Limb, us: seq<Limb>, vs: seq<Limb>, qhat: Limb) {
    Value(low) + top * Pow(B, |vs|) - k * (B * Pow(B, |vs|)) == Value(us) - Value(vs) * qhat
  }

  lemma StepReduced(low: seq<Limb>, vs: seq<Limb>, qhat: Limb, top: Limb)
    requires |low| == |vs|
    ensures var r := SubMulLimbs(low, vs, qhat);
            var (t, k) := SubLimbs(top, r.carry);
            Reduced(r.limbs, t, k, low + [top], vs, qhat)
  {
    hide Pow, Value, SubMulLimbs, SubLimbs;
    var r := SubMulLimbs(low, vs, qhat);
    var (t, k) := SubLimbs(top, r.carry);
    ValueSnoc(low, top);
    SubMulLimbsValue(low, vs, qhat);
    Subtracted(B, Value(low + [top]), Value(vs), qhat, Value(low), top, Value(r.limbs), t, r.carry, k, Pow(B, |vs|));
  }

  lemma NoBorrowLimbs(low: seq<Limb>, us: seq<Limb>, vs: seq<Limb>, top: Limb, qhat: Limb)
    requires |low| == |vs| > 0 && Normalized(vs[|vs| - 1]) && AtMostOneOver(qhat, Value(us), Value(vs))
    requires Reduced(low, top, 0, us, vs, qhat)
    ensures DigitDone(qhat, Value(low), Value(us), Value(vs))
  {
    hide Pow, Value, AtMostOneOver;
    ValueBound(low);
    DivisorFits(vs);
    NoBorrow(Value(us), Value(vs), qhat, Value(low), top, Pow(B, |vs|));
  }

  lemma AddBackLimbs(low: seq<Limb>, us: seq<Limb>, vs: seq<Limb>, top: Limb, qhat: Limb)
    requires |low| == |vs| > 0 && Normalized(vs[|vs| - 1]) && AtMostOneOver(qhat, Value(us), Value(vs))
    requires Reduced(low, top, 1, us, vs, qhat)
    ensures DigitDone(qhat - 1, Value(SumLimbs(low, vs).limbs), Value(us), Value(vs)) && qhat >= 1
    ensures top + SumLimbs(low, vs).carry == B
  {
    hide Pow, Value, AtMostOneOver, SumLimbs;
    var r := SumLimbs(low, vs);
    ValueBound(low);
    ValueBound(r.limbs);
    DivisorFits(vs);
    SumLimbsValue(low, vs);
    AddedBack(B, Value(us), Value(vs), qhat, Value(low), top, Value(r.limbs), r.carry, Pow(B, |vs|));
    DigitNonneg(qhat - 1, Value(r.limbs), Value(us), Value(vs));
  }

  /** Step D4 on the window `up[j..j + dn + 1]`, returning the final borrow. */
  method MultiplyAndSubtract(up: array<Limb>, j: nat, vp: array<Limb>, dn: nat, qhat: Limb) returns (k: Limb)
    requires dn <= vp.Length && j + dn < up.Length && up != vp
    modifies up
    ensures k <= 1 && Reduced(up[j..j + dn], up[j + dn], k, old(up[j..j + dn + 1]), vp[..dn], qhat)
    ensures up[..j] == old(up[..j]) && up[j + dn + 1..] == old(up[j + dn + 1..])
  {
    hide Pow, Value, SubMulLimbs, SubLimbs, Reduced;
    ghost var us, vs := up[j..j + dn + 1], vp[..dn];
    ghost var low, top := us[..dn], us[dn];
    assert up[j..j + dn] == low && us == low + [top];
    StepReduced(low, vs, qhat, top);
    var c := SubMul1(up, j, vp, dn, qhat);
    assert up[j + dn] == up[j + dn..][0] == old(up[j + dn..])[0] == top;
    var t: Limb;
    t, k := SubLimbs(up[j + dn], c).0, SubLimbs(up[j + dn], c).1;
    up[j + dn] := t;
    assert up[j..j + dn] == SubMulLimbs(low, vs, qhat).limbs;
  }

  /** Steps D3 to D6 on the window `up[j..j + dn + 1]`: afterwards it holds the remainder. */
  method DivideStep(up: array<Limb>, j: nat, vp: array<Limb>, dn: nat, inv: Limb) returns (q: Limb)
    requires 2 <= dn <= vp.Length && j + dn < up.Length && up != vp
    requires Normalized(vp[dn - 1]) && IsReciprocal(vp[dn - 1], inv)
    requires Value(up[j..j + dn + 1]) < Value(vp[..dn]) * B
    modifies up
    ensures DigitDone(q, Value(up[j..j + dn]), old(Value(up[j..j + dn + 1])), Value(vp[..dn]))
    ensures up[..j] == old(up[..j]) && up[j + dn + 1..] == old(up[j + dn + 1..])
  {
    hide Pow, Value, IsReciprocal, Window, TopDigits, AtMostOneOver, DigitDone, Reduced, SumLimbs;
    ghost var us, vs := up[j..j + dn + 1], vp[..dn];
    LimbWindow(us, vs);
    q := EstimateDigit(up[j + dn], up[j + dn - 1], up[j + dn - 2], vp[dn - 1], vp[dn - 2], inv,
                       Value(us), Value(vs), Value(us[dn - 2..]), Value(vs[dn - 2..]), Pow(B, dn - 2));
    var k := MultiplyAndSubtract(up, j, vp, dn, q);
    ghost var low, t := up[j..j + dn], up[j + dn];
    if k != 0 {
      AddBackLimbs(low, us, vs, t, q);
      var c := AddN(up, j, up, j, vp, 0, dn);
      var top: int := up[j + dn];
      up[j + dn] := Wrap(top + c);
      q := q - 1;
      assert up[j..j + dn] == SumLimbs(low, vs).limbs;
    } else {
      NoBorrowLimbs(low, us, vs, t, q);
    }
  }
}
