/** Division of two limbs by one through a precomputed reciprocal
    (Algorithm 4 of "Improved division by invariant integers"). */
module Reciprocal {
  import opened Arith
  import opened Limbs

  predicate Normalized(d: Limb) {
    2 * d >= B
  }

  /** `v` is the reciprocal of `d`: floor((B^2 - 1) / d) - B. */
  ghost predicate IsReciprocal(d: Limb, v: Limb) {
    (B + v) * d < B * B <= (B + v + 1) * d
  }

  /** The low limb of a product: limb multiplication wraps. */
  function MulLow(x: Limb, y: Limb): (z: Limb)
    ensures Divides(B, x * y - z)
  {
    var z: Limb := (x * y) % B;
    DividesIntro(B, x * y - z, (x * y) / B);
    z
  }

  /** A two-limb number below d B has a one-limb quotient by d. */
  lemma QuotientFits(n1: int, n0: int, d: int, q: int, r: int)
    requires 0 <= n1 < d && 0 <= n0 < B && 0 <= r < d && q * d + r == n1 * B + n0
    ensures 0 <= q < B
  {
    var b: int := B;
    MulMono(n1 + 1, d, B);
    assert (n1 + 1) * b == n1 * b + b;
    MulCancelLess(q, b, d);
    MulNonneg(n1, b);
    MulCancelLess(-1, q, d);
  }

  lemma MulNonneg(x: int, y: int)
    requires 0 <= x && 0 <= y
    ensures 0 <= x * y
  {}

  /** Two-limb numerator divided by one limb; `HalfLimbs` has the code that computes it. */
  function WideDiv(n1: Limb, n0: Limb, d: Limb): (r: (Limb, Limb))
    requires n1 < d
    ensures r.0 * d + r.1 == n1 * B + n0 && r.1 < d
  {
    var n := n1 * B + n0;
    var q, r := n / d, n % d;
    QuotientFits(n1, n0, d, q, r);
    (q, r)
  }

  /** `mp_inv_2by1`: divide (~d, B - 1) by d. */
  function Inv2By1(d: Limb): (v: Limb)
    requires Normalized(d)
    ensures IsReciprocal(d, v)
  {
    RadixFacts();
    var n1: Limb := LIMB_MAX - d;
    var (q, r) := WideDiv(n1, LIMB_MAX, d);
    ReciprocalEquation(B, d, q, r);
    q
  }

  lemma ReciprocalEquation(b: int, d: int, q: int, r: int)
    requires q * d + r == (b - 1 - d) * b + (b - 1) && 0 <= r < d
    ensures (b + q) * d < b * b <= (b + q + 1) * d
  {
    assert (b - 1 - d) * b + (b - 1) == b * b - 1 - d * b;
    assert (b + q) * d == d * b + q * d;
    assert (b + q + 1) * d == d * b + q * d + d;
  }

  /** `r + (q1 + 1) d = u`, scaled by B: the candidate remainder in terms of the reciprocal error
      `e = B^2 - (B + v) d` and the discarded half `q0`. */
  lemma ScaledRemainder(b: int, u1: int, u0: int, d: int, v: int, q1: int, q0: int, r: int)
    requires q1 * b + q0 == v * u1 + u1 * b + u0
    requires r == u1 * b + u0 - (q1 + 1) * d
    ensures b * r == (b * b - (b + v) * d) * u1 + u0 * (b - d) + (q0 - b) * d
  {
    calc {
      b * r;
      b * (u1 * b + u0) - (q1 * b) * d - b * d;
      b * (u1 * b + u0) - (v * u1 + u1 * b + u0 - q0) * d - b * d;
      (b * b) * u1 + b * u0 - ((b + v) * d) * u1 - u0 * d + q0 * d - b * d;
      (b * b - (b + v) * d) * u1 + u0 * (b - d) + (q0 - b) * d;
    }
  }

  /** The candidate remainder lies in a window of width B that the two corrections resolve. */
  lemma RemainderWindow(b: int, u1: int, u0: int, d: int, v: int, q1: int, q0: int, r: int)
    requires 0 < d < b <= 2 * d && 0 <= u1 < d && 0 <= u0 < b && 0 <= q0 < b
    requires (b + v) * d < b * b <= (b + v + 1) * d
    requires q1 * b + q0 == v * u1 + u1 * b + u0
    requires r == u1 * b + u0 - (q1 + 1) * d
    ensures -d <= r && q0 - b < r
    ensures r < b - d || r < q0
  {
    ScaledRemainder(b, u1, u0, d, v, q1, q0, r);
    var e := b * b - (b + v) * d;
    assert (b + v + 1) * d == (b + v) * d + d;
    WindowBelow(b, d, q0, r, e * u1, u0 * (b - d)) by { MulNonneg(e, u1); MulNonneg(u0, b - d); }
    WindowAbove(b, d, q0, r, e * u1, u0 * (b - d)) by { MulMono2(e, d, u1, d - 1); MulMono(u0, b - 1, b - d); }
  }

  lemma WindowBelow(b: int, d: int, q0: int, r: int, x: int, y: int)
    requires 0 < d < b && 0 <= q0 < b && 0 <= x && 0 <= y
    requires b * r == x + y + (q0 - b) * d
    ensures -d <= r && q0 - b < r
  {
    assert (q0 - b) * d >= -d * b by { MulMono(-b, q0 - b, d); assert -b * d == -d * b; }
    MulCancelLeq(-d, r, b);
    assert (q0 - b) * d > (q0 - b) * b by { MulStrict(d, b, b - q0); }
    MulCancelLess(q0 - b, r, b);
  }

  lemma WindowAbove(b: int, d: int, q0: int, r: int, x: int, y: int)
    requires 0 < d < b <= 2 * d && 0 <= q0 < b
    requires x <= d * (d - 1) && y <= (b - 1) * (b - d)
    requires b * r == x + y + (q0 - b) * d
    ensures r < b - d || r < q0
  {
    var m := if b - d < q0 then q0 else b - d;
    assert d * (d - 1) + (b - 1) * (b - d) + (q0 - b) * d == (b - d) * (b - d) + q0 * d - b;
    MulMono(b - d, m, b - d);
    MulMono(q0, m, d);
    assert m * (b - d) + m * d == m * b;
    MulCancelLess(r, m, b);
  }

  /** v u1 + u fits in two limbs, so the high limb does not overflow. */
  lemma EstimateFits(b: int, u1: int, u0: int, d: int, v: int)
    requires 0 < d < b && 0 <= u1 < d && 0 <= u0 < b && 0 <= v
    requires (b + v) * d < b * b
    ensures v * u1 + u1 * b + u0 < b * b
  {
    MulMono(u1, d - 1, b + v);
    assert u1 * (b + v) == v * u1 + u1 * b;
    assert (d - 1) * (b + v) == (b + v) * d - b - v;
  }

  /** [h, l] + [u1, u0] with the carry of the low half: the high half keeps it without overflow. */
  lemma EstimateExact(b: int, u1: int, u0: int, vu: int, h: int, l: int, c: int, q0: int)
    requires 0 <= q0 && h * b + l == vu && q0 == l + u0 - c * b
    requires vu + u1 * b + u0 < b * b && b > 0
    ensures (h + u1 + c) * b + q0 == vu + u1 * b + u0
    ensures h + u1 + c < b
  {
    assert (h + u1 + c) * b == h * b + u1 * b + c * b;
    MulCancelLess(h + u1 + c, b, b);
  }

  /** The limb `u0 - lo` has the residue of the candidate remainder. */
  lemma CandidateResidue(b: int, u1: int, u0: int, d: int, q1: int, k: int, lo: int)
    requires Divides(b, (q1 + 1 - k * b) * d - lo)
    ensures Divides(b, u1 * b + u0 - (q1 + 1) * d - (u0 - lo))
  {
    var j: int :| (q1 + 1 - k * b) * d - lo == j * b;
    assert (q1 + 1 - k * b) * d == (q1 + 1) * d - (k * d) * b;
    DividesIntro(b, u1 * b + u0 - (q1 + 1) * d - (u0 - lo), u1 - k * d - j);
  }

  /** A multiple of b strictly between -2b and b is -b or 0. */
  lemma NearMultiple(b: int, x: int)
    requires b > 0 && Divides(b, x) && -2 * b < x < b
    ensures x == -b || x == 0
  {
    var k: int :| x == k * b;
    MulCancelLess(k, 1, b);
    MulCancelLess(-2, k, b);
  }

  /** The limb holding `x` mod b is the candidate itself, or the candidate plus b when negative. */
  lemma CandidateLimb(b: int, cand: int, x: int, r: int)
    requires b > 0 && Divides(b, cand - x) && -b < cand < b && 0 <= r < b
    requires r == x || r == x + b
    ensures r == if cand < 0 then cand + b else cand
  {
    if r == x + b {
      var k: int :| cand - x == k * b;
      assert cand - r == (k - 1) * b;
    }
    NearMultiple(b, cand - r);
  }

  /** Moving one divisor between quotient and remainder. */
  lemma Settled(n: int, d: int, q: int, cand: int)
    requires n == q * d + cand
    ensures n == (q - 1) * d + (cand + d)
    ensures n == (q + 1) * d + (cand - d)
  {}

  /** The first half of `mp_div_2by1`: the estimate [q1, q0] = v u1 + [u1, u0]. */
  method Estimate(u1: Limb, u0: Limb, d: Limb, v: Limb) returns (q1: Limb, q0: Limb)
    requires IsReciprocal(d, v) && u1 < d
    ensures q1 * B + q0 == v * u1 + u1 * B + u0
  {
    hide MulWide, Pow;
    var (h, l) := MulWide(v, u1);
    q0 := Wrap(l + u0);
    EstimateFits(B, u1, u0, d, v);
    EstimateExact(B, u1, u0, v * u1, h, l, if q0 < u0 then 1 else 0, q0);
    q1 := Wrap(h + u1 + if q0 < u0 then 1 else 0);
  }

  /** The candidate remainder u - (q1 + 1) d, computed modulo B. */
  method Candidate(u1: Limb, u0: Limb, d: Limb, q1: Limb, ghost cand: int) returns (q: Limb, r: Limb)
    requires cand == u1 * B + u0 - (q1 + 1) * d && 0 - B < cand < B
    ensures q == Wrap(q1 + 1)
    ensures r == if cand < 0 then cand + B else cand
  {
    hide MulLow, Pow;
    q := Wrap(q1 + 1);
    var lo := MulLow(q, d);
    r := Wrap(u0 - lo);
    CandidateResidue(B, u1, u0, d, q1, if q1 + 1 == B then 1 else 0, lo);
    CandidateLimb(B, cand, u0 - lo, r);
  }

  /** `mp_div_2by1`. Every addition and subtraction wraps, as limb arithmetic does. */
  method Div2By1(u1: Limb, u0: Limb, d: Limb, v: Limb) returns (q: Limb, r: Limb)
    requires Normalized(d) && IsReciprocal(d, v) && u1 < d
    ensures q * d + r == u1 * B + u0 && r < d
  {
    hide Pow;
    var q1, q0 := Estimate(u1, u0, d, v);
    ghost var n: int := u1 * B + u0;
    ghost var cand: int := n - (q1 + 1) * d;
    RemainderWindow(B, u1, u0, d, v, q1, q0, cand);
    q, r := Candidate(u1, u0, d, q1, cand);
    if r > q0 {
      q := Wrap(q - 1);
      r := Wrap(r + d);
    }
    if r >= d {
      q := Wrap(q + 1);
      r := Wrap(r - d);
    }
    Settled(n, d, q1 + 1, cand);
    ghost var qt := if cand < 0 then q1 else if cand >= d then q1 + 2 else q1 + 1;
    QuotientFits(u1, u0, d, qt, r);
  }
}
