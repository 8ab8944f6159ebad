/** Powers, divisibility and the few facts about products that the other modules share. */
module Arith {

  function Pow(b: nat, e: nat): (r: nat)
    ensures b >= 1 ==> r >= 1
  {
    if e == 0 then 1 else b * Pow(b, e - 1)
  }

  lemma PowZero(b: nat)
    ensures Pow(b, 0) == 1
  {}

  lemma PowSucc(b: nat, e: nat)
    ensures Pow(b, e + 1) == b * Pow(b, e)
  {}

  lemma PowPositive(b: nat, e: nat)
    requires b >= 1
    ensures Pow(b, e) >= 1
  {}

  lemma {:induction false} PowAdd(b: nat, x: nat, y: nat)
    ensures Pow(b, x + y) == Pow(b, x) * Pow(b, y)
  {
    if x != 0 {
      PowAdd(b, x - 1, y);
      MulAssoc(b, Pow(b, x - 1), Pow(b, y));
    }
  }

  lemma {:induction false} PowMono(b: nat, x: nat, y: nat)
    requires b >= 1 && x <= y
    ensures Pow(b, x) <= Pow(b, y)
  {
    if x < y {
      PowMono(b, x, y - 1);
      MulMono(1, b, Pow(b, y - 1));
    }
  }

  lemma {:induction false} PowMul(b: nat, x: nat, y: nat)
    ensures Pow(b, x * y) == Pow(Pow(b, x), y)
  {
    if y == 0 {
      assert x * y == 0;
    } else {
      assert x * y == x + x * (y - 1);
      PowAdd(b, x, x * (y - 1));
      PowMul(b, x, y - 1);
    }
  }

  lemma MulAssoc(x: int, y: int, z: int)
    ensures (x * y) * z == x * (y * z)
  {}

  lemma MulMono(x: int, y: int, z: nat)
    requires x <= y
    ensures x * z <= y * z
  {}

  lemma MulMono2(x: nat, y: nat, z: nat, w: nat)
    requires x <= y && z <= w
    ensures x * z <= y * w
  {
    MulMono(x, y, z);
    MulMono(z, w, y);
  }

  lemma MulStrict(x: int, y: int, z: int)
    requires x < y && z > 0
    ensures x * z < y * z
  {}

  /** A product against a positive factor orders the other factors. */
  lemma MulCancelLess(x: int, y: int, z: int)
    requires x * z < y * z && z > 0
    ensures x < y
  {
    if x >= y { MulMono(y, x, z); }
  }

  lemma MulCancelLeq(x: int, y: int, z: int)
    requires x * z <= y * z && z > 0
    ensures x <= y
  {
    if x > y { MulStrict(y, x, z); }
  }

  /** Quotient and remainder are the only pair with a remainder in range. */
  lemma DivModUnique(n: int, d: int, q: int, r: int)
    requires d > 0 && n == q * d + r && 0 <= r < d
    ensures n / d == q && n % d == r
  {
    var q', r' := n / d, n % d;
    assert n == q' * d + r';
    assert (q - q') * d == r' - r;
    if q > q' { MulMono(1, q - q', d); }
    if q < q' { MulMono(1, q' - q, d); }
  }

  /** `d` divides `n`, with the cofactor existentially quantified. */
  ghost predicate Divides(d: int, n: int) {
    exists k: int :: n == k * d
  }

  lemma DividesIntro(d: int, n: int, k: int)
    requires n == k * d
    ensures Divides(d, n)
  {}

  lemma DividesSum(d: int, m: int, n: int)
    requires Divides(d, m) && Divides(d, n)
    ensures Divides(d, m + n) && Divides(d, m - n)
  {
    var j: int :| m == j * d;
    var k: int :| n == k * d;
    assert m + n == (j + k) * d;
    assert m - n == (j - k) * d;
  }

  lemma DividesMul(d: int, n: int, f: int)
    requires Divides(d, n)
    ensures Divides(d, f * n) && Divides(d, n * f)
  {
    var k: int :| n == k * d;
    assert f * n == (f * k) * d;
    assert n * f == (f * k) * d;
  }

  lemma DividesTrans(a: int, b: int, c: int)
    requires Divides(a, b) && Divides(b, c)
    ensures Divides(a, c)
  {
    var k: int :| c == k * b;
    DividesMul(a, b, k);
  }

  /** Congruence modulo `m`. */
  ghost predicate Congruent(x: int, y: int, m: int) {
    Divides(m, x - y)
  }
}
