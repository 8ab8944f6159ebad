/** Multi-limb shifts by less than a limb. */
module Shifts {
  import opened Arith
  import opened Limbs

  /** A shift by at least one bit and less than a limb. */
  type ShiftCount = k: nat | 0 < k < LIMB_BITS witness 1

  /** `x << k`: bits shifted past the top are lost. */
  function Shl(x: Limb, k: nat): (z: Limb) {
    (x * Pow(2, k)) % B
  }

  /** `x >> k`. */
  function Shr(x: Limb, k: nat): (z: Limb)
  {
    ShrShrinks(x, Pow(2, k));
    x / Pow(2, k)
  }

  /** The low `k` bits of a limb. */
  function Low(x: Limb, k: nat): (z: nat) {
    x % Pow(2, k)
  }

  lemma ShrShrinks(x: nat, s: nat)
    requires s >= 1
    ensures 0 <= x / s <= x
  {
    var q, r := x / s, x % s;
    assert x == q * s + r;
    MulMono(1, s, q);
  }

  lemma ShrLow(x: Limb, k: nat)
    ensures x == Shr(x, k) * Pow(2, k) + Low(x, k) && Low(x, k) < Pow(2, k)
  {
    var p := Pow(2, k);
    assert x == (x / p) * p + x % p;
  }

  /** With b = s t, the product x s keeps r s inside a limb and q above it, where x = q t + r. */
  lemma SplitProduct(b: int, s: int, t: int, x: int, q: int, r: int)
    requires s > 0 && t > 0 && b == s * t && 0 <= x < b && x == q * t + r && 0 <= r < t
    ensures x * s == r * s + q * b && 0 <= r * s <= b - s && 0 <= q < s
    ensures (x * s) % b == r * s
  {
    assert (q * t) * s == q * (s * t);
    assert x * s == (q * t) * s + r * s;
    MulMono(r, t - 1, s);
    MulMono(0, r, s);
    assert (t - 1) * s == t * s - s;
    MulCancelLess(q, s, t);
    MulCancelLess(-1, q, t);
    DivModUnique(x * s, b, q, r * s);
  }

  lemma ShiftFacts(x: Limb, k: ShiftCount)
    ensures Pow(2, k) * Pow(2, LIMB_BITS - k) == B
    ensures Shl(x, k) == Low(x, LIMB_BITS - k) * Pow(2, k)
    ensures Shl(x, k) + Shr(x, LIMB_BITS - k) * B == x * Pow(2, k)
    ensures Shl(x, k) <= B - Pow(2, k) && Shr(x, LIMB_BITS - k) < Pow(2, k)
  {
    hide Pow, Shr, Low;
    PowAdd(2, k, LIMB_BITS - k);
    ShrLow(x, LIMB_BITS - k);
    SplitProduct(B, Pow(2, k), Pow(2, LIMB_BITS - k), x, Shr(x, LIMB_BITS - k), Low(x, LIMB_BITS - k));
  }

  /** The limb `(hi << k) | (lo >> (bits - k))`: the two parts occupy different bits. */
  function Funnel(hi: Limb, lo: Limb, k: ShiftCount): (z: Limb)
    ensures z == Shl(hi, k) + Shr(lo, LIMB_BITS - k)
  {
    ShiftFacts(hi, k);
    ShiftFacts(lo, k);
    Shl(hi, k) + Shr(lo, LIMB_BITS - k)
  }

  function LeftShifted(x: seq<Limb>, k: ShiftCount): (z: seq<Limb>)
    ensures |z| == |x|
    ensures |x| > 0 ==> z[0] == Shl(x[0], k)
    ensures forall i :: 0 < i < |x| ==> z[i] == Funnel(x[i], x[i - 1], k)
  {
    seq(|x|, i requires 0 <= i < |x| => if i == 0 then Shl(x[0], k) else Funnel(x[i], x[i - 1], k))
  }

  function RightShifted(x: seq<Limb>, k: ShiftCount): (z: seq<Limb>)
    ensures |z| == |x|
    ensures |x| > 0 ==> z[|x| - 1] == Shr(x[|x| - 1], k)
    ensures forall i :: 0 <= i < |x| - 1 ==> z[i] == Funnel(x[i + 1], x[i], LIMB_BITS - k)
  {
    seq(|x|, i requires 0 <= i < |x| =>
      if i == |x| - 1 then Shr(x[i], k) else Funnel(x[i + 1], x[i], LIMB_BITS - k))
  }

  lemma LeftStep(b: int, zv: int, lo: int, c: int, c': int, xv: int, x: int, s: int, p: int)
    requires zv + c * p == xv * s
    requires lo + c' * b == x * s
    ensures zv + (lo + c) * p + c' * (b * p) == (xv + x * p) * s
  {
    assert (lo + c) * p == lo * p + c * p;
    assert (x * s) * p == (lo + c' * b) * p == lo * p + c' * (b * p);
    assert (xv + x * p) * s == xv * s + (x * s) * p;
  }

  /** What the limbs below `n` pass up to limb `n` of a left shift. */
  function CarryInto(x: seq<Limb>, k: ShiftCount, n: nat): (c: Limb)
    requires n <= |x|
  {
    if n == 0 then 0 else Shr(x[n - 1], LIMB_BITS - k)
  }

  lemma {:induction false} LeftPrefix(x: seq<Limb>, k: ShiftCount, n: nat)
    requires n <= |x|
    ensures Value(LeftShifted(x, k)[..n]) + CarryInto(x, k, n) * Pow(B, n) == Value(x[..n]) * Pow(2, k)
  {
    hide Shl, Shr, Funnel, LeftShifted, Pow, Value;
    var z := LeftShifted(x, k);
    if n == 0 {
      ValueEmpty();
      assert x[..0] == [] && z[..0] == [];
    } else {
      var m := n - 1;
      LeftPrefix(x, k, m);
      PowSucc(B, m);
      ShiftFacts(x[m], k);
      assert x[..n] == x[..m] + [x[m]] && z[..n] == z[..m] + [z[m]];
      ValueSnoc(x[..m], x[m]);
      ValueSnoc(z[..m], z[m]);
      assert z[m] == Shl(x[m], k) + CarryInto(x, k, m);
      LeftStep(B, Value(z[..m]), Shl(x[m], k), CarryInto(x, k, m), CarryInto(x, k, n),
               Value(x[..m]), x[m], Pow(2, k), Pow(B, m));
    }
  }

  /** Shifting left multiplies, with the overflow in the returned carry. */
  lemma LeftShiftedValue(x: seq<Limb>, k: ShiftCount)
    requires |x| > 0
    ensures Value(LeftShifted(x, k)) + Shr(x[|x| - 1], LIMB_BITS - k) * Pow(B, |x|) == Value(x) * Pow(2, k)
    ensures Shr(x[|x| - 1], LIMB_BITS - k) < Pow(2, k)
  {
    hide Shl, Shr, Funnel, LeftShifted, Pow, Value;
    LeftPrefix(x, k, |x|);
    ShiftFacts(x[|x| - 1], k);
    assert x[..|x|] == x && LeftShifted(x, k)[..|x|] == LeftShifted(x, k);
  }

  /** One limb of a right shift: x = q s + m gives way to q, and m' of the next limb comes in above. */
  lemma RightLimb(b: int, q: int, m: int, m': int, x: int, s: int, t: int)
    requires x == q * s + m && b == s * t
    ensures (m' * t + q) * s == m' * b + x - m
  {
    assert m' * t * s == m' * (s * t);
    assert (m' * t + q) * s == m' * t * s + q * s;
  }

  lemma RightStep(b: int, zv: int, z: int, m: int, m': int, low: int, xv: int, x: int, s: int, p: int)
    requires zv * s + low == xv + m * p
    requires z * s == m' * b + x - m
    ensures (zv + z * p) * s + low == xv + x * p + m' * (b * p)
  {
    assert (zv + z * p) * s == zv * s + z * s * p;
    assert (m' * b + x - m) * p == m' * (b * p) + x * p - m * p;
  }

  /** The limb a right shift writes, against the two limbs it reads. */
  lemma RightLimbs(hi: Limb, lo: Limb, k: ShiftCount)
    ensures Funnel(hi, lo, LIMB_BITS - k) * Pow(2, k) == Low(hi, k) * B + lo - Low(lo, k)
  {
    hide Shl, Shr, Low, Funnel, Pow;
    ShrLow(lo, k);
    ShiftFacts(hi, LIMB_BITS - k);
    RightLimb(B, Shr(lo, k), Low(lo, k), Low(hi, k), lo, Pow(2, k), Pow(2, LIMB_BITS - k));
  }

  lemma {:induction false} RightPrefix(x: seq<Limb>, k: ShiftCount, i: nat)
    requires i < |x|
    ensures Value(RightShifted(x, k)[..i]) * Pow(2, k) + Low(x[0], k)
         == Value(x[..i]) + Low(x[i], k) * Pow(B, i)
  {
    hide Shl, Shr, Low, Funnel, RightShifted, LeftShifted, Pow, Value;
    var z := RightShifted(x, k);
    if i == 0 {
      PowZero(B);
      ValueEmpty();
      assert x[..0] == [] && z[..0] == [];
    } else {
      RightPrefix(x, k, i - 1);
      PowSucc(B, i - 1);
      assert z[..i] == z[..i - 1] + [z[i - 1]] && x[..i] == x[..i - 1] + [x[i - 1]];
      ValueSnoc(z[..i - 1], z[i - 1]);
      ValueSnoc(x[..i - 1], x[i - 1]);
      RightLimbs(x[i], x[i - 1], k);
      RightStep(B, Value(z[..i - 1]), z[i - 1], Low(x[i - 1], k), Low(x[i], k), Low(x[0], k),
                Value(x[..i - 1]), x[i - 1], Pow(2, k), Pow(B, i - 1));
    }
  }

  /** Shifting right divides, dropping the low bits of the bottom limb. */
  lemma RightShiftedValue(x: seq<Limb>, k: ShiftCount)
    requires |x| > 0
    ensures Value(RightShifted(x, k)) * Pow(2, k) + Low(x[0], k) == Value(x)
    ensures Low(x[0], k) < Pow(2, k)
  {
    hide Shl, Shr, Low, Funnel, RightShifted, LeftShifted, Pow, Value;
    var n, z := |x| - 1, RightShifted(x, k);
    RightPrefix(x, k, n);
    ShrLow(x[n], k);
    ShrLow(x[0], k);
    assert z == z[..n] + [z[n]] && x == x[..n] + [x[n]];
    ValueSnoc(z[..n], z[n]);
    ValueSnoc(x[..n], x[n]);
    RightStep(0, Value(z[..n]), z[n], Low(x[n], k), 0, Low(x[0], k), Value(x[..n]), x[n], Pow(2, k), Pow(B, n));
  }

  /** `mpn_lshift`, from the top limb down so that it may run in place. */
  method LShift(z: array<Limb>, x: array<Limb>, n: nat, k: ShiftCount) returns (c: Limb)
    requires 0 < n <= z.Length && n <= x.Length
    modifies z
    ensures z[..n] == LeftShifted(old(x[..n]), k)
    ensures c == Shr(old(x[n - 1]), LIMB_BITS - k)
    ensures z[n..] == old(z[n..])
  {
    hide Shl, Shr, Funnel, LeftShifted, Pow;
    ghost var xs := x[..n];
    ghost var shifted := LeftShifted(xs, k);
    c := Shr(x[n - 1], LIMB_BITS - k);
    var i := n - 1;
    while i >= 1
      invariant 0 <= i < n
      invariant x[..i + 1] == xs[..i + 1]
      invariant z[i + 1..n] == shifted[i + 1..] && z[n..] == old(z[n..])
    {
      assert x[i] == x[..i + 1][i] == xs[i] && x[i - 1] == x[..i + 1][i - 1] == xs[i - 1];
      ghost var above := z[i + 1..n];
      z[i] := Funnel(x[i], x[i - 1], k);
      assert z[i..n] == [z[i]] + above;
      i := i - 1;
    }
    assert x[0] == x[..1][0] == xs[0];
    ghost var above := z[1..n];
    z[0] := Shl(x[0], k);
    assert z[..n] == [z[0]] + above;
  }

  /** `mpn_rshift`, from the bottom limb up so that it may run in place. */
  method RShift(z: array<Limb>, zo: nat, x: array<Limb>, xo: nat, n: nat, k: ShiftCount)
    requires 0 < n && zo + n <= z.Length && xo + n <= x.Length
    requires z != x || zo == xo
    modifies z
    ensures z[zo..zo + n] == RightShifted(old(x[xo..xo + n]), k)
    ensures z[..zo] == old(z[..zo]) && z[zo + n..] == old(z[zo + n..])
  {
    hide Shl, Shr, Funnel, RightShifted, Pow;
    ghost var xs, zs := x[xo..xo + n], z[..];
    ghost var shifted := RightShifted(xs, k);
    var i := 0;
    WroteNone(zs, zo, shifted);
    hide Wrote;
    while i < n - 1
      invariant 0 <= i < n && Wrote(z[..], zs, zo, shifted, i)
    {
      WroteLimb(z, zs, zo, shifted, i, x, xo, xs, i);
      WroteLimb(z, zs, zo, shifted, i, x, xo, xs, i + 1);
      WroteNext(z[..], zs, zo, shifted, i);
      ghost var next := z[..][zo + i := shifted[i]];
      z[zo + i] := Funnel(x[xo + i + 1], x[xo + i], LIMB_BITS - k);
      assert z[..] == next;
      i := i + 1;
    }
    WroteLimb(z, zs, zo, shifted, i, x, xo, xs, i);
    WroteNext(z[..], zs, zo, shifted, i);
    ghost var next := z[..][zo + i := shifted[i]];
    z[zo + n - 1] := Shr(x[xo + n - 1], k);
    assert z[..] == next;
    WroteAll(z[..], zs, zo, shifted);
    assert z[zo..zo + n] == z[..][zo..zo + n] && z[..zo] == z[..][..zo] && z[zo + n..] == z[..][zo + n..];
  }

  /** The first `i` limbs of `out` have been written at `at`, and nothing else. */
  ghost predicate Wrote(now: seq<Limb>, was: seq<Limb>, at: nat, out: seq<Limb>, i: nat) {
    && at + |out| <= |was| && i <= |out| && |now| == |was|
    && forall j :: 0 <= j < |was| ==> now[j] == if at <= j < at + i then out[j - at] else was[j]
  }

  lemma WroteNone(was: seq<Limb>, at: nat, out: seq<Limb>)
    requires at + |out| <= |was|
    ensures Wrote(was, was, at, out, 0)
  {}

  lemma WroteNext(now: seq<Limb>, was: seq<Limb>, at: nat, out: seq<Limb>, i: nat)
    requires Wrote(now, was, at, out, i) && i < |out|
    ensures at + i < |now| && Wrote(now[at + i := out[i]], was, at, out, i + 1)
  {}

  lemma WroteAll(now: seq<Limb>, was: seq<Limb>, at: nat, out: seq<Limb>)
    requires Wrote(now, was, at, out, |out|)
    ensures at + |out| <= |now| == |was|
    ensures now[at..at + |out|] == out && now[..at] == was[..at] && now[at + |out|..] == was[at + |out|..]
  {}

  /** Limbs of an operand from the written place on are as they were, in another array or in the same. */
  lemma WroteLimb(z: array<Limb>, zs: seq<Limb>, zo: nat, out: seq<Limb>, i: nat, x: array<Limb>, xo: nat, xs: seq<Limb>, k: nat)
    requires Wrote(z[..], zs, zo, out, i) && i <= k < |xs| && xo + |xs| <= x.Length
    requires if z == x then zo == xo && xo + |xs| <= |zs| && xs == zs[xo..xo + |xs|] else xs == x[xo..xo + |xs|]
    ensures x[xo + k] == xs[k]
  {
    if z == x { assert x[xo + k] == z[..][xo + k] == zs[xo + k]; }
  }

  // ----- normalization

  /** `mp_clz` of a nonzero limb: how far it must move for its top bit to be set. */
  function Clz(x: Limb): (k: nat)
    requires x > 0
    ensures B <= 2 * (x * Pow(2, k)) && x * Pow(2, k) < B
    decreases B - x
  {
    if B <= 2 * x then 0
    else
      Doubled(x, Pow(2, Clz(2 * x)));
      1 + Clz(2 * x)
  }

  lemma Doubled(x: int, p: int)
    ensures 2 * x * p == x * (2 * p)
  {}

  /** A normalizing shift is shorter than a limb. */
  lemma ClzFits(x: Limb)
    requires x > 0
    ensures Clz(x) < LIMB_BITS
  {
    hide Clz;
    var k := Clz(x);
    MulMono(1, x, Pow(2, k));
    if k >= LIMB_BITS { PowMono(2, LIMB_BITS, k); }
  }

  /** Two limbs shifted left together. */
  method ShiftPair(r: Limb, x: Limb, s: nat) returns (n1: Limb, n0: Limb)
    requires s < LIMB_BITS && r * Pow(2, s) < B
    ensures n1 * B + n0 == (r * B + x) * Pow(2, s)
  {
    hide Shl, Shr, Low, Funnel, Pow;
    if s != 0 {
      ShiftFacts(r, s);
      ShiftFacts(x, s);
      NothingAbove(B, Shl(r, s), Shr(r, LIMB_BITS - s), r * Pow(2, s));
      PairIdentity(B, r, x, Pow(2, s), Shl(x, s), Shr(x, LIMB_BITS - s));
      n1, n0 := Funnel(r, x, s), Shl(x, s);
    } else {
      PowZero(2);
      n1, n0 := r, x;
    }
  }

  lemma NothingAbove(b: int, lo: int, hi: int, n: int)
    requires lo + hi * b == n && n < b && 0 <= lo && 0 <= hi && b > 0
    ensures hi == 0 && lo == n
  {
    MulCancelLess(hi, 1, b);
  }

  lemma PairIdentity(b: int, r: int, x: int, s: int, lo: int, hi: int)
    requires lo + hi * b == x * s
    ensures (r * s + hi) * b + lo == (r * b + x) * s
  {
    assert (r * s + hi) * b == r * b * s + hi * b;
    assert (r * b + x) * s == r * b * s + x * s;
  }

  /** Undoing the normalization of a digit and its remainder. */
  lemma Unscaled(n: int, d: int, s: int, quot: int, x: int, z: int, low: int)
    requires n * s == quot * (d * s) + x && 0 <= x < d * s && s >= 1
    requires z * s + low == x && 0 <= low < s
    ensures n == quot * d + z && 0 <= z < d
  {
    var m := n - quot * d;
    assert m * s == x by { assert (n - quot * d) * s == n * s - quot * (d * s); }
    DivModUnique(x, s, m, 0);
    DivModUnique(x, s, z, low);
    MulCancelLess(m, d, s);
    MulCancelLess(-1, m, s);
  }

  lemma SmallNumerator(b: int, d: int, s: int, r: int, x: int, n1: int, n0: int)
    requires 0 <= r < d && 0 <= x < b && s >= 1
    requires n1 * b + n0 == (r * b + x) * s && 0 <= n0 < b
    ensures n1 < d * s
  {
    assert r * b + x < d * b by { MulMono(r + 1, d, b); assert (r + 1) * b == r * b + b; }
    MulStrict(r * b + x, d * b, s);
    assert d * b * s == d * s * b;
    MulCancelLess(n1, d * s, b);
  }

  lemma RemainderFits(r: int, d: int, s: int, dv: Limb)
    requires 0 <= r < d && dv == d * s && s >= 1
    ensures r * s < B
  {
    MulMono(r, d, s);
  }
}
