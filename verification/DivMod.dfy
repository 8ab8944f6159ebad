/** The division engine: a divisor normalized once, and the loops that divide by it. */
module DivMod {
  import opened Arith
  import opened Limbs
  import opened LimbArrays
  import opened Reciprocal
  import opened Shifts
  import opened Division

  // ----- the divisor

  class Divisor {
    var up: array<Limb>
    var vp: array<Limb>
    var inv: Limb
    var shift: nat
    var size: nat

    /** The stored limbs are `d`, shifted so that the top bit of the top limb is set. */
    ghost predicate For(d: nat)
      reads this, vp
    {
      && 0 < size == vp.Length && shift < LIMB_BITS && up != vp && d > 0
      && Normalized(vp[size - 1]) && IsReciprocal(vp[size - 1], inv)
      && Value(vp[..]) == d * Pow(2, shift)
      && Pow(B, size - 1) <= d
    }

    /** `mpn_divmod_init`: room for a numerator of `nn` limbs. */
    constructor (dp: array<Limb>, dn: nat, nn: nat)
      requires 0 < dn <= dp.Length && dp[dn - 1] != 0
      ensures For(Value(dp[..dn])) && size == dn && up.Length == nn + 1
      ensures fresh(up) && fresh(vp)
    {
      up := new Limb[nn + 1];
      vp := new Limb[dn];
      size := dn;
      new;
      Precompute(dp, dn);
    }

    /** `mpn_divmod_precomp`. */
    method Precompute(dp: array<Limb>, dn: nat)
      requires 0 < dn <= dp.Length && dp[dn - 1] != 0
      requires vp.Length == dn && vp != dp && up != vp
      modifies this`inv, this`shift, this`size, vp
      ensures For(Value(dp[..dn])) && size == dn
    {
      hide Clz, Pow, Value, IsReciprocal, Shl, Shr, LeftShifted, Funnel;
      ghost var ds := dp[..dn];
      ClzFits(dp[dn - 1]);
      shift := Clz(dp[dn - 1]);
      size := dn;
      ValueTop(ds);
      PowPositive(B, dn - 1);
      if shift != 0 {
        var c := LShift(vp, dp, dn, shift);
        NormalizedLimbs(ds, shift);
        assert vp[..] == vp[..dn];
      } else {
        CopyTo(vp, dp, 0, dn);
        PowZero(2);
        assert vp[..] == vp[..dn] == ds;
      }
      inv := Inv2By1(vp[dn - 1]);
    }
  }

  /** Shifting a number left by the leading zeros of its top limb loses nothing. */
  lemma NormalizedLimbs(ds: seq<Limb>, k: ShiftCount)
    requires |ds| > 0 && ds[|ds| - 1] > 0 && k == Clz(ds[|ds| - 1])
    ensures var vs := LeftShifted(ds, k);
            Normalized(vs[|vs| - 1]) && Value(vs) == Value(ds) * Pow(2, k)
  {
    hide Clz, Pow, Value, Shl, Shr, LeftShifted, Funnel;
    var n := |ds| - 1;
    LeftShiftedValue(ds, k);
    ShiftFacts(ds[n], k);
    NothingAbove(B, Shl(ds[n], k), Shr(ds[n], LIMB_BITS - k), ds[n] * Pow(2, k));
    var vs := LeftShifted(ds, k);
    assert n > 0 ==> vs[n] == Funnel(ds[n], ds[n - 1], k);
    assert 0 * Pow(B, |ds|) == 0;
  }

  // ----- one-limb divisors

  /** One digit: the pair (r, x) shifted, divided by the normalized divisor, and shifted back. */
  method SmallDigit(r: Limb, x: Limb, dv: Limb, m: Limb, s: nat, ghost d: nat) returns (q: Limb, r': Limb)
    requires s < LIMB_BITS && dv == d * Pow(2, s) && r < d && Normalized(dv) && IsReciprocal(dv, m)
    ensures DigitDone(q, r', r * B + x, d)
  {
    hide Pow, IsReciprocal, Normalized, Shr, Low;
    PowPositive(2, s);
    RemainderFits(r, d, Pow(2, s), dv);
    var n1, n0 := ShiftPair(r, x, s);
    SmallNumerator(B, d, Pow(2, s), r, x, n1, n0);
    q, r' := Div2By1(n1, n0, dv, m);
    ShrLow(r', s);
    Unscaled(r * B + x, d, Pow(2, s), q, r', Shr(r', s), Low(r', s));
    r' := Shr(r', s);
  }

  lemma HighStep(b: int, d: int, high: int, quot: int, r: int, x: int, q: int, r': int)
    requires DigitDone(quot, r, high, d) && DigitDone(q, r', r * b + x, d)
    ensures DigitDone(q + b * quot, r', x + b * high, d)
  {
    assert b * (quot * d + r) == b * quot * d + r * b;
    assert (q + b * quot) * d == q * d + b * quot * d;
  }

  lemma DoneRange(quot: int, r: int, high: int, d: int)
    requires DigitDone(quot, r, high, d)
    ensures 0 <= r < d
  {}

  /** `mpn_divmod_small_2by1`. The quotient may overwrite the numerator. */
  method DivModSmall(qp: array?<Limb>, np: array<Limb>, nn: nat, den: Divisor, ghost d: nat)
    returns (r: Limb, ghost quot: nat)
    requires den.For(d) && den.size == 1 && nn <= np.Length
    requires qp != null ==> qp.Length >= nn && qp != den.vp
    modifies qp
    ensures DigitDone(quot, r, old(Value(np[..nn])), d)
    ensures qp != null ==> Value(qp[..nn]) == quot && qp[nn..] == old(qp[nn..])
  {
    hide Pow, Value, IsReciprocal, Normalized, DigitDone;
    var s, dv, m := den.shift, den.vp[0], den.inv;
    assert den.vp[..] == [dv];
    ValueSingle(dv);
    ghost var ns := np[..nn];
    r, quot := 0, 0;
    var j := nn;
    ValueEmpty();
    assert ns[nn..] == [] && (qp != null ==> qp[nn..nn] == []);
    NothingDone(d);
    while j > 0
      invariant 0 <= j <= nn && DigitDone(quot, r, Value(ns[j..]), d)
      invariant np[..j] == ns[..j]
      invariant qp != null ==> Value(qp[j..nn]) == quot && qp[nn..] == old(qp[nn..])
    {
      j := j - 1;
      assert np[j] == np[..j + 1][j] == ns[j];
      ghost var rest := np[..j + 1][..j];
      ghost var high := Value(ns[j + 1..]);
      DoneRange(quot, r, high, d);
      var x := np[j];
      var q, r' := SmallDigit(r, x, dv, m, s, d);
      HighStep(B, d, high, quot, r, x, q, r');
      assert ns[j..] == [x] + ns[j + 1..];
      ValueCons(x, ns[j + 1..]);
      r := r';
      if qp != null {
        ghost var done := qp[j + 1..nn];
        qp[j] := q;
        assert qp[j..nn] == [q] + done;
        ValueCons(q, done);
      }
      assert np[..j] == rest;
      quot := q + B * quot;
    }
    assert ns[0..] == ns && (qp != null ==> qp[0..nn] == qp[..nn]);
  }

  lemma NothingDone(d: int)
    requires d > 0
    ensures DigitDone(0, 0, 0, d)
  {}

  // ----- longer divisors

  /** Step D1. */
  method Normalize(up: array<Limb>, np: array<Limb>, nn: nat, shift: nat)
    requires 0 < nn <= np.Length && up.Length == nn + 1 && up != np && shift < LIMB_BITS
    modifies up
    ensures Value(up[..]) == Value(np[..nn]) * Pow(2, shift)
  {
    hide Pow, Value, Shl, Shr, LeftShifted, Funnel;
    if shift != 0 {
      up[nn] := LShift(up, np, nn, shift);
      LeftShiftedValue(np[..nn], shift);
    } else {
      CopyTo(up, np, 0, nn);
      up[nn] := 0;
      PowZero(2);
    }
    assert up[..] == up[..nn] + [up[nn]];
    ValueSnoc(up[..nn], up[nn]);
  }

  /** What is left of the numerator, `w = B^i` above the limbs still to come. */
  ghost predicate Progress(total: int, quot: int, v: int, rem: int, w: int, low: int) {
    total == (quot * v + rem) * w + low && 0 <= rem < v
  }

  lemma StepIdentity(b: int, quot: int, v: int, rem: int, x: int, w: int, q: int, rem': int)
    requires q * v + rem' == x + b * rem
    ensures (quot * v + rem) * (b * w) + x * w == ((quot * b + q) * v + rem') * w
  {
    assert (quot * v + rem) * (b * w) + x * w == (quot * b * v + b * rem + x) * w;
    assert (quot * b + q) * v + rem' == quot * b * v + q * v + rem';
  }

  lemma ProgressStep(b: int, total: int, quot: int, v: int, rem: int, x: int, w: int, low: int, q: int, rem': int)
    requires Progress(total, quot, v, rem, b * w, low + x * w)
    requires DigitDone(q, rem', x + b * rem, v)
    ensures Progress(total, quot * b + q, v, rem', w, low)
  {
    StepIdentity(b, quot, v, rem, x, w, q, rem');
  }

  lemma WindowBound(b: int, x: int, rem: int, v: int)
    requires 0 <= x < b && rem < v
    ensures x + b * rem < v * b
  {
    MulMono(rem + 1, v, b);
    assert (rem + 1) * b == b * rem + b;
  }

  /** The top limbs of the normalized numerator are below the divisor, because the divisor keeps its
      top limb while the numerator gained at most `shift` bits. */
  lemma InitialTop(us: seq<Limb>, n: nat, d: nat, s: nat, nn: nat, dn: nat)
    requires |us| == nn + 1 && 0 < dn <= nn && Value(us) == n * s && s >= 1
    requires n < Pow(B, nn) && Pow(B, dn - 1) <= d
    ensures Value(us[nn - dn + 1..]) < d * s
  {
    hide Pow, Value;
    var k := nn - dn + 1;
    ValueSplit(us, k);
    PowAdd(B, k, dn - 1);
    PowPositive(B, k);
    TopBelow(n, s, Pow(B, k), Pow(B, dn - 1), d, Value(us[k..]), Value(us[..k]));
  }

  lemma TopBelow(n: int, s: int, p: int, w: int, d: int, x: int, low: int)
    requires n * s == low + p * x && 0 <= low && s >= 1 && p >= 1 && n < p * w && w <= d
    ensures x < d * s
  {
    MulStrict(n, p * w, s);
    MulMono(w, d, s);
    MulMono(w * s, d * s, p);
    assert p * w * s == w * s * p;
    assert p * x == x * p;
    MulCancelLess(x, d * s, p);
  }

  /** One pass of the digit loop. */
  method NextDigit(up: array<Limb>, j: nat, vp: array<Limb>, dn: nat, inv: Limb, ghost total: int, ghost quot: nat)
    returns (q: Limb)
    requires 2 <= dn <= vp.Length && j + dn < up.Length && up != vp
    requires Normalized(vp[dn - 1]) && IsReciprocal(vp[dn - 1], inv)
    requires Progress(total, quot, Value(vp[..dn]), Value(up[j + 1..j + 1 + dn]), Pow(B, j + 1), Value(up[..j + 1]))
    modifies up
    ensures Progress(total, quot * B + q, Value(vp[..dn]), Value(up[j..j + dn]), Pow(B, j), Value(up[..j]))
  {
    hide Pow, Value, IsReciprocal, Normalized, Progress, DigitDone;
    ghost var v, x, rem, low := Value(vp[..dn]), up[j], Value(up[j + 1..j + 1 + dn]), up[..j];
    assert up[j..j + dn + 1] == [x] + up[j + 1..j + 1 + dn];
    assert up[..j + 1] == low + [x];
    ValueCons(x, up[j + 1..j + 1 + dn]);
    ValueSnoc(low, x);
    PowSucc(B, j);
    ProgressRange(total, quot, v, rem, Pow(B, j + 1), Value(up[..j + 1]));
    WindowBound(B, x, rem, v);
    q := DivideStep(up, j, vp, dn, inv);
    ProgressStep(B, total, quot, v, rem, x, Pow(B, j), Value(low), q, Value(up[j..j + dn]));
  }

  /** The digit loop D2 to D7, from the top window down. */
  method DigitLoop(qp: array?<Limb>, nn: nat, den: Divisor, ghost d: nat, ghost total: int) returns (ghost quot: nat)
    requires den.For(d) && 2 <= den.size <= nn && den.up.Length == nn + 1
    requires qp != null ==> qp.Length > nn - den.size && qp != den.vp && qp != den.up
    requires Value(den.up[..]) == total
    requires Value(den.up[nn - den.size + 1..]) < d * Pow(2, den.shift)
    modifies den.up, qp
    ensures var v := d * Pow(2, den.shift); var rem := Value(den.up[..den.size]);
            Progress(total, quot, v, rem, 1, 0)
    ensures qp != null ==> Value(qp[..nn - den.size + 1]) == quot
                           && qp[nn - den.size + 1..] == old(qp[nn - den.size + 1..])
  {
    hide Pow, Value, IsReciprocal, Normalized, Progress, DigitDone;
    var up, vp, dn := den.up, den.vp, den.size;
    ghost var v := d * Pow(2, den.shift);
    assert vp[..dn] == vp[..];
    var i := nn - dn + 1;
    quot := 0;
    InitialProgress(up[..], i, dn, v, total);
    ValueEmpty();
    assert qp != null ==> qp[i..nn - dn + 1] == [];
    while i > 0
      invariant 0 <= i <= nn - dn + 1
      invariant Progress(total, quot, v, Value(up[i..i + dn]), Pow(B, i), Value(up[..i]))
      invariant qp != null ==> Value(qp[i..nn - dn + 1]) == quot
                               && qp[nn - dn + 1..] == old(qp[nn - dn + 1..])
    {
      var j := i - 1;
      var q := NextDigit(up, j, vp, dn, den.inv, total, quot);
      if qp != null {
        ghost var done := qp[i..nn - dn + 1];
        qp[j] := q;
        assert qp[j..nn - dn + 1] == [q] + done;
        ValueCons(q, done);
      }
      quot := quot * B + q;
      i := j;
    }
    PowZero(B);
    assert up[..0] == [];
    assert qp != null ==> qp[0..nn - dn + 1] == qp[..nn - dn + 1];
  }

  lemma ProgressRange(total: int, quot: int, v: int, rem: int, w: int, low: int)
    requires Progress(total, quot, v, rem, w, low)
    ensures 0 <= rem < v
  {}

  lemma InitialProgress(us: seq<Limb>, i: nat, dn: nat, v: int, total: int)
    requires |us| == i + dn && Value(us) == total && Value(us[i..]) < v
    ensures Progress(total, 0, v, Value(us[i..i + dn]), Pow(B, i), Value(us[..i]))
  {
    hide Pow, Value;
    ValueSplit(us, i);
    assert us[i..i + dn] == us[i..];
    assert 0 * v == 0;
  }

  /** `mpn_divmod_large_2by1`. */
  method DivModLarge(qp: array?<Limb>, rp: array?<Limb>, np: array<Limb>, nn: nat, den: Divisor, ghost d: nat)
    returns (ghost quot: nat, ghost rem: nat)
    requires den.For(d) && 2 <= den.size <= nn <= np.Length && den.up.Length == nn + 1 && den.up != np
    requires qp != null ==> qp.Length > nn - den.size && qp != den.vp && qp != den.up
    requires rp != null ==> rp.Length >= den.size && rp != den.vp && rp != den.up && rp != qp
    modifies den.up, qp, rp
    ensures DigitDone(quot, rem, old(Value(np[..nn])), d)
    ensures qp != null ==> Value(qp[..nn - den.size + 1]) == quot
    ensures rp != null ==> Value(rp[..den.size]) == rem
  {
    hide Pow, Value, IsReciprocal, Progress, Shl, Shr, Low, Funnel, RightShifted;
    var dn := den.size;
    ghost var n, s := Value(np[..nn]), Pow(2, den.shift);
    PowPositive(2, den.shift);
    Normalize(den.up, np, nn, den.shift);
    ValueBound(np[..nn]);
    InitialTop(den.up[..], n, d, s, nn, dn);
    quot := DigitLoop(qp, nn, den, d, n * s);
    ghost var xs := den.up[..dn];
    FinalProgress(n * s, quot, d * s, Value(xs));
    rem := n - quot * d;
    if den.shift != 0 {
      RightShiftedValue(xs, den.shift);
      Unscaled(n, d, s, quot, Value(xs), Value(RightShifted(xs, den.shift)), Low(xs[0], den.shift));
    } else {
      PowZero(2);
      Unscaled(n, d, s, quot, Value(xs), Value(xs), 0);
    }
    if rp != null {
      assert den.up[0..0 + dn] == xs;
      if den.shift != 0 {
        RShift(rp, 0, den.up, 0, dn, den.shift);
        assert rp[0..0 + dn] == rp[..dn];
      } else {
        CopyTo(rp, den.up, 0, dn);
      }
    }
  }

  lemma FinalProgress(total: int, quot: int, v: int, rem: int)
    requires Progress(total, quot, v, rem, 1, 0)
    ensures total == quot * v + rem && 0 <= rem < v
  {}

  /** `mpn_divmod`: exact division of any number by any divisor with a nonzero top limb. */
  method DivMod(qp: array?<Limb>, rp: array?<Limb>, np: array<Limb>, nn: nat, dp: array<Limb>, dn: nat)
    returns (ghost quot: nat, ghost rem: nat)
    requires 0 < dn <= nn <= np.Length && dn <= dp.Length && dp[dn - 1] != 0
    requires qp != null ==> qp.Length > nn - dn && qp != rp
    requires rp != null ==> rp.Length >= dn
    modifies qp, rp
    ensures old(Value(np[..nn])) == quot * old(Value(dp[..dn])) + rem && rem < old(Value(dp[..dn]))
    ensures qp != null ==> Value(qp[..nn - dn + 1]) == quot
    ensures rp != null ==> Value(rp[..dn]) == rem
  {
    hide Pow, Value, IsReciprocal, Normalized;
    ghost var d := Value(dp[..dn]);
    var den := new Divisor(dp, dn, nn);
    if dn == 1 {
      var r: Limb;
      r, quot := DivModSmall(qp, np, nn, den, d);
      rem := r;
      if rp != null {
        rp[0] := r;
        assert rp[..1] == [r];
        ValueSingle(r);
      }
    } else {
      quot, rem := DivModLarge(qp, rp, np, nn, den, d);
    }
  }
}
