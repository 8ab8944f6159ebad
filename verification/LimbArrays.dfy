/** The loops of the mpn layer, each writing a window of a limb array in place.
    An operation may write over one of its own operands, as its callers do; the window then
    has to coincide with that operand. */
module LimbArrays {
  import opened Arith
  import opened Limbs

  // ----- what each loop leaves behind, limb by limb, and the number that denotes

  datatype Carried = Carried(limbs: seq<Limb>, carry: Limb)

  function SumLimbs(x: seq<Limb>, y: seq<Limb>): (r: Carried)
    requires |x| == |y|
    ensures |r.limbs| == |x| && r.carry <= 1
  {
    if |x| == 0 then Carried([], 0)
    else
      var low := SumLimbs(x[..|x| - 1], y[..|x| - 1]);
      var (s, c) := AddCarry(x[|x| - 1], y[|x| - 1], low.carry);
      Carried(low.limbs + [s], c)
  }

  function DiffLimbs(x: seq<Limb>, y: seq<Limb>): (r: Carried)
    requires |x| == |y|
    ensures |r.limbs| == |x| && r.carry <= 1
  {
    if |x| == 0 then Carried([], 0)
    else
      var low := DiffLimbs(x[..|x| - 1], y[..|x| - 1]);
      var (s, c) := SubBorrow(x[|x| - 1], y[|x| - 1], low.carry);
      Carried(low.limbs + [s], c)
  }

  function AddMulLimbs(z: seq<Limb>, x: seq<Limb>, y: Limb): (r: Carried)
    requires |z| == |x|
    ensures |r.limbs| == |x|
  {
    if |x| == 0 then Carried([], 0)
    else
      var low := AddMulLimbs(z[..|x| - 1], x[..|x| - 1], y);
      var (s, c) := AddMulCarry(z[|x| - 1], x[|x| - 1], y, low.carry);
      Carried(low.limbs + [s], c)
  }

  function SubMulLimbs(z: seq<Limb>, x: seq<Limb>, y: Limb): (r: Carried)
    requires |z| == |x|
    ensures |r.limbs| == |x|
  {
    if |x| == 0 then Carried([], 0)
    else
      var low := SubMulLimbs(z[..|x| - 1], x[..|x| - 1], y);
      var (s, c) := SubMulCarry(z[|x| - 1], x[|x| - 1], y, low.carry);
      Carried(low.limbs + [s], c)
  }

  function MulLimbs(x: seq<Limb>, y: Limb): (r: Carried)
    ensures |r.limbs| == |x|
  {
    if |x| == 0 then Carried([], 0)
    else
      var low := MulLimbs(x[..|x| - 1], y);
      var (s, c) := MulCarry(x[|x| - 1], y, low.carry);
      Carried(low.limbs + [s], c)
  }

  /** One more limb of weight `p`: the new limb and carry account for `s`, `t` and the old carry. */
  lemma CarryStep(zv: int, z: int, c: int, c': int, sum: int, s: int, t: int, p: int)
    requires zv + c * p == sum
    requires z + c' * B == s + t + c
    ensures zv + z * p + c' * (B * p) == sum + s * p + t * p
  {
    var b: int := B;
    assert (z + c' * b) * p == z * p + c' * (b * p);
    assert (s + t + c) * p == s * p + t * p + c * p;
  }

  /** The same for a difference, with a borrow. */
  lemma BorrowStep(zv: int, z: int, c: int, c': int, diff: int, s: int, t: int, p: int)
    requires zv - c * p == diff
    requires z - c' * B == s - t - c
    ensures zv + z * p - c' * (B * p) == diff + s * p - t * p
  {
    var b: int := B;
    assert (z - c' * b) * p == z * p - c' * (b * p);
    assert (s - t - c) * p == s * p - t * p - c * p;
  }

  /** One more limb `x` of a product by `y`. */
  lemma ProductStep(xv: int, x: int, p: int, y: int)
    ensures (xv + x * p) * y == xv * y + (x * y) * p
  {}

  lemma {:induction false} SumLimbsValue(x: seq<Limb>, y: seq<Limb>)
    requires |x| == |y|
    ensures var r := SumLimbs(x, y); Value(r.limbs) + r.carry * Pow(B, |x|) == Value(x) + Value(y)
  {
    hide AddCarry;
    if |x| > 0 {
      var n := |x| - 1;
      SumLimbsValue(x[..n], y[..n]);
      var low, r := SumLimbs(x[..n], y[..n]), SumLimbs(x, y);
      ValueSnoc(low.limbs, r.limbs[n]);
      var xn: int, yn: int, c: int, c': int := x[n], y[n], low.carry, r.carry;
      CarryStep(Value(low.limbs), r.limbs[n], c, c', Value(x[..n]) + Value(y[..n]), xn, yn, Pow(B, n));
    }
  }

  lemma {:induction false} DiffLimbsValue(x: seq<Limb>, y: seq<Limb>)
    requires |x| == |y|
    ensures var r := DiffLimbs(x, y); Value(r.limbs) - r.carry * Pow(B, |x|) == Value(x) - Value(y)
  {
    hide SubBorrow;
    if |x| > 0 {
      var n := |x| - 1;
      DiffLimbsValue(x[..n], y[..n]);
      var low, r := DiffLimbs(x[..n], y[..n]), DiffLimbs(x, y);
      ValueSnoc(low.limbs, r.limbs[n]);
      var xn: int, yn: int, c: int, c': int := x[n], y[n], low.carry, r.carry;
      BorrowStep(Value(low.limbs), r.limbs[n], c, c', Value(x[..n]) - Value(y[..n]), xn, yn, Pow(B, n));
    }
  }

  lemma {:induction false} AddMulLimbsValue(z: seq<Limb>, x: seq<Limb>, y: Limb)
    requires |z| == |x|
    ensures var r := AddMulLimbs(z, x, y);
            Value(r.limbs) + r.carry * Pow(B, |x|) == Value(z) + Value(x) * y
  {
    hide AddMulCarry;
    if |x| > 0 {
      var n := |x| - 1;
      AddMulLimbsValue(z[..n], x[..n], y);
      var low, r := AddMulLimbs(z[..n], x[..n], y), AddMulLimbs(z, x, y);
      ValueSnoc(low.limbs, r.limbs[n]);
      var zn: int, xn: int, c: int, c': int := z[n], x[n], low.carry, r.carry;
      CarryStep(Value(low.limbs), r.limbs[n], c, c', Value(z[..n]) + Value(x[..n]) * y, zn, xn * y, Pow(B, n));
      ProductStep(Value(x[..n]), xn, Pow(B, n), y);
    }
  }

  lemma {:induction false} SubMulLimbsValue(z: seq<Limb>, x: seq<Limb>, y: Limb)
    requires |z| == |x|
    ensures var r := SubMulLimbs(z, x, y);
            Value(r.limbs) - r.carry * Pow(B, |x|) == Value(z) - Value(x) * y
  {
    hide SubMulCarry;
    if |x| > 0 {
      var n := |x| - 1;
      SubMulLimbsValue(z[..n], x[..n], y);
      var low, r := SubMulLimbs(z[..n], x[..n], y), SubMulLimbs(z, x, y);
      ValueSnoc(low.limbs, r.limbs[n]);
      var zn: int, xn: int, c: int, c': int := z[n], x[n], low.carry, r.carry;
      BorrowStep(Value(low.limbs), r.limbs[n], c, c', Value(z[..n]) - Value(x[..n]) * y, zn, xn * y, Pow(B, n));
      ProductStep(Value(x[..n]), xn, Pow(B, n), y);
    }
  }

  lemma {:induction false} MulLimbsValue(x: seq<Limb>, y: Limb)
    ensures var r := MulLimbs(x, y); Value(r.limbs) + r.carry * Pow(B, |x|) == Value(x) * y
  {
    hide MulCarry;
    if |x| > 0 {
      var n := |x| - 1;
      MulLimbsValue(x[..n], y);
      var low, r := MulLimbs(x[..n], y), MulLimbs(x, y);
      ValueSnoc(low.limbs, r.limbs[n]);
      var xn: int, c: int, c': int := x[n], low.carry, r.carry;
      CarryStep(Value(low.limbs), r.limbs[n], c, c', Value(x[..n]) * y, xn * y, 0, Pow(B, n));
      ProductStep(Value(x[..n]), xn, Pow(B, n), y);
    }
  }

  // ----- the loops

  /** Operand window `x[xo..]` is either in another array or is the written window itself. */
  predicate Apart(z: array<Limb>, zo: nat, x: array<Limb>, xo: nat) {
    z != x || zo == xo
  }

  method CopyTo(z: array<Limb>, x: array<Limb>, xo: nat, n: nat)
    requires n <= z.Length && xo + n <= x.Length && z != x
    modifies z
    ensures z[..n] == x[xo..xo + n]
    ensures z[n..] == old(z[n..])
  {
    for i := 0 to n
      invariant z[..i] == x[xo..xo + i]
      invariant forall k :: i <= k < z.Length ==> z[k] == old(z[k])
    {
      z[i] := x[xo + i];
    }
  }

  method AddN(z: array<Limb>, zo: nat, x: array<Limb>, xo: nat, y: array<Limb>, yo: nat, n: nat) returns (c: Limb)
    requires zo + n <= z.Length && xo + n <= x.Length && yo + n <= y.Length
    requires Apart(z, zo, x, xo) && Apart(z, zo, y, yo)
    modifies z
    ensures Carried(z[zo..zo + n], c) == old(SumLimbs(x[xo..xo + n], y[yo..yo + n]))
    ensures z[..zo] == old(z[..zo]) && z[zo + n..] == old(z[zo + n..])
  {
    hide AddCarry;
    c := 0;
    ghost var xs, ys := x[xo..xo + n], y[yo..yo + n];
    for i := 0 to n
      invariant z[..zo] == old(z[..zo]) && z[zo + i..] == old(z[zo + i..])
      invariant c <= 1 && Carried(z[zo..zo + i], c) == SumLimbs(xs[..i], ys[..i])
    {
      ghost var done := z[zo..zo + i];
      assert z[zo + i..][0] == z[zo + i];
      assert old(z[zo + i..])[0] == old(z[zo + i]);
      assert x[xo + i] == xs[i] && y[yo + i] == ys[i];
      assert xs[..i + 1][..i] == xs[..i] && ys[..i + 1][..i] == ys[..i];
      var r := AddCarry(x[xo + i], y[yo + i], c);
      z[zo + i], c := r.0, r.1;
      assert z[zo..zo + i + 1] == done + [z[zo + i]];
    }
    assert xs[..n] == xs && ys[..n] == ys;
  }

  method SubN(z: array<Limb>, zo: nat, x: array<Limb>, xo: nat, y: array<Limb>, yo: nat, n: nat) returns (c: Limb)
    requires zo + n <= z.Length && xo + n <= x.Length && yo + n <= y.Length
    requires Apart(z, zo, x, xo) && Apart(z, zo, y, yo)
    modifies z
    ensures Carried(z[zo..zo + n], c) == old(DiffLimbs(x[xo..xo + n], y[yo..yo + n]))
    ensures z[..zo] == old(z[..zo]) && z[zo + n..] == old(z[zo + n..])
  {
    hide SubBorrow;
    c := 0;
    ghost var xs, ys := x[xo..xo + n], y[yo..yo + n];
    for i := 0 to n
      invariant z[..zo] == old(z[..zo]) && z[zo + i..] == old(z[zo + i..])
      invariant c <= 1 && Carried(z[zo..zo + i], c) == DiffLimbs(xs[..i], ys[..i])
    {
      ghost var done := z[zo..zo + i];
      assert z[zo + i..][0] == z[zo + i];
      assert old(z[zo + i..])[0] == old(z[zo + i]);
      assert x[xo + i] == xs[i] && y[yo + i] == ys[i];
      assert xs[..i + 1][..i] == xs[..i] && ys[..i + 1][..i] == ys[..i];
      var r := SubBorrow(x[xo + i], y[yo + i], c);
      z[zo + i], c := r.0, r.1;
      assert z[zo..zo + i + 1] == done + [z[zo + i]];
    }
    assert xs[..n] == xs && ys[..n] == ys;
  }

  method Mul1(z: array<Limb>, x: array<Limb>, n: nat, y: Limb) returns (c: Limb)
    requires n <= z.Length && n <= x.Length
    modifies z
    ensures Carried(z[..n], c) == old(MulLimbs(x[..n], y))
    ensures z[n..] == old(z[n..])
  {
    hide MulCarry;
    c := 0;
    ghost var xs := x[..n];
    for i := 0 to n
      invariant forall k :: i <= k < z.Length ==> z[k] == old(z[k])
      invariant Carried(z[..i], c) == MulLimbs(xs[..i], y)
    {
      ghost var done := z[..i];
      assert x[i] == xs[i];
      assert xs[..i + 1][..i] == xs[..i];
      var r := MulCarry(x[i], y, c);
      z[i], c := r.0, r.1;
      assert z[..i + 1] == done + [z[i]];
    }
    assert xs[..n] == xs;
  }

  method AddMul1(z: array<Limb>, zo: nat, x: array<Limb>, n: nat, y: Limb) returns (c: Limb)
    requires zo + n <= z.Length && n <= x.Length && Apart(z, zo, x, 0)
    modifies z
    ensures Carried(z[zo..zo + n], c) == old(AddMulLimbs(z[zo..zo + n], x[..n], y))
    ensures z[..zo] == old(z[..zo]) && z[zo + n..] == old(z[zo + n..])
  {
    hide AddMulCarry, AddMulLimbs;
    c := 0;
    ghost var xs, zs := x[..n], z[zo..zo + n];
    AddMulNext(zs, xs, y, 0);
    for i := 0 to n
      invariant z[..zo] == old(z[..zo]) && z[zo + i..] == old(z[zo + i..])
      invariant Carried(z[zo..zo + i], c) == AddMulLimbs(zs[..i], xs[..i], y)
    {
      ghost var done := z[zo..zo + i];
      assert z[zo + i] == z[zo + i..][0] == old(z[zo + i..])[0] == zs[i];
      assert x[i] == xs[i];
      AddMulNext(zs, xs, y, i);
      var r := AddMulCarry(z[zo + i], x[i], y, c);
      z[zo + i], c := r.0, r.1;
      assert z[zo..zo + i + 1] == done + [z[zo + i]];
    }
    assert xs[..n] == xs && zs[..n] == zs;
  }

  method SubMul1(z: array<Limb>, zo: nat, x: array<Limb>, n: nat, y: Limb) returns (c: Limb)
    requires zo + n <= z.Length && n <= x.Length && Apart(z, zo, x, 0)
    modifies z
    ensures Carried(z[zo..zo + n], c) == old(SubMulLimbs(z[zo..zo + n], x[..n], y))
    ensures z[..zo] == old(z[..zo]) && z[zo + n..] == old(z[zo + n..])
  {
    hide SubMulCarry, SubMulLimbs;
    c := 0;
    ghost var xs, zs := x[..n], z[zo..zo + n];
    SubMulNext(zs, xs, y, 0);
    for i := 0 to n
      invariant z[..zo] == old(z[..zo]) && z[zo + i..] == old(z[zo + i..])
      invariant Carried(z[zo..zo + i], c) == SubMulLimbs(zs[..i], xs[..i], y)
    {
      ghost var done := z[zo..zo + i];
      assert z[zo + i] == z[zo + i..][0] == old(z[zo + i..])[0] == zs[i];
      assert x[i] == xs[i];
      SubMulNext(zs, xs, y, i);
      var r := SubMulCarry(z[zo + i], x[i], y, c);
      z[zo + i], c := r.0, r.1;
      assert z[zo..zo + i + 1] == done + [z[zo + i]];
    }
    assert xs[..n] == xs && zs[..n] == zs;
  }

  lemma AddMulNext(z: seq<Limb>, x: seq<Limb>, y: Limb, i: nat)
    requires |z| == |x|
    ensures AddMulLimbs(z[..0], x[..0], y) == Carried([], 0)
    ensures i < |x| ==>
      var low := AddMulLimbs(z[..i], x[..i], y); var (s, c) := AddMulCarry(z[i], x[i], y, low.carry);
      AddMulLimbs(z[..i + 1], x[..i + 1], y) == Carried(low.limbs + [s], c)
  {
    hide AddMulCarry;
    if i < |x| { assert z[..i + 1][..i] == z[..i] && x[..i + 1][..i] == x[..i]; }
  }

  lemma SubMulNext(z: seq<Limb>, x: seq<Limb>, y: Limb, i: nat)
    requires |z| == |x|
    ensures SubMulLimbs(z[..0], x[..0], y) == Carried([], 0)
    ensures i < |x| ==>
      var low := SubMulLimbs(z[..i], x[..i], y); var (s, c) := SubMulCarry(z[i], x[i], y, low.carry);
      SubMulLimbs(z[..i + 1], x[..i + 1], y) == Carried(low.limbs + [s], c)
  {
    hide SubMulCarry;
    if i < |x| { assert z[..i + 1][..i] == z[..i] && x[..i + 1][..i] == x[..i]; }
  }
}
