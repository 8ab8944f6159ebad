/** Regrouping bits: digits of `2^from` read as digits of `2^to`, through a 32-bit accumulator. */
module Regroup {
  import opened Arith
  import opened Radix
  import opened Wire

  // ----- digit strings of a fixed length

  ghost function Fixed(b: nat, n: nat, k: nat): (s: seq<int>)
    requires b >= 1
    ensures |s| == k
  {
    if k == 0 then [] else Fixed(b, n / b, k - 1) + [n % b]
  }

  /** A digit string is determined by its number and its length. */
  lemma {:induction false} FixedUnique(b: nat, s: seq<int>)
    requires b >= 1 && InRadix(s, b)
    ensures Number(b, s) >= 0 && Fixed(b, Number(b, s), |s|) == s
  {
    if s != [] {
      var s', e := s[..|s| - 1], s[|s| - 1];
      FixedUnique(b, s');
      hide Pow, Number;
      assert s == s' + [e];
      NumberSnoc(b, s', e);
      var n := Number(b, s');
      DivModUnique(n * b + e, b, n, e);
      MulMono(0, n, b);
    } else {
      NumberEmpty(b);
    }
  }

  lemma {:induction false} FixedNumber(b: nat, n: nat, k: nat)
    requires b >= 1 && n < Pow(b, k)
    ensures InRadix(Fixed(b, n, k), b) && Number(b, Fixed(b, n, k)) == n
    decreases k
  {
    if k > 0 {
      hide Pow, Number;
      var q, r := n / b, n % b;
      PowSucc(b, k - 1);
      Halved(n, b, Pow(b, k - 1));
      FixedNumber(b, q, k - 1);
      NumberSnoc(b, Fixed(b, q, k - 1), r);
    } else {
      NumberEmpty(b);
    }
  }

  lemma Halved(n: nat, b: nat, p: nat)
    requires b >= 1 && n < b * p
    ensures 0 <= n / b < p && n == n / b * b + n % b && 0 <= n % b < b
  {
    MulCancelLess(n / b, p, b);
  }

  // ----- the specification

  ghost function Bits(k: nat): (p: nat)
    ensures p >= 1
  {
    Pow(2, k)
  }

  lemma BitsAdd(j: nat, k: nat)
    ensures Bits(j + k) == Bits(j) * Bits(k)
  {
    PowAdd(2, j, k);
  }

  /** The number of `src` cut into groups of `to` bits; a last partial group is filled with zeros when
      padding, and must otherwise be zero and shorter than a source group. */
  ghost function Regrouped(src: seq<int>, from: nat, to: nat, pad: bool): (r: Option<seq<int>>)
    requires from >= 1 && to >= 1 && InRadix(src, Bits(from))
  {
    var total := from * |src|;
    NumberNonneg(Bits(from), src);
    var n: nat, k, rest := Number(Bits(from), src), total / to, total % to;
    if pad then
      if rest == 0 then Some(Fixed(Bits(to), n, k)) else Some(Fixed(Bits(to), n * Bits(to - rest), k + 1))
    else
      if rest >= from || n % Bits(rest) != 0 then None else Some(Fixed(Bits(to), n / Bits(rest), k))
  }

  // ----- the accumulator

  /** `q` is `n` without its last `log p` bits. */
  ghost predicate Cut(n: int, q: int, p: int) {
    q * p <= n < q * p + p
  }

  lemma CutShift(n: int, q: int, p: int, s: int, v: int)
    requires Cut(n, q, p) && 0 <= v < s
    ensures Cut(n * s + v, q, p * s)
  {
    MulMono(q * p, n, s);
    MulMono(n + 1, q * p + p, s);
    assert (q * p) * s == q * (p * s);
    assert (q * p + p) * s == q * (p * s) + p * s;
    assert (n + 1) * s == n * s + s;
  }

  lemma CutDivides(n: int, q: int, p: int)
    requires Cut(n, q, p) && p > 0
    ensures q == n / p
  {
    DivModUnique(n, p, q, n - q * p);
  }

  lemma CutDigit(n: nat, q: int, r: int, d: int)
    requires Cut(n, q, r * d) && r > 0 && d > 0
    ensures 0 <= n / r % d < d && Cut(n, q * d + n / r % d, r)
  {
    var m := n / r;
    var low := n % r;
    assert n == m * r + low;
    assert q * (r * d) == (q * d) * r && q * (r * d) + r * d == (q * d + d) * r;
    MulCancelLess(q * d, m + 1, r);
    MulCancelLess(m, q * d + d, r);
    DivModUnique(m, d, q, m - q * d);
    assert m == q * d + m % d;
  }

  /** The accumulator has forgotten bits that no group looks at. */
  lemma WrappedDigit(n: nat, m: int, r: int, d: int, t: int)
    requires r > 0 && d > 0 && t > 0 && m == t * (r * d)
    ensures m > 0 && n % m / r % d == n / r % d
  {
    MulStrict(0, r, d);
    MulStrict(0, t, r * d);
    var k, acc := n / m, n % m;
    assert n == k * m + acc;
    var x, low := acc / r, acc % r;
    assert acc == x * r + low;
    assert k * (t * (r * d)) == (k * t * d) * r;
    assert n == (k * t * d + x) * r + low;
    DivModUnique(n, r, k * t * d + x, low);
    var y, z := x / d, x % d;
    assert x == y * d + z;
    assert k * t * d + x == (k * t + y) * d + z;
    DivModUnique(k * t * d + x, d, k * t + y, z);
  }

  lemma WrappedShift(n: nat, m: int, s: int, v: int)
    requires m > 0 && s >= 0 && v >= 0
    ensures (n % m * s + v) % m == (n * s + v) % m
  {
    var k, acc := n / m, n % m;
    assert n == k * m + acc;
    var w := acc * s + v;
    assert n * s + v == (k * s) * m + w by { assert (k * m + acc) * s == (k * s) * m + acc * s; }
    var q := w / m;
    assert w == q * m + w % m;
    assert n * s + v == (k * s + q) * m + w % m;
    DivModUnique(n * s + v, m, k * s + q, w % m);
  }

  lemma ModOfMultiple(x: nat, d: int, t: int, q: int, low: int)
    requires d > 0 && t > 0 && x == q * d + low && 0 <= low < d
    ensures t * d > 0 && x % (t * d) % d == low
  {
    MulStrict(0, t, d);
    var m := t * d;
    var k := x / m;
    assert x == k * m + x % m;
    MulAssoc(k, t, d);
    var kt := k * t;
    assert (q - kt) * d == q * d - kt * d;
    DivModUnique(x % m, d, q - kt, low);
  }

  /** The rest of an unfinished group, moved to the top of it. */
  lemma WrappedRest(n: nat, q: int, p: int, l: int, d: int, m: int, t: int)
    requires Cut(n, q, p) && p > 0 && l > 0 && p * l == d && t > 0 && m == t * d
    ensures m > 0 && d > 0
    ensures n % m * l % m % d == (n - q * p) * l && 0 <= (n - q * p) * l < d && q * d + (n - q * p) * l == n * l
  {
    MulStrict(0, p, l);
    MulStrict(0, t, d);
    var low := n - q * p;
    WrappedShift(n, m, l, 0);
    RestFits(n, q, p, l, d, low);
    ModOfMultiple(n * l, d, t, q, low * l);
  }

  lemma RestFits(n: nat, q: int, p: int, l: int, d: int, low: int)
    requires Cut(n, q, p) && l > 0 && p * l == d && low == n - q * p
    ensures n * l == q * d + low * l && 0 <= low * l < d && 0 <= n * l
  {
    assert (q * p + low) * l == q * (p * l) + low * l;
    MulMono(0, low, l);
    MulMono(0, n, l);
    MulStrict(low, p, l);
  }

  const WORD: nat := 0x1_0000_0000

  lemma WordBits()
    ensures Bits(32) == WORD
  {
    PowAdd(2, 8, 8);
    PowAdd(2, 16, 16);
    assert Pow(2, 8) == 256;
  }

  lemma WordParts(r: nat, d: nat)
    requires r + d <= 32
    ensures WORD == Bits(32 - r - d) * (Bits(r) * Bits(d))
  {
    hide Bits;
    WordBits();
    BitsAdd(r, d);
    BitsAdd(32 - r - d, r + d);
  }

  /** `out` holds the groups finished so far, of the `i` source groups read; `bits` bits are left over. */
  ghost predicate Grouping(src: seq<int>, from: nat, to: nat, i: nat, out: seq<int>, bits: nat, acc: nat) {
    && i <= |src| && InRadix(src, Bits(from)) && InRadix(out, Bits(to))
    && from * i == to * |out| + bits
    && Number(Bits(from), src[..i]) >= 0
    && Cut(Number(Bits(from), src[..i]), Number(Bits(to), out), Bits(bits))
    && acc == Number(Bits(from), src[..i]) % WORD
  }

  lemma GroupingStart(src: seq<int>, from: nat, to: nat)
    requires InRadix(src, Bits(from))
    ensures Grouping(src, from, to, 0, [], 0, 0)
  {
    hide Number;
    assert src[..0] == [];
    NumberEmpty(Bits(from));
    NumberEmpty(Bits(to));
  }

  lemma GroupingRead(src: seq<int>, from: nat, to: nat, i: nat, out: seq<int>, bits: nat, acc: nat)
    requires Grouping(src, from, to, i, out, bits, acc) && i < |src|
    ensures Grouping(src, from, to, i + 1, out, bits + from, (acc * Bits(from) + src[i]) % WORD)
  {
    hide Number, Bits, Cut;
    assert src[..i + 1] == src[..i] + [src[i]];
    NumberSnoc(Bits(from), src[..i], src[i]);
    NumberNonneg(Bits(from), src[..i + 1]);
    CutShift(Number(Bits(from), src[..i]), Number(Bits(to), out), Bits(bits), Bits(from), src[i]);
    BitsAdd(bits, from);
    WrappedShift(Number(Bits(from), src[..i]), WORD, Bits(from), src[i]);
    Distribute(from, i);
  }

  lemma Distribute(a: int, i: int)
    ensures a * (i + 1) == a * i + a
  {}

  lemma GroupingWrite(src: seq<int>, from: nat, to: nat, i: nat, out: seq<int>, bits: nat, acc: nat)
    requires Grouping(src, from, to, i, out, bits, acc) && to <= bits <= 32
    ensures var d := acc / Bits(bits - to) % Bits(to);
            Grouping(src, from, to, i, out + [d], bits - to, acc)
  {
    hide Number, Bits, Cut;
    var n, r, t := Number(Bits(from), src[..i]), Bits(bits - to), Bits(to);
    BitsAdd(bits - to, to);
    CutDigit(n, Number(Bits(to), out), r, t);
    WordParts(bits - to, to);
    WrappedDigit(n, WORD, r, t, Bits(32 - bits));
    NumberSnoc(Bits(to), out, n / r % t);
    Distribute(to, |out|);
  }

  lemma CountGroups(total: nat, to: nat, k: nat, bits: nat)
    requires total == to * k + bits && bits < to
    ensures total / to == k && total % to == bits
  {
    DivModUnique(total, to, k, bits);
  }

  /** The whole source read: what the two endings return is the specification. */
  lemma GroupingEnd(src: seq<int>, from: nat, to: nat, out: seq<int>, bits: nat, acc: nat)
    requires from >= 1 && Grouping(src, from, to, |src|, out, bits, acc) && bits < to <= 32
    ensures var d := acc * Bits(to - bits) % WORD % Bits(to);
            0 <= d && Regrouped(src, from, to, true) == Some(if bits > 0 then out + [d] else out)
    ensures var d := acc * Bits(to - bits) % WORD % Bits(to);
            Regrouped(src, from, to, false) == if d != 0 || bits >= from then None else Some(out)
  {
    hide Number, Bits, Cut, Fixed;
    var n, q, p, l, t := Number(Bits(from), src), Number(Bits(to), out), Bits(bits), Bits(to - bits), Bits(to);
    assert src[..|src|] == src;
    CountGroups(from * |src|, to, |out|, bits);
    BitsAdd(bits, to - bits);
    WordParts(0, to);
    assert Bits(0) == 1 by { PowZero(2); OneBits(); }
    WrappedRest(n, q, p, l, t, WORD, Bits(32 - to));
    var d := acc * l % WORD % t;
    FixedUnique(t, out);
    NumberSnoc(t, out, d);
    FixedUnique(t, out + [d]);
    CutDivides(n, q, p);
    if bits == 0 {
      WholeGroups(n, q);
    }
    RestZero(n, q, p, l, d);
  }

  lemma OneBits()
    ensures Bits(0) == 1
  {}

  lemma WholeGroups(n: int, q: int)
    requires Cut(n, q, 1)
    ensures n == q
  {}

  lemma RestZero(n: int, q: int, p: int, l: int, d: int)
    requires p > 0 && l > 0 && q == n / p && d == (n - q * p) * l
    ensures d != 0 <==> n % p != 0
  {
    assert n - q * p == n % p;
    if n % p != 0 { MulStrict(0, n % p, l); }
  }

  /** `acc << from` keeps no bit where the new group goes, so the source's `or` is a sum. */
  method ConvertBits(src: seq<int>, from: nat, to: nat, pad: bool) returns (r: Option<seq<int>>)
    requires from >= 1 && to >= 1 && from + to <= 32 && InRadix(src, Bits(from))
    ensures r == Regrouped(src, from, to, pad)
  {
    hide Regrouped, Grouping, Bits, Pow;
    var acc: nat, bits: nat, i := 0, 0, 0;
    var dst: seq<int> := [];
    GroupingStart(src, from, to);
    while i < |src|
      invariant 0 <= i <= |src| && bits < to && Grouping(src, from, to, i, dst, bits, acc)
    {
      GroupingRead(src, from, to, i, dst, bits, acc);
      NonNegative(src, Bits(from), acc, i);
      acc := (acc * Power2(from) + src[i]) % WORD;
      bits := bits + from;
      i := i + 1;
      while bits >= to
        invariant bits < to + from && Grouping(src, from, to, i, dst, bits, acc)
        decreases bits
      {
        GroupingWrite(src, from, to, i, dst, bits, acc);
        bits := bits - to;
        dst := dst + [acc / Power2(bits) % Power2(to)];
      }
    }
    GroupingEnd(src, from, to, dst, bits, acc);
    var last := acc * Power2(to - bits) % WORD % Power2(to);
    if pad {
      r := Some(if bits > 0 then dst + [last] else dst);
    } else if last != 0 || bits >= from {
      r := None;
    } else {
      r := Some(dst);
    }
  }

  lemma NonNegative(src: seq<int>, b: nat, acc: nat, i: nat)
    requires i < |src| && InRadix(src, b)
    ensures acc * b + src[i] >= 0
  {
    MulMono(0, acc, b);
  }

  /** `1 << k`. */
  function Power2(k: nat): (p: nat)
    ensures p == Bits(k) && p >= 1
  {
    if k == 0 then 1 else 2 * Power2(k - 1)
  }

  // ----- padding and stripping

  lemma PowOfBits(k: nat, j: nat)
    ensures Pow(Bits(k), j) == Bits(k * j)
  {
    PowMul(2, k, j);
  }

  /** The number of `x`, moved up by `p` bits, fits the groups. */
  lemma PaddedFits(x: seq<int>, m: nat, p: nat)
    requires InRadix(x, Bits(8)) && 5 * m == 8 * |x| + p
    ensures 0 <= Number(Bits(8), x) * Bits(p) < Pow(Bits(5), m)
  {
    hide Number, Bits, Pow;
    NumberNonneg(Bits(8), x);
    var n := Number(Bits(8), x);
    NumberBound(Bits(8), x);
    PowOfBits(8, |x|);
    OneBits();
    BitsAdd(8 * |x|, p);
    assert n < Bits(8 * |x|) by { if x == [] { NumberEmpty(Bits(8)); } }
    MulStrict(n, Bits(8 * |x|), Bits(p));
    MulMono(0, n, Bits(p));
    PowOfBits(5, m);
  }

  /** Bytes to 5-bit groups and back. */
  lemma UnpadUndoesPad(x: seq<int>)
    requires InRadix(x, Bits(8))
    ensures var d := Regrouped(x, 8, 5, true);
            && d.Some? && InRadix(d.value, Bits(5)) && 8 * |x| <= 5 * |d.value| < 8 * |x| + 5
            && Regrouped(d.value, 5, 8, false) == Some(x)
  {
    hide Number, Bits, Fixed, Pow;
    NumberNonneg(Bits(8), x);
    var n: nat, m := Number(Bits(8), x), (8 * |x| + 4) / 5;
    var p := 5 * m - 8 * |x|;
    PaddedFits(x, m, p);
    var d := Fixed(Bits(5), n * Bits(p), m);
    FixedNumber(Bits(5), n * Bits(p), m);
    if p == 0 {
      OneBits();
      CountGroups(8 * |x|, 5, m, 0);
    } else {
      CountGroups(8 * |x|, 5, m - 1, 5 - p);
    }
    assert Regrouped(x, 8, 5, true) == Some(d);
    DivModUnique(n * Bits(p), Bits(p), n, 0);
    FixedUnique(Bits(8), x);
    CountGroups(5 * m, 8, |x|, p);
  }

  /** 5-bit groups that strip to bytes come from those bytes. */
  lemma PadUndoesUnpad(d: seq<int>, x: seq<int>)
    requires InRadix(d, Bits(5)) && Regrouped(d, 5, 8, false) == Some(x)
    ensures InRadix(x, Bits(8)) && Regrouped(x, 8, 5, true) == Some(d)
  {
    hide Number, Bits, Fixed, Pow;
    NumberNonneg(Bits(5), d);
    var n: nat, p, k := Number(Bits(5), d), 5 * |d| % 8, 5 * |d| / 8;
    NumberBound(Bits(5), d);
    PowOfBits(5, |d|);
    PowOfBits(8, k);
    OneBits();
    BitsAdd(8 * k, p);
    assert n < Bits(5 * |d|) by { if d == [] { NumberEmpty(Bits(5)); } }
    Stripped(n, Bits(p), Bits(8 * k));
    FixedNumber(Bits(8), n / Bits(p), k);
    FixedUnique(Bits(5), d);
    assert x == Fixed(Bits(8), n / Bits(p), k);
    assert p == 0 ==> n / Bits(p) == n;
    assert p < 5 && 8 * k == 5 * |d| - p;
    if p > 0 { CountGroups(8 * k, 5, |d| - 1, 5 - p); } else { CountGroups(8 * k, 5, |d|, 0); }
  }

  lemma Stripped(n: nat, p: nat, s: nat)
    requires p > 0 && n % p == 0 && n < s * p
    ensures 0 <= n / p < s && n / p * p == n
  {
    MulCancelLess(n / p, s, p);
  }
}
