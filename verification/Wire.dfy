/** Serialization primitives: little-endian integers, compact sizes and varints. */
module Wire {
  import opened Arith

  type byte = x: int | 0 <= x < 256 witness 0

  datatype Option<+T> = None | Some(value: T)

  /** A value read off the front of some bytes, and the bytes that remain. */
  datatype Parsed<+T> = Parsed(value: T, rest: seq<byte>)

  const UINT64_MAX: nat := 0xffff_ffff_ffff_ffff

  // ----- little-endian integers

  function LittleEndian(x: nat, n: nat): (s: seq<byte>)
    ensures |s| == n
  {
    if n == 0 then [] else [x % 256] + LittleEndian(x / 256, n - 1)
  }

  function FromLittleEndian(s: seq<byte>): (x: nat) {
    if s == [] then 0 else s[0] + 256 * FromLittleEndian(s[1..])
  }

  lemma {:induction false} LittleEndianRoundTrip(x: nat, n: nat)
    requires x < Pow(256, n)
    ensures FromLittleEndian(LittleEndian(x, n)) == x
  {
    if n > 0 {
      LittleEndianRoundTrip(x / 256, n - 1);
      assert LittleEndian(x, n)[1..] == LittleEndian(x / 256, n - 1);
    }
  }

  lemma ByteSplit(b: byte, hi: nat)
    ensures (b + 256 * hi) % 256 == b && (b + 256 * hi) / 256 == hi
  {}

  lemma {:induction false} FromLittleEndianRoundTrip(s: seq<byte>)
    ensures LittleEndian(FromLittleEndian(s), |s|) == s && FromLittleEndian(s) < Pow(256, |s|)
  {
    if s != [] {
      hide Pow;
      FromLittleEndianRoundTrip(s[1..]);
      PowSucc(256, |s| - 1);
      ByteSplit(s[0], FromLittleEndian(s[1..]));
      assert s == [s[0]] + s[1..];
    } else {
      PowZero(256);
    }
  }

  function ParseInt(s: seq<byte>, n: nat): (r: Option<Parsed<nat>>) {
    if |s| < n then None else Some(Parsed(FromLittleEndian(s[..n]), s[n..]))
  }

  lemma ParseIntUndoes(x: nat, n: nat, t: seq<byte>)
    requires x < Pow(256, n)
    ensures ParseInt(LittleEndian(x, n) + t, n) == Some(Parsed(x, t))
  {
    LittleEndianRoundTrip(x, n);
    var s := LittleEndian(x, n) + t;
    assert s[..n] == LittleEndian(x, n) && s[n..] == t;
  }

  lemma ParseIntOnly(s: seq<byte>, n: nat)
    ensures var r := ParseInt(s, n); r.Some? ==>
      s == LittleEndian(r.value.value, n) + r.value.rest && r.value.value < Pow(256, n)
  {
    if |s| >= n {
      FromLittleEndianRoundTrip(s[..n]);
      assert s == s[..n] + s[n..];
    }
  }

  lemma PowersOf256()
    ensures Pow(256, 1) == 0x100 && Pow(256, 2) == 0x1_0000 && Pow(256, 4) == 0x1_0000_0000
    ensures Pow(256, 8) == UINT64_MAX + 1
  {
    PowAdd(256, 1, 1);
    PowAdd(256, 2, 2);
    PowAdd(256, 4, 4);
  }

  /** Byte `i` has weight 256^i. */
  lemma {:induction false} LittleEndianAt(x: nat, n: nat, i: nat)
    requires i < n
    ensures LittleEndian(x, n)[i] == x / Pow(256, i) % 256
    decreases n
  {
    if i > 0 {
      LittleEndianAt(x / 256, n - 1, i - 1);
      DivTwice(x, 256, Pow(256, i - 1));
    }
  }

  lemma DivTwice(x: nat, a: nat, b: nat)
    requires a > 0 && b > 0
    ensures a * b > 0 && x / (a * b) == x / a / b
  {
    var q, r := x / a, x % a;
    var q', r' := q / b, q % b;
    assert x == q * a + r && q == q' * b + r';
    assert (q' * b + r') * a + r == q' * (a * b) + (r' * a + r);
    MulMono(r' + 1, b, a);
    MulMono(1, b, a);
    assert (r' + 1) * a == r' * a + a && b * a == a * b;
    MulMono(0, r', a);
    DivModUnique(x, a * b, q', r' * a + r);
  }

  /** The bytes of short integers. */
  lemma ShortBytes(x: nat)
    ensures x <= 0xff ==> LittleEndian(x, 1) == [x]
    ensures x <= 0xffff ==> LittleEndian(x, 2) == [x % 256, x / 256]
    ensures x <= 0xffff_ffff ==> LittleEndian(x, 4) == [x % 256, x / 0x100 % 256, x / 0x1_0000 % 256, x / 0x100_0000]
  {
    hide LittleEndian;
    if x <= 0xff { LastByte(x); }
    if x <= 0xffff { TwoBytes(x, x / 256); }
    if x <= 0xffff_ffff {
      Quarters(x);
      FourBytes(x, x / 0x100, x / 0x1_0000, x / 0x100_0000);
    }
  }

  lemma Quarters(x: nat)
    requires x <= 0xffff_ffff
    ensures x / 0x1_0000 == x / 0x100 / 256 && x / 0x100_0000 == x / 0x1_0000 / 256 && x / 0x1_0000 <= 0xffff
  {}

  lemma FourBytes(x: nat, y: nat, z: nat, w: nat)
    requires y == x / 256 && z == y / 256 && w == z / 256 && z <= 0xffff
    ensures LittleEndian(x, 4) == [x % 256, y % 256, z % 256, w]
  {
    hide LittleEndian;
    LowByte(x, 3);
    LowByte(y, 2);
    TwoBytes(z, w);
  }

  lemma TwoBytes(x: nat, h: nat)
    requires x <= 0xffff && h == x / 256
    ensures LittleEndian(x, 2) == [x % 256, h]
  {
    hide LittleEndian;
    LowByte(x, 1);
    LastByte(h);
  }

  lemma LowByte(x: nat, n: nat)
    ensures LittleEndian(x, n + 1) == [x % 256] + LittleEndian(x / 256, n)
  {}

  lemma LastByte(x: nat)
    requires x <= 0xff
    ensures LittleEndian(x, 1) == [x]
  {
    assert LittleEndian(x / 256, 0) == [];
  }

  // ----- compact sizes

  /** `btc_compact_write`. */
  function Compact(x: nat): (s: seq<byte>)
    requires x <= UINT64_MAX
    ensures |s| == CompactSize(x)
  {
    if x < 0xfd then [x]
    else if x <= 0xffff then [0xfd] + LittleEndian(x, 2)
    else if x <= 0xffff_ffff then [0xfe] + LittleEndian(x, 4)
    else [0xff] + LittleEndian(x, 8)
  }

  /** `btc_compact_size`. */
  function CompactSize(x: nat): (n: nat) {
    if x < 0xfd then 1 else if x <= 0xffff then 3 else if x <= 0xffff_ffff then 5 else 9
  }

  /** A wide form is accepted only for values that need it. */
  function Canonical(r: Option<Parsed<nat>>, least: nat): (r': Option<Parsed<nat>>) {
    if r.Some? && r.value.value < least then None else r
  }

  /** `btc_compact_read`. */
  function ParseCompact(s: seq<byte>): (r: Option<Parsed<nat>>) {
    if s == [] then None
    else if s[0] == 0xff then Canonical(ParseInt(s[1..], 8), 0x1_0000_0000)
    else if s[0] == 0xfe then Canonical(ParseInt(s[1..], 4), 0x1_0000)
    else if s[0] == 0xfd then Canonical(ParseInt(s[1..], 2), 0xfd)
    else Some(Parsed(s[0], s[1..]))
  }

  lemma CompactRoundTrip(x: nat, t: seq<byte>)
    requires x <= UINT64_MAX
    ensures ParseCompact(Compact(x) + t) == Some(Parsed(x, t))
  {
    hide ParseInt, LittleEndian, Pow;
    PowersOf256();
    var s := Compact(x) + t;
    if x < 0xfd {
      assert s[1..] == t;
    } else {
      var n := if x <= 0xffff then 2 else if x <= 0xffff_ffff then 4 else 8;
      ParseIntUndoes(x, n, t);
      assert s[1..] == LittleEndian(x, n) + t;
    }
  }

  /** Only the canonical form is accepted. */
  lemma CompactUnique(s: seq<byte>)
    ensures var r := ParseCompact(s);
            r.Some? ==> r.value.value <= UINT64_MAX && s == Compact(r.value.value) + r.value.rest
  {
    hide ParseInt, LittleEndian, Pow;
    PowersOf256();
    if s != [] {
      assert s == [s[0]] + s[1..];
      var n := if s[0] == 0xff then 8 else if s[0] == 0xfe then 4 else 2;
      ParseIntOnly(s[1..], n);
      var r := ParseCompact(s);
      if r.Some? && s[0] >= 0xfd {
        assert [s[0]] + (LittleEndian(r.value.value, n) + r.value.rest) == Compact(r.value.value) + r.value.rest;
      }
    }
  }

  /** The bytes of a compact size: a single one, or a mark and the number, lowest byte first. */
  lemma CompactBytes(x: nat)
    requires x <= UINT64_MAX
    ensures x <= 252 ==> Compact(x) == [x]
    ensures 253 <= x <= 0xffff ==> Compact(x) == [253, x % 256, x / 256]
    ensures 0x1_0000 <= x <= 0xffff_ffff ==>
              Compact(x) == [254, x % 256, x / 0x100 % 256, x / 0x1_0000 % 256, x / 0x100_0000]
    ensures 0xffff_ffff < x ==>
              && |Compact(x)| == 9 && Compact(x)[0] == 255
              && forall i :: 0 <= i < 8 ==> Compact(x)[i + 1] == x / Pow(256, i) % 256
  {
    ShortBytes(x);
    hide LittleEndian, Pow;
    if 0xffff_ffff < x {
      forall i | 0 <= i < 8 ensures Compact(x)[i + 1] == x / Pow(256, i) % 256 {
        LittleEndianAt(x, 8, i);
      }
    }
  }

  const MAX_SIZE: nat := 0x0200_0000

  /** `btc_size_read`. */
  function ParseSize(s: seq<byte>): (r: Option<Parsed<nat>>) {
    var r := ParseCompact(s);
    if r.Some? && r.value.value > MAX_SIZE then None else r
  }

  // ----- varints

  /** All bytes of a varint but the last carry the continuation bit. */
  function VarintHead(x: nat): (s: seq<byte>) {
    if x <= 0x7f then [0x80 + x] else VarintHead(x / 0x80 - 1) + [0x80 + x % 0x80]
  }

  function Varint(x: nat): (s: seq<byte>)
    ensures |s| > 0
  {
    if x <= 0x7f then [x] else VarintHead(x / 0x80 - 1) + [x % 0x80]
  }

  /** The loop of `btc_varint_read`, from an accumulator. */
  function ParseVarintFrom(z: nat, s: seq<byte>): (r: Option<Parsed<nat>>)
    requires z <= UINT64_MAX
    ensures r.Some? ==> r.value.value <= UINT64_MAX && |r.value.rest| < |s|
    decreases |s|
  {
    if s == [] then None
    else if z > UINT64_MAX / 0x80 then None
    else
      var z' := z * 0x80 + s[0] % 0x80;
      if s[0] < 0x80 then Some(Parsed(z', s[1..]))
      else if z' == UINT64_MAX then None
      else ParseVarintFrom(z' + 1, s[1..])
  }

  function ParseVarint(s: seq<byte>): (r: Option<Parsed<nat>>) {
    ParseVarintFrom(0, s)
  }

  /** Reading the head of a varint leaves its value, plus one, in the accumulator. */
  lemma {:induction false} ParseHead(x: nat, t: seq<byte>)
    requires x < UINT64_MAX
    ensures ParseVarintFrom(0, VarintHead(x) + t) == ParseVarintFrom(x + 1, t)
  {
    hide ParseVarintFrom;
    if x <= 0x7f {
      VarintByte(0, VarintHead(x) + t);
      assert (VarintHead(x) + t)[1..] == t;
    } else {
      var x', last := x / 0x80 - 1, [0x80 + x % 0x80];
      assert VarintHead(x) + t == VarintHead(x') + (last + t);
      ParseHead(x', last + t);
      VarintByte(x' + 1, last + t);
      assert (last + t)[1..] == t;
    }
  }

  lemma VarintRoundTrip(x: nat, t: seq<byte>)
    requires x <= UINT64_MAX
    ensures ParseVarint(Varint(x) + t) == Some(Parsed(x, t))
  {
    hide ParseVarintFrom;
    if x <= 0x7f {
      VarintByte(0, Varint(x) + t);
      assert (Varint(x) + t)[1..] == t;
    } else {
      var x', last := x / 0x80 - 1, [x % 0x80];
      assert Varint(x) + t == VarintHead(x') + (last + t);
      ParseHead(x', last + t);
      VarintByte(x' + 1, last + t);
      assert (last + t)[1..] == t;
    }
  }

  /** What the bytes read so far must have been. */
  function ReadSoFar(z: nat): (s: seq<byte>) {
    if z == 0 then [] else VarintHead(z - 1)
  }

  lemma ReadMore(z: nat, d: nat)
    requires d < 0x80
    ensures ReadSoFar(z * 0x80 + d + 1) == ReadSoFar(z) + [0x80 + d] && Varint(z * 0x80 + d) == ReadSoFar(z) + [d]
  {
    var x := z * 0x80 + d;
    assert x % 0x80 == d && x / 0x80 == z;
  }

  lemma ParsedStep(z: nat, s: seq<byte>)
    requires z <= UINT64_MAX && s != []
    ensures var z' := z * 0x80 + s[0] % 0x80;
            ParseVarintFrom(z, s) ==
            if z > UINT64_MAX / 0x80 then None
            else if s[0] < 0x80 then Some(Parsed(z', s[1..]))
            else if z' >= UINT64_MAX then None
            else ParseVarintFrom(z' + 1, s[1..])
  {}

  lemma {:induction false} ParsedFrom(z: nat, s: seq<byte>)
    requires z <= UINT64_MAX
    ensures var r := ParseVarintFrom(z, s); r.Some? ==> ReadSoFar(z) + s == Varint(r.value.value) + r.value.rest
    decreases |s|
  {
    if s != [] {
      ParsedStep(z, s);
      hide ParseVarintFrom, ReadSoFar, Varint;
      ReadMore(z, s[0] % 0x80);
      assert ReadSoFar(z) + s == ReadSoFar(z) + [s[0]] + s[1..];
      var z' := z * 0x80 + s[0] % 0x80;
      if z <= UINT64_MAX / 0x80 && s[0] >= 0x80 && z' < UINT64_MAX {
        ParsedFrom(z' + 1, s[1..]);
      }
    }
  }

  /** Every accepted string is the varint of its value: the encoding is one to one. */
  lemma VarintUnique(s: seq<byte>)
    ensures var r := ParseVarint(s); r.Some? ==> s == Varint(r.value.value) + r.value.rest
  {
    ParsedFrom(0, s);
    assert [] + s == s;
  }

  /** The low seven bits of the bytes as a number, highest first. */
  function Sevens(s: seq<byte>): (n: nat) {
    if s == [] then 0 else Sevens(s[..|s| - 1]) * 0x80 + s[|s| - 1] % 0x80
  }

  /** How many numbers have a shorter varint. */
  function Shorter(length: nat): (n: nat) {
    if length <= 1 then 0 else 0x80 * (Shorter(length - 1) + 1)
  }

  /** The bytes carry on up to the last. */
  predicate Continued(s: seq<byte>) {
    forall i :: 0 <= i < |s| ==> s[i] >= 0x80
  }

  lemma SevensSnoc(s: seq<byte>, b: byte)
    ensures Sevens(s + [b]) == Sevens(s) * 0x80 + b % 0x80
  {
    assert (s + [b])[..|s|] == s;
  }

  lemma SevensOne(b: byte)
    ensures Sevens([b]) == b % 0x80 && Shorter(1) == 0
  {
    assert [b][..0] == [];
    assert Sevens([]) == 0;
  }

  lemma ShorterNext(n: nat)
    requires n >= 1
    ensures Shorter(n + 1) == 0x80 * (Shorter(n) + 1)
  {}

  lemma {:induction false} HeadNumber(x: nat)
    ensures Continued(VarintHead(x)) && VarintHead(x) != []
    ensures x == Shorter(|VarintHead(x)|) + Sevens(VarintHead(x))
  {
    hide Sevens, Shorter;
    if x > 0x7f {
      var h, last := VarintHead(x / 0x80 - 1), 0x80 + x % 0x80;
      HeadNumber(x / 0x80 - 1);
      SevensSnoc(h, last);
      ShorterNext(|h|);
    } else {
      SevensOne(0x80 + x);
    }
  }

  /** A varint is its number in base 128, highest digit first, counted from the first number that needs as
      many bytes; every byte but the last carries on. */
  lemma VarintNumber(x: nat)
    ensures var s := Varint(x); var n := |s| - 1;
            Continued(s[..n]) && s[n] < 0x80 && x == Shorter(n + 1) + Sevens(s)
  {
    hide Sevens, Shorter, VarintHead;
    if x > 0x7f {
      var h, last := VarintHead(x / 0x80 - 1), x % 0x80;
      HeadNumber(x / 0x80 - 1);
      SevensSnoc(h, last);
      ShorterNext(|h|);
      assert (h + [last])[..|h|] == h;
    } else {
      SevensOne(x);
    }
  }

  /** `btc_varint_size`. */
  method VarintSize(x: nat) returns (n: nat)
    requires x <= UINT64_MAX
    ensures n == |Varint(x)|
  {
    n := 0;
    var y := x;
    while true
      invariant n + |Varint(y)| == |Varint(x)|
      decreases y
    {
      n := n + 1;
      if y <= 0x7f {
        break;
      }
      y := y / 0x80 - 1;
    }
  }

  /** The bytes still to be produced for `y` when `i` bytes of the buffer are filled. */
  function Remaining(i: nat, y: nat): (s: seq<byte>) {
    if i == 0 then Varint(y) else VarintHead(y)
  }

  /** The byte written for `y`, and what is then left. */
  lemma RemainingStep(i: nat, y: nat)
    ensures Remaining(i, y) ==
            (if y <= 0x7f then [] else Remaining(i + 1, y / 0x80 - 1)) + [y % 0x80 + if i > 0 then 0x80 else 0]
  {}

  /** The first loop of `btc_varint_write`: the bytes go into a ten-byte buffer back to front. */
  method FillBuffer(tmp: array<byte>, x: nat) returns (i: nat)
    requires x <= UINT64_MAX && tmp.Length == 10
    modifies tmp
    ensures i < 10 && |Varint(x)| == i + 1
    ensures forall k :: 0 <= k <= i ==> tmp[k] == Varint(x)[i - k]
  {
    hide Pow, Varint, VarintHead, Remaining;
    i := 0;
    var y: nat := x;
    ghost var tail: seq<byte> := [];
    BufferBound();
    assert Remaining(0, x) == Varint(x) by { RemainingStart(x); }
    while true
      invariant 0 <= i < 10 && y < Pow(0x80, 10 - i) && |tail| == i
      invariant forall k :: 0 <= k < i ==> tmp[k] == tail[i - 1 - k]
      invariant Varint(x) == Remaining(i, y) + tail
      decreases y
    {
      var b: byte := y % 0x80 + if i > 0 then 0x80 else 0;
      tmp[i] := b;
      RemainingStep(i, y);
      tail := [b] + tail;
      if y <= 0x7f {
        assert Varint(x) == tail;
        break;
      }
      assert Varint(x) == Remaining(i + 1, y / 0x80 - 1) + tail;
      PowSucc(0x80, 9 - i);
      SmallRemainder(y, i);
      y := y / 0x80 - 1;
      i := i + 1;
    }
  }

  lemma RemainingStart(x: nat)
    ensures Remaining(0, x) == Varint(x)
  {}

  /** `btc_varint_write`. */
  method VarintWrite(out: seq<byte>, x: nat) returns (out': seq<byte>)
    requires x <= UINT64_MAX
    ensures out' == out + Varint(x)
  {
    hide Varint;
    var tmp := new byte[10];
    var i := FillBuffer(tmp, x);
    ghost var bytes := Varint(x);
    out' := out;
    var j := i;
    while true
      invariant 0 <= j <= i && out' == out + bytes[..i - j]
      decreases j
    {
      assert bytes[..i - j + 1] == bytes[..i - j] + [tmp[j]];
      out' := out' + [tmp[j]];
      if j == 0 {
        break;
      }
      j := j - 1;
    }
    assert bytes[..i + 1] == bytes;
  }

  lemma BufferBound()
    ensures UINT64_MAX < Pow(0x80, 10)
  {
    PowAdd(0x80, 5, 5);
    assert Pow(0x80, 5) == 0x8_0000_0000;
  }

  /** A value that does not fit its last byte cannot be at the last place of the buffer. */
  lemma SmallRemainder(y: nat, i: nat)
    requires i < 10 && 0x7f < y < 0x80 * Pow(0x80, 9 - i)
    ensures i < 9 && y / 0x80 - 1 < Pow(0x80, 9 - i)
  {}

  // ----- reading in place

  /** The reader of the C code: a position in a buffer, advanced by every read. */
  class Cursor {
    const data: seq<byte>
    var pos: nat

    ghost predicate Valid()
      reads this
    {
      pos <= |data|
    }

    /** The bytes still to be read. */
    function Rest(): (s: seq<byte>)
      reads this
      requires Valid()
    {
      data[pos..]
    }

    constructor (bytes: seq<byte>)
      ensures Valid() && pos == 0 && data == bytes && Rest() == bytes
    {
      data, pos := bytes, 0;
    }

    /** `btc_uint8_read`. */
    method ByteRead() returns (r: Option<byte>)
      requires Valid()
      modifies this
      ensures Valid()
      ensures if old(Rest()) == [] then r.None? else r == Some(old(Rest())[0]) && Rest() == old(Rest())[1..]
      ensures r.Some? ==> pos == old(pos) + 1
    {
      if pos == |data| {
        return None;
      }
      r := Some(data[pos]);
      pos := pos + 1;
    }

    /** `btc_zraw_read`. */
    method RawRead(n: nat) returns (r: Option<seq<byte>>)
      requires Valid()
      modifies this
      ensures Valid()
      ensures if |old(Rest())| < n then r.None? else r == Some(old(Rest())[..n]) && Rest() == old(Rest())[n..]
      ensures r.Some? ==> pos == old(pos) + n
    {
      if |data| - pos < n {
        return None;
      }
      assert data[pos..][..n] == data[pos..pos + n] && data[pos..][n..] == data[pos + n..];
      r := Some(data[pos..pos + n]);
      pos := pos + n;
    }

    /** `btc_varint_read`. */
    method VarintRead() returns (r: Option<nat>)
      requires Valid()
      modifies this
      ensures Valid()
      ensures var p := ParseVarint(old(Rest()));
              if p.None? then r.None? else r == Some(p.value.value) && Rest() == p.value.rest
    {
      hide ParseVarintFrom;
      var z: nat := 0;
      while true
        invariant Valid() && z <= UINT64_MAX && ParseVarintFrom(z, Rest()) == ParseVarintFrom(0, old(Rest()))
        decreases |data| - pos
      {
        VarintByte(z, Rest());
        var ch := ByteRead();
        if ch.None? || z > UINT64_MAX / 0x80 {
          return None;
        }
        z := z * 0x80 + ch.value % 0x80;
        if ch.value < 0x80 {
          break;
        }
        if z == UINT64_MAX {
          return None;
        }
        z := z + 1;
      }
      r := Some(z);
    }

    /** `btc_compact_read`. */
    method CompactRead() returns (r: Option<nat>)
      requires Valid()
      modifies this
      ensures Valid()
      ensures var p := ParseCompact(old(Rest()));
              if p.None? then r.None? else r == Some(p.value.value) && Rest() == p.value.rest
    {
      var kind := ByteRead();
      if kind.None? {
        return None;
      }
      if kind.value < 0xfd {
        return Some(kind.value);
      }
      var n := if kind.value == 0xff then 8 else if kind.value == 0xfe then 4 else 2;
      var raw := RawRead(n);
      if raw.None? {
        return None;
      }
      var z := FromLittleEndian(raw.value);
      if z < (if kind.value == 0xff then 0x1_0000_0000 else if kind.value == 0xfe then 0x1_0000 else 0xfd) {
        return None;
      }
      r := Some(z);
    }

    /** `btc_size_read`. */
    method SizeRead() returns (r: Option<nat>)
      requires Valid()
      modifies this
      ensures Valid()
      ensures var p := ParseSize(old(Rest()));
              if p.None? then r.None? else r == Some(p.value.value) && Rest() == p.value.rest
    {
      hide ParseCompact;
      r := CompactRead();
      if r.Some? && r.value > MAX_SIZE {
        r := None;
      }
    }
  }

  lemma VarintByte(z: nat, s: seq<byte>)
    requires z <= UINT64_MAX
    ensures ParseVarintFrom(z, s) ==
            if s == [] || z > UINT64_MAX / 0x80 then None
            else
              var z' := z * 0x80 + s[0] % 0x80;
              if s[0] < 0x80 then Some(Parsed(z', s[1..]))
              else if z' == UINT64_MAX then None
              else ParseVarintFrom(z' + 1, s[1..])
  {}
}
