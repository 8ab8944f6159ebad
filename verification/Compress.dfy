/** Coin compression: amounts, standard scripts and whole outputs. */
module Compress {
  import opened Arith
  import opened Wire
  import opened Consensus

  // ----- amounts

  /** Trailing decimal zeros moved into an exponent of at most nine. */
  datatype Scaled = Scaled(mantissa: nat, exponent: nat)

  function Strip(n: nat, e: nat): (s: Scaled)
    requires e <= 9
    decreases 9 - e
  {
    if n % 10 == 0 && e < 9 then Strip(n / 10, e + 1) else Scaled(n, e)
  }

  /** A mantissa ends in zero only when the exponent is at its cap. */
  predicate Normal(s: Scaled) {
    s.mantissa > 0 && s.exponent <= 9 && (s.exponent < 9 ==> s.mantissa % 10 != 0)
  }

  /** The part of a code above its exponent drops the impossible last digit zero. */
  function Packed(mantissa: nat): (q: nat)
    requires mantissa % 10 != 0
  {
    mantissa / 10 * 9 + (mantissa % 10 - 1)
  }

  function Unpacked(q: nat): (mantissa: nat)
    ensures mantissa % 10 != 0
  {
    q / 9 * 10 + q % 9 + 1
  }

  function Code(s: Scaled): (x: nat)
    requires Normal(s)
    ensures x > 0
  {
    1 + (if s.exponent < 9 then Packed(s.mantissa) else s.mantissa - 1) * 10 + s.exponent
  }

  function Decode(x: nat): (s: Scaled)
    requires x > 0
    ensures Normal(s)
  {
    var e, q := (x - 1) % 10, (x - 1) / 10;
    Scaled(if e < 9 then Unpacked(q) else q + 1, e)
  }

  function CompressedValue(n: nat): (x: nat) {
    if n == 0 then 0
    else
      StripValue(n, 0);
      Code(Strip(n, 0))
  }

  function DecompressedValue(x: nat): (n: nat) {
    if x == 0 then 0 else Decode(x).mantissa * Pow(10, Decode(x).exponent)
  }

  lemma TenTimes(n: nat, p: int)
    requires n % 10 == 0
    ensures n / 10 * (10 * p) == n * p
  {
    var m := n / 10;
    assert n == 10 * m;
    assert m * (10 * p) == 10 * m * p;
  }

  lemma {:induction false} StripValue(n: nat, e: nat)
    requires n > 0 && e <= 9
    ensures Normal(Strip(n, e)) && e <= Strip(n, e).exponent
    ensures n * Pow(10, e) == Strip(n, e).mantissa * Pow(10, Strip(n, e).exponent)
    decreases 9 - e
  {
    if n % 10 == 0 && e < 9 {
      hide Pow;
      StripValue(n / 10, e + 1);
      PowSucc(10, e);
      TenTimes(n, Pow(10, e));
    }
  }

  /** Stripping undoes scaling, for a mantissa that does not end in zero or an exponent at the cap. */
  lemma {:induction false} StripUndoes(m: nat, k: nat, e: nat)
    requires m > 0 && e + k <= 9 && (m % 10 != 0 || e + k == 9)
    ensures Strip(m * Pow(10, k), e) == Scaled(m, e + k)
    decreases k
  {
    hide Pow;
    if k == 0 {
      PowZero(10);
    } else {
      PowSucc(10, k - 1);
      var n := m * Pow(10, k - 1);
      Shifted(m, Pow(10, k - 1));
      StripUndoes(m, k - 1, e + 1);
    }
  }

  lemma Shifted(m: nat, p: nat)
    ensures (m * (10 * p)) % 10 == 0 && (m * (10 * p)) / 10 == m * p
  {
    assert m * (10 * p) == m * p * 10;
  }

  lemma PackedRoundTrip(m: nat)
    requires m % 10 != 0
    ensures Unpacked(Packed(m)) == m
  {
    var h, d := m / 10, m % 10 - 1;
    DivModUnique(Packed(m), 9, h, d);
  }

  lemma UnpackedRoundTrip(q: nat)
    ensures Packed(Unpacked(q)) == q
  {
    var h, d := q / 9, q % 9 + 1;
    DivModUnique(Unpacked(q), 10, h, d);
  }

  lemma Digits(x: nat, q: nat, e: nat)
    requires x == q * 10 + e && e < 10
    ensures x % 10 == e && x / 10 == q
  {}

  lemma DecodeCode(s: Scaled)
    requires Normal(s)
    ensures Decode(Code(s)) == s
  {
    hide Packed, Unpacked;
    var q: nat := if s.exponent < 9 then Packed(s.mantissa) else s.mantissa - 1;
    Digits(Code(s) - 1, q, s.exponent);
    if s.exponent < 9 { PackedRoundTrip(s.mantissa); }
  }

  lemma CodeDecode(x: nat)
    requires x > 0
    ensures Code(Decode(x)) == x
  {
    hide Packed, Unpacked;
    var e, q := (x - 1) % 10, (x - 1) / 10;
    if e < 9 { UnpackedRoundTrip(q); }
  }

  lemma ValueRoundTrip(n: nat)
    ensures DecompressedValue(CompressedValue(n)) == n
  {
    if n > 0 {
      hide Strip, Pow, Code, Decode;
      StripValue(n, 0);
      PowZero(10);
      DecodeCode(Strip(n, 0));
    }
  }

  lemma CodeRoundTrip(x: nat)
    ensures CompressedValue(DecompressedValue(x)) == x
  {
    if x > 0 {
      hide Strip, Pow, Code, Decode;
      var s := Decode(x);
      PowPositive(10, s.exponent);
      MulMono(1, Pow(10, s.exponent), s.mantissa);
      StripUndoes(s.mantissa, s.exponent, 0);
      CodeDecode(x);
    }
  }

  lemma PackedBound(m: nat, e: nat)
    requires m % 10 != 0 && e < 9
    ensures 1 + Packed(m) * 10 + e <= 9 * m + 8
  {}

  /** Every amount of money compresses into 64 bits with room to spare. */
  lemma CodeFits(n: nat)
    ensures CompressedValue(n) <= 9 * n + 10
    ensures n <= MAX_MONEY ==> CompressedValue(n) <= UINT64_MAX
  {
    if n > 0 {
      hide Strip, Pow, Packed;
      StripValue(n, 0);
      PowZero(10);
      var s := Strip(n, 0);
      PowPositive(10, s.exponent);
      MulMono(1, Pow(10, s.exponent), s.mantissa);
      if s.exponent < 9 {
        PackedBound(s.mantissa, s.exponent);
      } else {
        NineZeros();
        assert n == s.mantissa * 1000000000;
      }
    }
  }

  lemma NineZeros()
    ensures Pow(10, 9) == 1000000000
  {}

  /** The code of an amount `m 10^e`: for an exponent below nine, ten times what is left of the mantissa when
      its last digit counts from one, plus the exponent; at nine, ten times the mantissa. */
  lemma AmountCode(m: nat, e: nat)
    requires m > 0 && e <= 9 && (e < 9 ==> m % 10 != 0)
    ensures CompressedValue(m * Pow(10, e)) ==
            if e < 9 then 1 + 10 * (9 * (m / 10) + m % 10 - 1) + e else 10 * m
  {
    hide Pow, Strip;
    StripUndoes(m, e, 0);
    PowPositive(10, e);
    MulMono(1, Pow(10, e), m);
  }

  /** A satoshi, a coin, fifty coins, and all of them. */
  lemma AmountExamples()
    ensures CompressedValue(0) == 0 && CompressedValue(1) == 1 && CompressedValue(COIN) == 9
    ensures CompressedValue(50 * COIN) == 50 && CompressedValue(MAX_MONEY) == 0x140_6f40
  {
    hide Pow, CompressedValue, Strip;
    assert CompressedValue(0) == 0 by { NoAmount(); }
    PowZero(10);
    NineZeros();
    PowSucc(10, 8);
    AmountCode(1, 0);
    AmountCode(1, 8);
    AmountCode(5, 9);
    AmountCode(2100000, 9);
  }

  lemma NoAmount()
    ensures CompressedValue(0) == 0
  {}

  const UINT64: nat := UINT64_MAX + 1

  /** `btc_value_compress`, in 64-bit arithmetic. */
  method ValueCompress(amount: nat) returns (x: nat)
    requires amount <= UINT64_MAX
    ensures x == CompressedValue(amount) % UINT64
  {
    if amount == 0 {
      return 0;
    }
    var n: nat, e: nat := amount, 0;
    while n % 10 == 0 && e < 9
      invariant 0 <= e <= 9 && Strip(n, e) == Strip(amount, 0)
    {
      n := n / 10;
      e := e + 1;
    }
    StripValue(amount, 0);
    if e < 9 {
      var d := n % 10;
      n := n / 10;
      return (1 + (n * 9 + d - 1) * 10 + e) % UINT64;
    }
    return (1 + (n - 1) * 10 + 9) % UINT64;
  }

  /** `btc_value_decompress`, in 64-bit arithmetic. */
  method ValueDecompress(code: nat) returns (n: nat)
    requires code <= UINT64_MAX
    ensures n == DecompressedValue(code) % UINT64
  {
    if code == 0 {
      return 0;
    }
    var x := code - 1;
    var e := x % 10;
    x := x / 10;
    ghost var m := 0;
    if e < 9 {
      var d := x % 9 + 1;
      x := x / 9;
      m := x * 10 + d;
      n := (x * 10 + d) % UINT64;
      assert m == Unpacked((code - 1) / 10);
    } else {
      m := x + 1;
      n := x + 1;
    }
    n := TimesPowerOfTen(n, e, m);
  }

  /** The loop `while (e)`: multiply by ten, modulo 2^64. */
  method TimesPowerOfTen(n0: nat, e0: nat, ghost m: nat) returns (n: nat)
    requires n0 == m % UINT64
    ensures n == (m * Pow(10, e0)) % UINT64
  {
    hide Pow;
    n := n0;
    var e := e0;
    PowZero(10);
    while e > 0
      invariant 0 <= e <= e0 && n == (m * Pow(10, e0 - e)) % UINT64
    {
      ModTimesTen(m * Pow(10, e0 - e));
      PowSucc(10, e0 - e);
      MulAssoc(m, Pow(10, e0 - e), 10);
      n := (n * 10) % UINT64;
      e := e - 1;
    }
  }

  lemma ModTimesTen(a: nat)
    ensures ((a % UINT64) * 10) % UINT64 == (a * 10) % UINT64
  {
    var q, r := a / UINT64, a % UINT64;
    assert a * 10 == q * 10 * UINT64 + r * 10;
    var j, s := (r * 10) / UINT64, (r * 10) % UINT64;
    DivModUnique(a * 10, UINT64, q * 10 + j, s);
  }

  /** An amount survives storage: no step of the 64-bit arithmetic wraps for any amount of money. */
  method StoreAmount(amount: nat) returns (x: nat, n: nat)
    requires amount <= MAX_MONEY
    ensures n == amount && x == CompressedValue(amount)
  {
    hide CompressedValue, DecompressedValue;
    CodeFits(amount);
    ValueRoundTrip(amount);
    x := ValueCompress(amount);
    n := ValueDecompress(x);
  }

  // ----- scripts

  const OP_DUP: byte := 0x76
  const OP_EQUAL: byte := 0x87
  const OP_EQUALVERIFY: byte := 0x88
  const OP_HASH160: byte := 0xa9
  const OP_CHECKSIG: byte := 0xac
  const INT_MAX: nat := 0x7fff_ffff

  type Script = seq<byte>

  type FullKey = k: seq<byte> | |k| == 65 witness seq(65, _ => 0)

  /** The two elliptic-curve operations the code calls. */
  datatype Curve = Curve(verify: seq<byte> -> bool, convert: seq<byte> -> Option<FullKey>)

  /** Expanding the compressed form of a valid key gives the key back. */
  ghost predicate Expands(curve: Curve) {
    forall key: seq<byte> :: |key| == 65 && key[0] == 0x04 && curve.verify(key) ==>
      curve.convert([0x02 + key[64] % 2] + key[1..33]) == Some(key)
  }

  predicate IsP2PKH(x: Script) {
    && |x| == 25 && x[0] == OP_DUP && x[1] == OP_HASH160 && x[2] == 20
    && x[23] == OP_EQUALVERIFY && x[24] == OP_CHECKSIG
  }

  predicate IsP2SH(x: Script) {
    |x| == 23 && x[0] == OP_HASH160 && x[1] == 20 && x[22] == OP_EQUAL
  }

  predicate IsP2PK(x: Script) {
    if |x| == 35 then x[0] == 33 && (x[1] == 0x02 || x[1] == 0x03) && x[34] == OP_CHECKSIG
    else |x| == 67 && x[0] == 65 && x[1] == 0x04 && x[66] == OP_CHECKSIG
  }

  function P2PKH(hash: seq<byte>): (x: Script) {
    [OP_DUP, OP_HASH160, 20] + hash + [OP_EQUALVERIFY, OP_CHECKSIG]
  }

  function P2SH(hash: seq<byte>): (x: Script) {
    [OP_HASH160, 20] + hash + [OP_EQUAL]
  }

  function P2PK(key: seq<byte>): (x: Script)
    requires |key| < 256
  {
    [|key|] + key + [OP_CHECKSIG]
  }

  /** `btc_script_compress`. */
  function CompressedScript(curve: Curve, x: Script): (s: seq<byte>) {
    if IsP2PKH(x) then [0x00] + x[3..23]
    else if IsP2SH(x) then [0x01] + x[2..22]
    else if IsP2PK(x) && x[1] < 4 then x[1..34]
    else if IsP2PK(x) && curve.verify(x[1..66]) then [x[1] + x[65] % 2] + x[2..34]
    else Varint(|x| + 6) + x
  }

  /** The stored forms: key hashes and script hashes behind 0 and 1, keys as 33 bytes, the full ones behind
      4 or 5 by parity; any other script behind its length, counted from six. */
  lemma StoredForms(curve: Curve, hash: seq<byte>, key: seq<byte>, x: Script)
    ensures |hash| == 20 ==> CompressedScript(curve, P2PKH(hash)) == [0] + hash
    ensures |hash| == 20 ==> CompressedScript(curve, P2SH(hash)) == [1] + hash
    ensures |key| == 33 && key[0] in {2, 3} ==> CompressedScript(curve, P2PK(key)) == key
    ensures |key| == 65 && key[0] == 4 && curve.verify(key) ==>
              CompressedScript(curve, P2PK(key)) == [4 + key[64] % 2] + key[1..33]
    ensures !IsP2PKH(x) && !IsP2SH(x) && !IsP2PK(x) ==> CompressedScript(curve, x) == Varint(|x| + 6) + x
  {
    hide Varint;
    if |key| == 65 {
      assert P2PK(key)[1..66] == key;
      assert P2PK(key)[2..34] == key[1..33];
    }
    if |key| == 33 { assert P2PK(key)[1..34] == key; }
    if |hash| == 20 { assert P2PKH(hash)[3..23] == hash && P2SH(hash)[2..22] == hash; }
  }

  /** `btc_script_deflate`. */
  method ScriptDeflate(curve: Curve, x: Script) returns (n: nat)
    requires |x| + 6 <= UINT64_MAX
    ensures n == |CompressedScript(curve, x)|
  {
    if IsP2PKH(x) || IsP2SH(x) {
      return 21;
    }
    if IsP2PK(x) && (x[1] < 4 || curve.verify(x[1..66])) {
      return 33;
    }
    n := VarintSize(|x| + 6);
    n := n + |x|;
  }

  /** `btc_script_compress`, appending to what was written before. */
  method ScriptCompress(curve: Curve, out: seq<byte>, x: Script) returns (out': seq<byte>)
    requires |x| + 6 <= UINT64_MAX
    ensures out' == out + CompressedScript(curve, x)
  {
    hide Varint;
    if IsP2PKH(x) {
      return out + [0x00] + x[3..23];
    }
    if IsP2SH(x) {
      return out + [0x01] + x[2..22];
    }
    if IsP2PK(x) {
      if x[1] < 4 {
        return out + x[1..34];
      }
      if curve.verify(x[1..66]) {
        return out + [x[1] + x[65] % 2] + x[2..34];
      }
    }
    out' := VarintWrite(out, |x| + 6);
    out' := out' + x;
  }

  /** What a compressed script decodes to. The 33-byte key of cases 2 and 3 starts at the last byte of
      the varint itself, which is why the buffer and not just its remainder is needed. */
  function ParseScript(curve: Curve, data: seq<byte>, pos: nat): (r: Option<Parsed<Script>>)
    requires pos <= |data|
  {
    var v := ParseVarint(data[pos..]);
    if v.None? || v.value.value > INT_MAX then None
    else
      var zn, rest := v.value.value, v.value.rest;
      var start := |data| - |rest|;
      var need := if zn <= 1 then 20 else if zn <= 5 then 32 else zn - 6;
      if |rest| < need then None
      else
        var body, rest' := rest[..need], rest[need..];
        if zn == 0 then Some(Parsed(P2PKH(body), rest'))
        else if zn == 1 then Some(Parsed(P2SH(body), rest'))
        else if zn <= 3 then Some(Parsed(P2PK(data[start - 1..start + 32]), rest'))
        else if zn <= 5 then
          var key := curve.convert([zn - 2] + body);
          if key.None? then None else Some(Parsed(P2PK(key.value), rest'))
        else Some(Parsed(body, rest'))
  }

  /** `btc_script_decompress`. */
  method ScriptDecompress(curve: Curve, cur: Cursor) returns (r: Option<Script>)
    requires cur.Valid()
    modifies cur
    ensures cur.Valid()
    ensures var p := ParseScript(curve, cur.data, old(cur.pos));
            if p.None? then r.None? else r == Some(p.value.value) && cur.Rest() == p.value.rest
  {
    hide ParseVarintFrom;
    var v := cur.VarintRead();
    if v.None? || v.value > INT_MAX {
      return None;
    }
    var zn := v.value;
    assert |cur.data| - |cur.Rest()| == cur.pos;
    if zn <= 1 {
      var hash := cur.RawRead(20);
      if hash.None? {
        return None;
      }
      return Some(if zn == 0 then P2PKH(hash.value) else P2SH(hash.value));
    }
    if zn <= 3 {
      var tail := cur.RawRead(32);
      if tail.None? {
        return None;
      }
      var zp := cur.pos - 32;
      return Some(P2PK(cur.data[zp - 1..zp + 32]));
    }
    if zn <= 5 {
      var tail := cur.RawRead(32);
      if tail.None? {
        return None;
      }
      var key := curve.convert([zn - 2] + tail.value);
      if key.None? {
        return None;
      }
      return Some(P2PK(key.value));
    }
    r := cur.RawRead(zn - 6);
  }

  lemma SmallVarint(b: byte, t: seq<byte>)
    requires b < 0x80
    ensures ParseVarint([b] + t) == Some(Parsed(b, t))
  {
    assert ([b] + t)[1..] == t;
  }

  lemma Tail<T>(a: seq<T>, b: seq<T>)
    ensures (a + b)[..|a|] == a && (a + b)[|a|..] == b
  {}

  lemma HashRoundTrip(curve: Curve, pre: seq<byte>, x: Script, t: seq<byte>)
    requires IsP2PKH(x) || IsP2SH(x)
    ensures ParseScript(curve, pre + CompressedScript(curve, x) + t, |pre|) == Some(Parsed(x, t))
  {
    hide ParseVarintFrom, ParseVarint;
    var tag, hash := if IsP2PKH(x) then 0x00 else 0x01, if IsP2PKH(x) then x[3..23] else x[2..22];
    var data := pre + CompressedScript(curve, x) + t;
    assert data[|pre|..] == [tag] + (hash + t);
    SmallVarint(tag, hash + t);
    Tail(hash, t);
    assert x == if tag == 0 then P2PKH(hash) else P2SH(hash);
  }

  lemma RawRoundTrip(curve: Curve, pre: seq<byte>, x: Script, t: seq<byte>)
    requires |x| + 6 <= INT_MAX
    ensures ParseScript(curve, pre + (Varint(|x| + 6) + x) + t, |pre|) == Some(Parsed(x, t))
  {
    hide Varint, ParseVarintFrom, ParseVarint;
    var data := pre + (Varint(|x| + 6) + x) + t;
    assert data[|pre|..] == Varint(|x| + 6) + (x + t);
    VarintRoundTrip(|x| + 6, x + t);
    Tail(x, t);
  }

  /** In any accepted buffer the byte before the key is its code, because no other varint stands for 2 or
      3: the step back by one byte reads the key's own tag. */
  lemma KeyStartsAtCode(curve: Curve, data: seq<byte>, pos: nat)
    requires pos <= |data| && ParseScript(curve, data, pos).Some?
    requires 2 <= ParseVarint(data[pos..]).value.value <= 3
    ensures var v := ParseVarint(data[pos..]).value; var start := |data| - |v.rest|;
            && start == pos + 1 && data[start - 1] == v.value && |v.rest| >= 32
            && ParseScript(curve, data, pos) == Some(Parsed(P2PK([v.value] + v.rest[..32]), v.rest[32..]))
  {
    hide ParseVarint, ParseVarintFrom;
    var v := ParseVarint(data[pos..]).value;
    VarintUnique(data[pos..]);
    assert Varint(v.value) == [v.value];
    assert data[pos..] == [v.value] + v.rest;
    assert data[pos] == data[pos..][0];
    var start := |data| - |v.rest|;
    assert data[start..] == data[pos..][1..] == v.rest;
    assert data[start - 1..start + 32] == [v.value] + v.rest[..32];
  }

  /** Decompression undoes compression, wherever in a buffer the script sits. */
  lemma ScriptRoundTrip(curve: Curve, pre: seq<byte>, x: Script, t: seq<byte>)
    requires Expands(curve) && |x| + 6 <= INT_MAX
    ensures ParseScript(curve, pre + CompressedScript(curve, x) + t, |pre|) == Some(Parsed(x, t))
  {
    hide Varint, ParseScript, Expands;
    if IsP2PKH(x) || IsP2SH(x) {
      HashRoundTrip(curve, pre, x, t);
    } else if IsP2PK(x) && x[1] < 4 {
      KeyRoundTrip(curve, pre, x, t);
    } else if IsP2PK(x) && curve.verify(x[1..66]) {
      FullKeyRoundTrip(curve, pre, x, t);
    } else {
      RawRoundTrip(curve, pre, x, t);
    }
  }

  /** A compressed key is its own code: its tag byte doubles as the varint that announces it. */
  lemma KeyRoundTrip(curve: Curve, pre: seq<byte>, x: Script, t: seq<byte>)
    requires IsP2PK(x) && x[1] < 4
    ensures ParseScript(curve, pre + x[1..34] + t, |pre|) == Some(Parsed(x, t))
  {
    hide ParseVarintFrom, ParseVarint;
    var data, body := pre + x[1..34] + t, x[2..34];
    assert data[|pre|..] == [x[1]] + (body + t);
    SmallVarint(x[1], body + t);
    Tail(body, t);
    var start := |data| - |body + t|;
    assert start == |pre| + 1;
    assert data[start - 1..start + 32] == x[1..34];
    assert P2PK(x[1..34]) == x;
  }

  lemma FullKeyRoundTrip(curve: Curve, pre: seq<byte>, x: Script, t: seq<byte>)
    requires Expands(curve) && IsP2PK(x) && x[1] == 4 && curve.verify(x[1..66])
    ensures ParseScript(curve, pre + ([x[1] + x[65] % 2] + x[2..34]) + t, |pre|) == Some(Parsed(x, t))
  {
    hide ParseVarintFrom, ParseVarint;
    var key, tag, body := x[1..66], x[1] + x[65] % 2, x[2..34];
    var data := pre + ([tag] + body) + t;
    assert data[|pre|..] == [tag] + (body + t);
    SmallVarint(tag, body + t);
    Tail(body, t);
    assert key[1..33] == body && key[64] == x[65];
    assert P2PK(key) == x;
  }

  // ----- outputs

  datatype Output = Output(value: nat, script: Script)

  function CompressedOutput(curve: Curve, o: Output): (s: seq<byte>) {
    Varint(CompressedValue(o.value) % UINT64) + CompressedScript(curve, o.script)
  }

  /** `btc_output_compress`. */
  method OutputCompress(curve: Curve, out: seq<byte>, o: Output) returns (out': seq<byte>)
    requires o.value <= UINT64_MAX && |o.script| + 6 <= UINT64_MAX
    ensures out' == out + CompressedOutput(curve, o)
  {
    hide Varint, CompressedScript, CompressedValue;
    var x := ValueCompress(o.value);
    out' := VarintWrite(out, x);
    out' := ScriptCompress(curve, out', o.script);
  }

  function ParseOutput(curve: Curve, data: seq<byte>, pos: nat): (r: Option<Parsed<Output>>)
    requires pos <= |data|
  {
    var v := ParseVarint(data[pos..]);
    if v.None? then None
    else
      var script := ParseScript(curve, data, |data| - |v.value.rest|);
      if script.None? then None
      else Some(Parsed(Output(DecompressedValue(v.value.value) % UINT64, script.value.value), script.value.rest))
  }

  /** `btc_output_decompress`. */
  method OutputDecompress(curve: Curve, cur: Cursor) returns (r: Option<Output>)
    requires cur.Valid()
    modifies cur
    ensures cur.Valid()
    ensures var p := ParseOutput(curve, cur.data, old(cur.pos));
            if p.None? then r.None? else r == Some(p.value.value) && cur.Rest() == p.value.rest
  {
    hide ParseVarint, ParseVarintFrom, ParseScript, DecompressedValue;
    VarintRange(cur.Rest());
    var code := cur.VarintRead();
    if code.None? {
      return None;
    }
    assert cur.pos == |cur.data| - |cur.Rest()|;
    var value := ValueDecompress(code.value);
    var script := ScriptDecompress(curve, cur);
    if script.None? {
      return None;
    }
    r := Some(Output(value, script.value));
  }

  lemma VarintRange(s: seq<byte>)
    ensures var r := ParseVarint(s); r.Some? ==> r.value.value <= UINT64_MAX && |r.value.rest| <= |s|
  {}

  /** A stored output is read back unchanged. */
  lemma OutputRoundTrip(curve: Curve, pre: seq<byte>, o: Output, t: seq<byte>)
    requires Expands(curve) && o.value <= MAX_MONEY && |o.script| + 6 <= INT_MAX
    ensures ParseOutput(curve, pre + CompressedOutput(curve, o) + t, |pre|) == Some(Parsed(o, t))
  {
    hide Varint, ParseVarintFrom, ParseVarint, ParseScript, CompressedScript, CompressedValue, DecompressedValue, Expands;
    var x, c := CompressedValue(o.value), CompressedScript(curve, o.script);
    var head, data := Varint(x), pre + CompressedOutput(curve, o) + t;
    CodeFits(o.value);
    ValueRoundTrip(o.value);
    VarintRoundTrip(x, c + t);
    assert data[|pre|..] == head + (c + t);
    assert data == pre + head + c + t;
    assert |data| - |c + t| == |pre + head|;
    ScriptRoundTrip(curve, pre + head, o.script, t);
  }
}
