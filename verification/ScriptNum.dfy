/** Script numbers: little-endian magnitude, sign in the top bit of the last byte. */
module ScriptNum {
  import opened Arith
  import opened Wire

  /** `btc_scriptnum_is_minimal`. */
  predicate IsMinimal(s: seq<byte>) {
    s == [] || s[|s| - 1] % 0x80 != 0 || (|s| > 1 && s[|s| - 2] >= 0x80)
  }

  /** The half range of `k` bytes: `2^(8k - 1)`. */
  function Half(k: nat): (r: nat)
    requires k >= 1
    ensures r >= 0x80
  {
    PowPositive(256, k - 1);
    0x80 * Pow(256, k - 1)
  }

  /** The number a string of bytes stands for. */
  function Import(s: seq<byte>): (x: int) {
    if s == [] then 0
    else if s[|s| - 1] >= 0x80 then Half(|s|) - FromLittleEndian(s)
    else FromLittleEndian(s)
  }

  /** The bytes of a magnitude, as few as possible. */
  function Bytes(n: nat): (s: seq<byte>)
    ensures n > 0 ==> |s| > 0 && s[|s| - 1] != 0
    ensures n == 0 ==> s == []
  {
    if n == 0 then [] else [n % 256] + Bytes(n / 256)
  }

  function Abs(x: int): (n: nat) {
    if x < 0 then -x else x
  }

  function Signed(b: seq<byte>, neg: bool): (s: seq<byte>)
    requires b != []
  {
    var last := b[|b| - 1];
    if last >= 0x80 then b + [if neg then 0x80 else 0]
    else if neg then b[|b| - 1 := last + 0x80]
    else b
  }

  function Export(x: int): (s: seq<byte>) {
    if x == 0 then [] else Signed(Bytes(Abs(x)), x < 0)
  }

  // ----- magnitudes

  lemma {:induction false} FromSnoc(s: seq<byte>, d: byte)
    ensures FromLittleEndian(s + [d]) == FromLittleEndian(s) + d * Pow(256, |s|)
  {
    hide Pow;
    if s == [] {
      assert s + [d] == [d] && [d][1..] == [];
      PowZero(256);
    } else {
      FromSnoc(s[1..], d);
      assert (s + [d])[1..] == s[1..] + [d];
      PowSucc(256, |s| - 1);
      SnocStep(d, Pow(256, |s| - 1));
    }
  }

  lemma SnocStep(d: int, p: int)
    ensures 256 * (d * p) == d * (256 * p)
  {}

  lemma {:induction false} BytesValue(n: nat)
    ensures FromLittleEndian(Bytes(n)) == n
  {
    if n > 0 {
      BytesValue(n / 256);
      assert Bytes(n)[1..] == Bytes(n / 256);
    }
  }

  lemma {:induction false} BytesUnique(s: seq<byte>)
    requires s == [] || s[|s| - 1] != 0
    ensures Bytes(FromLittleEndian(s)) == s && (s != [] ==> FromLittleEndian(s) > 0)
  {
    if s != [] {
      if |s| > 1 { assert s[1..][|s| - 2] == s[|s| - 1]; }
      BytesUnique(s[1..]);
      ByteSplit(s[0], FromLittleEndian(s[1..]));
      assert s == [s[0]] + s[1..];
    }
  }

  /** The magnitude below the top byte. */
  lemma TopByte(s: seq<byte>)
    requires s != []
    ensures var last := s[|s| - 1]; var low := FromLittleEndian(s[..|s| - 1]);
            && FromLittleEndian(s) == low + last * Pow(256, |s| - 1) && 0 <= low < Pow(256, |s| - 1)
  {
    hide Pow, FromLittleEndian;
    var t := s[..|s| - 1];
    assert s == t + [s[|s| - 1]];
    FromSnoc(t, s[|s| - 1]);
    FromLittleEndianRoundTrip(t);
  }

  // ----- the number and its bytes

  lemma SignBit(low: int, last: int, p: int)
    requires 0 <= low < p
    ensures 0x80 * p - (low + (last + 0x80) * p) == -(low + last * p)
    ensures last < 0 ==> low + last * p < 0
    ensures last >= 0 ==> low + last * p >= 0
  {
    assert (last + 0x80) * p == last * p + 0x80 * p;
    if last < 0 { MulMono(last, -1, p); } else { MulMono(0, last, p); }
  }

  /** Importing what was exported gives the number back. */
  lemma ImportUndoesExport(x: int)
    ensures Import(Export(x)) == x
  {
    hide FromLittleEndian, Bytes, Pow;
    if x != 0 {
      var b, neg := Bytes(Abs(x)), x < 0;
      BytesValue(Abs(x));
      TopByte(b);
      var n, last := |b|, b[|b| - 1];
      var low, p := FromLittleEndian(b[..n - 1]), Pow(256, n - 1);
      if last >= 0x80 {
        var e := if neg then 0x80 else 0;
        FromSnoc(b, e);
        assert 0 * Pow(256, n) == 0;
      } else if neg {
        var s := b[n - 1 := last + 0x80];
        TopByte(s);
        assert s[..n - 1] == b[..n - 1];
        SignBit(low, last, p);
      }
    }
  }

  /** Exporting always gives the minimal form. */
  lemma ExportMinimal(x: int)
    ensures IsMinimal(Export(x))
  {
    hide Bytes;
    if x != 0 { assert Bytes(Abs(x)) != []; }
  }

  /** A minimal string is the export of its number: numbers and minimal strings correspond. */
  lemma ExportUndoesImport(s: seq<byte>)
    requires IsMinimal(s)
    ensures Export(Import(s)) == s
  {
    hide FromLittleEndian, Bytes, Pow;
    if s != [] {
      TopByte(s);
      var n, last := |s|, s[|s| - 1];
      var low, p := FromLittleEndian(s[..n - 1]), Pow(256, n - 1);
      if last == 0 || last == 0x80 {
        var b := s[..n - 1];
        assert b[n - 2] == s[n - 2];
        BytesUnique(b);
        assert s == b + [last];
        assert 0 * p == 0;
      } else if last > 0x80 {
        var b := s[n - 1 := last - 0x80];
        BytesUnique(b);
        TopByte(b);
        assert b[..n - 1] == s[..n - 1];
        SignBit(low, last - 0x80, p);
        assert s == b[n - 1 := last];
      } else {
        BytesUnique(s);
      }
    }
  }

  // ----- sizes

  lemma {:induction false} BytesFit(n: nat, k: nat)
    requires n < Pow(256, k)
    ensures |Bytes(n)| <= k
    decreases k
  {
    if n > 0 {
      hide Pow;
      PowZero(256);
      PowSucc(256, k - 1);
      BytesFit(n / 256, k - 1);
    }
  }

  /** `k` bytes hold the numbers below `2^(8k - 1)` in absolute value. */
  lemma ExportFits(x: int, k: nat)
    requires k >= 1 && Abs(x) < Half(k)
    ensures |Export(x)| <= k
  {
    hide Pow, Bytes, FromLittleEndian;
    if x != 0 {
      var b := Bytes(Abs(x));
      PowSucc(256, k - 1);
      BytesFit(Abs(x), k);
      if |b| == k && b[k - 1] >= 0x80 {
        BytesValue(Abs(x));
        TopByte(b);
        MulMono(0x80, b[k - 1], Pow(256, k - 1));
        assert false;
      }
    }
  }

  lemma ImportBound(s: seq<byte>, k: nat)
    requires |s| <= k && k >= 1
    ensures Abs(Import(s)) < Half(k)
  {
    hide Pow, FromLittleEndian;
    if s != [] {
      TopByte(s);
      var p, last := Pow(256, |s| - 1), s[|s| - 1];
      var low := FromLittleEndian(s[..|s| - 1]);
      PowMono(256, |s| - 1, k - 1);
      var d := if last >= 0x80 then last - 0x80 else last;
      SignBit(low, d, p);
      MulMono(d + 1, 0x80, p);
      assert (d + 1) * p == d * p + p;
    }
  }

  lemma Halves()
    ensures Half(1) == 0x80 && Half(2) == 0x8000 && Half(4) == 0x8000_0000 && Half(5) == 0x80_0000_0000
  {
    PowersOf256();
    PowAdd(256, 2, 1);
  }

  lemma SmallBytes()
    ensures Bytes(127) == [127] && Bytes(128) == [128] && Bytes(256) == [0, 1]
  {
    assert Bytes(1) == [1];
  }

  lemma TwoBytes()
    ensures Bytes(32767) == [0xff, 0x7f] && Bytes(32768) == [0, 0x80]
  {
    SmallBytes();
  }

  /** Where the sign goes: into the top bit of the last byte, or into a byte of its own. */
  lemma SignedExamples()
    ensures Export(127) == [0x7f] && Export(-127) == [0xff] && Export(128) == [0x80, 0] && Export(-128) == [0x80, 0x80]
    ensures Export(256) == [0, 1] && Export(-32767) == [0xff, 0xff] && Export(32768) == [0, 0x80, 0]
  {
    SmallBytes();
    TwoBytes();
    hide Bytes;
  }

  // ----- the loops

  /** `btc_scriptnum_export`. */
  method ExportLoop(x: int) returns (z: seq<byte>)
    ensures z == Export(x)
  {
    hide Bytes;
    if x == 0 {
      return [];
    }
    var neg := x < 0;
    var abs: nat := if neg then -x else x;
    z := [];
    assert [] + Bytes(abs) == Bytes(abs);
    while abs != 0
      invariant abs >= 0 && z + Bytes(abs) == Bytes(Abs(x))
      decreases abs
    {
      BytesStep(abs);
      Regrouped(z, abs % 256, Bytes(abs / 256));
      z := z + [abs % 256];
      abs := abs / 256;
    }
    assert z + [] == z;
    var last := z[|z| - 1];
    if last >= 0x80 {
      z := z + [if neg then 0x80 else 0];
    } else if neg {
      z := z[|z| - 1 := last + 0x80];
    }
  }

  /** `btc_scriptnum_import`; on up to seven bytes the source's 64-bit integers hold every value. */
  method ImportLoop(s: seq<byte>) returns (x: int)
    ensures x == Import(s)
  {
    hide FromLittleEndian, Pow;
    if s == [] {
      return 0;
    }
    var z: int, i, weight: int := 0, 0, 1;
    FromNothing();
    PowZero(256);
    while i < |s|
      invariant 0 <= i <= |s| && z == FromLittleEndian(s[..i]) && weight == Pow(256, i)
    {
      assert s[..i + 1] == s[..i] + [s[i]];
      FromSnoc(s[..i], s[i]);
      PowSucc(256, i);
      var d: int := s[i];
      z := z + d * weight;
      weight := 256 * weight;
      i := i + 1;
    }
    assert s[..i] == s;
    PowSucc(256, |s| - 1);
    x := if s[|s| - 1] >= 0x80 then -(z - weight / 2) else z;
  }

  lemma BytesStep(n: nat)
    requires n > 0
    ensures Bytes(n) == [n % 256] + Bytes(n / 256)
  {}

  lemma Regrouped(a: seq<byte>, d: byte, b: seq<byte>)
    ensures a + ([d] + b) == (a + [d]) + b
  {}

  lemma FromNothing()
    ensures FromLittleEndian([]) == 0
  {}

  /** `btc_stack_get_bool`'s reading of an item: any bit set, but not only the sign. */
  predicate Truth(s: seq<byte>) {
    exists i :: 0 <= i < |s| && s[i] != 0 && !(i == |s| - 1 && s[i] == 0x80)
  }

  lemma {:induction false} ZeroMagnitude(s: seq<byte>)
    ensures FromLittleEndian(s) == 0 <==> forall i :: 0 <= i < |s| ==> s[i] == 0
  {
    if s != [] {
      ZeroMagnitude(s[1..]);
      assert forall i :: 0 < i < |s| ==> s[i] == s[1..][i - 1];
    }
  }

  /** An item is true exactly when it is not a zero of either sign. */
  lemma TruthIsNonzero(s: seq<byte>)
    ensures Truth(s) <==> Import(s) != 0
  {
    hide FromLittleEndian, Pow;
    if s != [] {
      TopByte(s);
      var n, last := |s|, s[|s| - 1];
      var t := s[..n - 1];
      ZeroMagnitude(t);
      assert forall i :: 0 <= i < n - 1 ==> t[i] == s[i];
      var low, p := FromLittleEndian(t), Pow(256, n - 1);
      var d := if last >= 0x80 then last - 0x80 else last;
      SignBit(low, d, p);
      if d > 0 { MulMono(1, d, p); assert s[n - 1] != 0 && s[n - 1] != 0x80; }
      if low > 0 {
        var i :| 0 <= i < n - 1 && t[i] != 0;
        assert s[i] != 0;
      }
      if d == 0 { assert d * p == 0; }
    }
  }

  method GetBool(s: seq<byte>) returns (b: bool)
    ensures b == Truth(s)
  {
    var i := 0;
    while i < |s|
      invariant 0 <= i <= |s| && forall j :: 0 <= j < i ==> s[j] == 0
    {
      if s[i] != 0 {
        if i == |s| - 1 && s[i] == 0x80 {
          return false;
        }
        return true;
      }
      i := i + 1;
    }
    b := false;
  }
}
