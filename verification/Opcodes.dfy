/** Opcodes on the wire, and the two rewritings of a script: deleting a push, and skipping the code
    separators when a script is hashed. */
module Opcodes {
  import opened Arith
  import opened Wire

  const PUSHDATA1: byte := 0x4c
  const PUSHDATA2: byte := 0x4d
  const PUSHDATA4: byte := 0x4e
  const CODESEPARATOR: byte := 0xab

  datatype Opcode = Opcode(value: byte, data: seq<byte>)

  /** Opcodes that reading can produce. */
  predicate WellFormed(op: Opcode) {
    if op.value > PUSHDATA4 then op.data == []
    else if op.value == PUSHDATA1 then |op.data| <= 0xff
    else if op.value == PUSHDATA2 then |op.data| <= 0xffff
    else if op.value == PUSHDATA4 then |op.data| <= 0xffff_ffff
    else |op.data| == op.value
  }

  /** How many bytes the length of a push takes. */
  function Width(value: byte): (n: nat) {
    if value == PUSHDATA1 then 1 else if value == PUSHDATA2 then 2 else if value == PUSHDATA4 then 4 else 0
  }

  function Written(op: Opcode): (s: seq<byte>)
    ensures |s| >= 1
  {
    if op.value > PUSHDATA4 then [op.value]
    else [op.value] + LittleEndian(|op.data|, Width(op.value)) + op.data
  }

  function OpcodeSize(op: Opcode): (n: nat) {
    if op.value > PUSHDATA4 then 1 else 1 + Width(op.value) + |op.data|
  }

  function ParseOpcode(s: seq<byte>): (r: Option<Parsed<Opcode>>)
    ensures r.Some? ==> |r.value.rest| < |s|
  {
    if s == [] then None
    else if s[0] > PUSHDATA4 then Some(Parsed(Opcode(s[0], []), s[1..]))
    else if Width(s[0]) == 0 then ParseData(s[0], s[0], s[1..])
    else
      var n := ParseInt(s[1..], Width(s[0]));
      if n.None? then None else ParseData(s[0], n.value.value, n.value.rest)
  }

  function ParseData(value: byte, length: nat, s: seq<byte>): (r: Option<Parsed<Opcode>>)
    ensures r.Some? ==> |r.value.rest| <= |s|
  {
    if |s| < length then None else Some(Parsed(Opcode(value, s[..length]), s[length..]))
  }

  lemma WidthPowers(value: byte)
    ensures Pow(256, 1) == 0x100 && Pow(256, 2) == 0x1_0000 && Pow(256, 4) == 0x1_0000_0000
  {
    PowersOf256();
  }

  lemma ParseUndoesWrite(op: Opcode, t: seq<byte>)
    requires WellFormed(op)
    ensures ParseOpcode(Written(op) + t) == Some(Parsed(op, t))
  {
    hide LittleEndian, ParseInt, Pow;
    var s := Written(op) + t;
    if op.value > PUSHDATA4 {
      assert s[1..] == t;
    } else {
      var n := Width(op.value);
      WidthPowers(op.value);
      var d := op.data + t;
      if n == 0 {
        assert LittleEndian(|op.data|, 0) == [] by { NoBytes(|op.data|); }
        assert s[1..] == d;
      } else {
        ParseIntUndoes(|op.data|, n, d);
        assert s[1..] == LittleEndian(|op.data|, n) + d;
      }
      assert d[..|op.data|] == op.data && d[|op.data|..] == t;
    }
  }

  lemma NoBytes(x: nat)
    ensures LittleEndian(x, 0) == []
  {}

  lemma ParseDataUndone(value: byte, length: nat, s: seq<byte>)
    requires ParseData(value, length, s).Some?
    ensures var r := ParseData(value, length, s).value;
            r.value.value == value && |r.value.data| == length && s == r.value.data + r.rest
  {
    assert s == s[..length] + s[length..];
  }

  /** What was read is the bytes it was read from: rewriting an opcode reproduces them. */
  lemma WriteUndoesParse(s: seq<byte>)
    requires ParseOpcode(s).Some?
    ensures var r := ParseOpcode(s).value; WellFormed(r.value) && s == Written(r.value) + r.rest
  {
    hide LittleEndian, ParseInt, Pow, ParseData;
    assert s == [s[0]] + s[1..];
    if s[0] <= PUSHDATA4 {
      var n := Width(s[0]);
      WidthPowers(s[0]);
      var r := ParseOpcode(s).value;
      if n == 0 {
        NoBytes(s[0]);
        ParseDataUndone(s[0], s[0], s[1..]);
        assert s == [s[0]] + [] + r.value.data + r.rest;
      } else {
        ParseIntOnly(s[1..], n);
        var l := ParseInt(s[1..], n).value;
        ParseDataUndone(s[0], l.value, l.rest);
        assert s == [s[0]] + LittleEndian(l.value, n) + r.value.data + r.rest;
      }
    }
  }

  lemma WrittenSize(op: Opcode)
    ensures |Written(op)| == OpcodeSize(op)
  {}

  /** The push of an item, in its shortest form. */
  function PushOf(item: seq<byte>): (op: Opcode)
    ensures op.data == item && (|item| <= 0xffff_ffff ==> WellFormed(op))
  {
    Opcode(if |item| <= 0x4b then |item| else if |item| <= 0xff then PUSHDATA1
           else if |item| <= 0xffff then PUSHDATA2 else PUSHDATA4, item)
  }

  /** The bytes of a push: the length itself, or a mark and the length, lowest byte first. */
  lemma PushBytes(item: seq<byte>)
    ensures var n := |item|; var s := Written(PushOf(item));
            && (n <= 75 ==> s == [n] + item)
            && (75 < n <= 0xff ==> s == [0x4c, n] + item)
            && (0xff < n <= 0xffff ==> s == [0x4d, n % 256, n / 256] + item)
            && (0xffff < n <= 0xffff_ffff ==>
                s == [0x4e, n % 256, n / 0x100 % 256, n / 0x1_0000 % 256, n / 0x100_0000] + item)
  {
    NoBytes(|item|);
    ShortBytes(|item|);
    hide LittleEndian;
  }

  /** Among the well-formed pushes of an item this one is the shortest, and no other is as short. */
  lemma PushShortest(op: Opcode)
    requires WellFormed(op) && op.value <= PUSHDATA4
    ensures WellFormed(PushOf(op.data)) && PushOf(op.data).data == op.data && PushOf(op.data).value <= PUSHDATA4
    ensures |Written(PushOf(op.data))| < |Written(op)| || op == PushOf(op.data)
  {
    hide Written;
    WrittenSize(op);
    WrittenSize(PushOf(op.data));
  }

  // ----- scripts as opcodes

  /** The opcodes of a script, up to the first that cannot be read. */
  function Ops(s: seq<byte>): (ops: seq<Opcode>)
    decreases |s|
  {
    var r := ParseOpcode(s);
    if r.None? then [] else [r.value.value] + Ops(r.value.rest)
  }

  /** ... and the bytes from there on. */
  function Tail(s: seq<byte>): (t: seq<byte>)
    ensures |t| <= |s|
    decreases |s|
  {
    var r := ParseOpcode(s);
    if r.None? then s else Tail(r.value.rest)
  }

  function WrittenAll(ops: seq<Opcode>): (s: seq<byte>) {
    if ops == [] then [] else Written(ops[0]) + WrittenAll(ops[1..])
  }

  ghost predicate AllWellFormed(ops: seq<Opcode>) {
    forall i :: 0 <= i < |ops| ==> WellFormed(ops[i])
  }

  /** A script is its opcodes and its unreadable tail. */
  lemma {:induction false} ScriptParts(s: seq<byte>)
    ensures s == WrittenAll(Ops(s)) + Tail(s) && AllWellFormed(Ops(s)) && ParseOpcode(Tail(s)).None?
    decreases |s|
  {
    hide ParseOpcode, Written, WellFormed;
    if ParseOpcode(s).Some? {
      var r := ParseOpcode(s).value;
      WriteUndoesParse(s);
      ScriptParts(r.rest);
      var ops := Ops(s);
      assert ops[0] == r.value && ops[1..] == Ops(r.rest);
      assert s == Written(r.value) + (WrittenAll(Ops(r.rest)) + Tail(r.rest));
    }
  }

  /** ... and any opcodes followed by an unreadable tail are read back as such. */
  lemma {:induction false} PartsScript(ops: seq<Opcode>, t: seq<byte>)
    requires AllWellFormed(ops) && ParseOpcode(t).None?
    ensures Ops(WrittenAll(ops) + t) == ops && Tail(WrittenAll(ops) + t) == t
    decreases |ops|
  {
    hide ParseOpcode, Written, WellFormed;
    if ops == [] {
      assert [] + t == t;
    } else {
      PartsScript(ops[1..], t);
      var rest := WrittenAll(ops[1..]) + t;
      assert WrittenAll(ops) + t == Written(ops[0]) + rest;
      ParseUndoesWrite(ops[0], rest);
      assert ops == [ops[0]] + ops[1..];
    }
  }

  function Without(ops: seq<Opcode>, pd: Opcode): (r: seq<Opcode>) {
    if ops == [] then [] else (if ops[0] == pd then [] else [ops[0]]) + Without(ops[1..], pd)
  }

  function Count(ops: seq<Opcode>, pd: Opcode): (n: nat) {
    if ops == [] then 0 else (if ops[0] == pd then 1 else 0) + Count(ops[1..], pd)
  }

  lemma {:induction false} WithoutHasNone(ops: seq<Opcode>, pd: Opcode)
    ensures Count(Without(ops, pd), pd) == 0
    ensures AllWellFormed(ops) ==> AllWellFormed(Without(ops, pd))
    ensures Count(ops, pd) == 0 ==> Without(ops, pd) == ops
  {
    hide WellFormed;
    if ops != [] {
      WithoutHasNone(ops[1..], pd);
      var w := Without(ops[1..], pd);
      if ops[0] != pd {
        assert Without(ops, pd) == [ops[0]] + w && ([ops[0]] + w)[1..] == w;
      } else {
        assert Without(ops, pd) == w;
      }
      assert ops == [ops[0]] + ops[1..];
      if AllWellFormed(ops) {
        assert AllWellFormed(ops[1..]);
      }
    }
  }

  function Times(n: nat, k: nat): (r: nat)
    ensures r == n * k
  {
    MulMono(0, n, k);
    n * k
  }

  lemma TimesMore(n: nat, k: nat)
    ensures Times(1 + n, k) == k + Times(n, k) && Times(0, k) == 0
  {
    assert (1 + n) * k == k + n * k;
  }

  lemma CountStep(ops: seq<Opcode>, pd: Opcode)
    requires ops != []
    ensures Count(ops, pd) == (if ops[0] == pd then 1 else 0) + Count(ops[1..], pd)
    ensures WrittenAll(ops) == Written(ops[0]) + WrittenAll(ops[1..])
    ensures WrittenAll(Without(ops, pd)) == (if ops[0] == pd then [] else Written(ops[0])) + WrittenAll(Without(ops[1..], pd))
  {
    hide Written;
    var w := Without(ops[1..], pd);
    if ops[0] != pd {
      assert ([ops[0]] + w)[1..] == w && [ops[0]] + w == Without(ops, pd);
    } else {
      assert [] + w == w && [] + WrittenAll(w) == WrittenAll(w);
    }
  }

  lemma {:induction false} WithoutShorter(ops: seq<Opcode>, pd: Opcode)
    ensures |WrittenAll(ops)| == |WrittenAll(Without(ops, pd))| + Times(Count(ops, pd), OpcodeSize(pd))
  {
    hide Written, OpcodeSize, Times;
    TimesMore(0, OpcodeSize(pd));
    if ops != [] {
      WithoutShorter(ops[1..], pd);
      WrittenSize(ops[0]);
      CountStep(ops, pd);
      TimesMore(Count(ops[1..], pd), OpcodeSize(pd));
      hide Without, Count, WrittenAll;
    }
  }

  /** A script without the given opcode. */
  function Deleted(s: seq<byte>, pd: Opcode): (r: seq<byte>) {
    WrittenAll(Without(Ops(s), pd)) + Tail(s)
  }

  /** Deleting leaves exactly the other opcodes, and the tail; so a second deletion finds nothing. */
  lemma DeletedParts(s: seq<byte>, pd: Opcode)
    ensures Ops(Deleted(s, pd)) == Without(Ops(s), pd) && Tail(Deleted(s, pd)) == Tail(s)
    ensures Count(Ops(Deleted(s, pd)), pd) == 0 && Deleted(Deleted(s, pd), pd) == Deleted(s, pd)
  {
    hide ParseOpcode, Ops, Tail, Without, Count, WrittenAll;
    ScriptParts(s);
    WithoutHasNone(Ops(s), pd);
    PartsScript(Without(Ops(s), pd), Tail(s));
    WithoutHasNone(Without(Ops(s), pd), pd);
  }

  lemma DeletedNothing(s: seq<byte>, pd: Opcode)
    requires Count(Ops(s), pd) == 0
    ensures Deleted(s, pd) == s
  {
    hide ParseOpcode, Ops, Tail, Without, Count, WrittenAll;
    ScriptParts(s);
    WithoutHasNone(Ops(s), pd);
  }

  lemma DeletedSize(s: seq<byte>, pd: Opcode)
    ensures |s| == |Deleted(s, pd)| + Times(Count(Ops(s), pd), OpcodeSize(pd))
  {
    hide ParseOpcode, Ops, Tail, Without, Count, WrittenAll, OpcodeSize, Times;
    ScriptParts(s);
    WithoutShorter(Ops(s), pd);
  }

  /** A script shorter than the opcode does not contain it. */
  lemma TooShort(s: seq<byte>, pd: Opcode)
    requires |s| < OpcodeSize(pd)
    ensures Count(Ops(s), pd) == 0
  {
    hide OpcodeSize, Deleted, Ops, Count;
    DeletedSize(s, pd);
    var n := Count(Ops(s), pd);
    if n > 0 { MulMono(1, n, OpcodeSize(pd)); }
  }

  // ----- reading opcodes from a cursor

  /** `btc_opcode_read`. */
  method ReadOpcode(cur: Cursor) returns (op: Option<Opcode>)
    requires cur.Valid()
    modifies cur
    ensures cur.Valid()
    ensures var r := ParseOpcode(old(cur.Rest()));
            if r.None? then op.None? else op == Some(r.value.value) && cur.Rest() == r.value.rest && cur.pos > old(cur.pos)
  {
    hide FromLittleEndian;
    var value := cur.ByteRead();
    if value.None? {
      return None;
    }
    if value.value > PUSHDATA4 {
      return Some(Opcode(value.value, []));
    }
    var length: nat := value.value;
    if Width(value.value) > 0 {
      var raw := cur.RawRead(Width(value.value));
      if raw.None? {
        return None;
      }
      length := FromLittleEndian(raw.value);
    }
    var data := cur.RawRead(length);
    if data.None? {
      return None;
    }
    op := Some(Opcode(value.value, data.value));
  }

  lemma ReadSome(s: seq<byte>, pd: Opcode)
    requires ParseOpcode(s).Some?
    ensures var r := ParseOpcode(s).value;
            && Ops(s) == [r.value] + Ops(r.rest) && Tail(s) == Tail(r.rest)
            && Count(Ops(s), pd) == (if r.value == pd then 1 else 0) + Count(Ops(r.rest), pd)
            && WrittenAll(Without(Ops(s), pd)) == (if r.value == pd then [] else Written(r.value)) + WrittenAll(Without(Ops(r.rest), pd))
  {
    hide Written, ParseOpcode;
    var r := ParseOpcode(s).value;
    var ops := Ops(r.rest);
    assert ([r.value] + ops)[1..] == ops;
    var w := Without(ops, pd);
    if r.value != pd { assert ([r.value] + w)[1..] == w; } else { assert [] + w == w; }
  }

  lemma ReadNone(s: seq<byte>, pd: Opcode)
    requires ParseOpcode(s).None?
    ensures Ops(s) == [] && Tail(s) == s && Count([], pd) == 0 && WrittenAll(Without([], pd)) == []
  {}

  /** How often an opcode occurs before the first unreadable one. */
  method CountOpcode(script: seq<byte>, pd: Opcode) returns (found: nat)
    ensures found == Count(Ops(script), pd)
  {
    hide ParseOpcode, Ops, Count;
    var cur := new Cursor(script);
    found := 0;
    while true
      invariant cur.Valid() && cur.data == script && found + Count(Ops(cur.Rest()), pd) == Count(Ops(script), pd)
      decreases |script| - cur.pos
    {
      ghost var rest := cur.Rest();
      var op := ReadOpcode(cur);
      if op.None? {
        ReadNone(rest, pd);
        break;
      }
      ReadSome(rest, pd);
      if op.value == pd {
        found := found + 1;
      }
    }
  }

  class Script {
    var data: seq<byte>

    constructor (s: seq<byte>)
      ensures data == s
    {
      data := s;
    }

    /** `btc_script_find_and_delete`. */
    method FindAndDelete(item: seq<byte>) returns (found: nat)
      modifies this
      ensures found == Count(Ops(old(data)), PushOf(item)) && data == Deleted(old(data), PushOf(item))
    {
      hide ParseOpcode, Ops, Tail, Count, Without, WrittenAll, Deleted, Written, OpcodeSize, PushOf;
      var pd := PushOf(item);
      if |data| < OpcodeSize(pd) {
        TooShort(data, pd);
        DeletedNothing(data, pd);
        return 0;
      }
      found := CountOpcode(data, pd);
      if found == 0 {
        DeletedNothing(data, pd);
        return;
      }
      data := Rewrite(data, pd);
    }
  }

  lemma DeletedStep(s: seq<byte>, pd: Opcode)
    ensures var r := ParseOpcode(s);
            Deleted(s, pd) == if r.None? then s else Unless(r.value.value, pd) + Deleted(r.value.rest, pd)
  {
    hide ParseOpcode, Ops, Tail, Count, Without, WrittenAll, Written;
    if ParseOpcode(s).None? {
      ReadNone(s, pd);
    } else {
      ReadSome(s, pd);
    }
  }

  /** The bytes of a kept opcode. */
  function Unless(op: Opcode, pd: Opcode): (s: seq<byte>) {
    if op == pd then [] else Written(op)
  }

  lemma Regroup(a: seq<byte>, b: seq<byte>, c: seq<byte>)
    ensures a + (b + c) == (a + b) + c
  {}

  /** The second pass: kept opcodes are written again, a tail is copied. */
  method Rewrite(script: seq<byte>, pd: Opcode) returns (out: seq<byte>)
    ensures out == Deleted(script, pd)
  {
    hide ParseOpcode, Deleted, Written;
    var cur := new Cursor(script);
    out := [];
    while cur.pos < |script|
      invariant cur.Valid() && cur.data == script
      invariant out + Deleted(cur.Rest(), pd) == Deleted(script, pd)
      decreases |script| - cur.pos
    {
      DeletedStep(cur.Rest(), pd);
      var start := cur.pos;
      var op := ReadOpcode(cur);
      if op.None? {
        out := out + script[start..];
        return;
      }
      Regroup(out, Unless(op.value, pd), Deleted(cur.Rest(), pd));
      if op.value == pd {
        assert out + [] == out;
        continue;
      }
      out := out + Written(op.value);
    }
    DeletedEmpty(pd);
    assert cur.Rest() == [] && out + [] == out;
  }

  lemma DeletedEmpty(pd: Opcode)
    ensures Deleted([], pd) == []
  {}

  // ----- hashing

  const SEPARATOR: Opcode := Opcode(CODESEPARATOR, [])

  lemma SeparatorSize(s: seq<byte>)
    ensures |Deleted(s, SEPARATOR)| == |s| - Count(Ops(s), SEPARATOR)
  {
    hide Deleted, Ops, Count;
    DeletedSize(s, SEPARATOR);
  }

  /** `btc_script_update_v0`: the bytes fed to the hash are the length of what follows, and the script
      without its code separators. */
  method UpdateV0(ctx: seq<byte>, script: seq<byte>) returns (fed: seq<byte>)
    requires |script| <= UINT64_MAX
    ensures |Deleted(script, SEPARATOR)| <= UINT64_MAX
    ensures fed == ctx + Compact(|Deleted(script, SEPARATOR)|) + Deleted(script, SEPARATOR)
  {
    hide ParseOpcode, Ops, Tail, Count, Without, WrittenAll, Written, Compact, Deleted;
    var found := CountSeparators(script);
    SeparatorSize(script);
    if found == 0 {
      DeletedNothing(script, SEPARATOR);
      fed := ctx + Compact(|script|);
      fed := fed + script;
      return;
    }
    fed := ctx + Compact(|script| - found);
    var rest := FeedParts(script);
    fed := fed + rest;
  }

  method CountSeparators(script: seq<byte>) returns (found: nat)
    ensures found == Count(Ops(script), SEPARATOR)
  {
    hide ParseOpcode, Ops, Count;
    var cur := new Cursor(script);
    found := 0;
    while true
      invariant cur.Valid() && cur.data == script
      invariant found + Count(Ops(cur.Rest()), SEPARATOR) == Count(Ops(script), SEPARATOR)
      decreases |script| - cur.pos
    {
      ghost var rest := cur.Rest();
      var op := ReadOpcode(cur);
      if op.None? {
        ReadNone(rest, SEPARATOR);
        break;
      }
      ReadSome(rest, SEPARATOR);
      IsSeparator(rest);
      if op.value.value == CODESEPARATOR {
        found := found + 1;
      }
    }
  }

  lemma IsSeparator(s: seq<byte>)
    requires ParseOpcode(s).Some?
    ensures var op := ParseOpcode(s).value.value; op.value == CODESEPARATOR <==> op == SEPARATOR
    ensures Written(SEPARATOR) == [CODESEPARATOR]
  {}

  /** The loop over the segments between separators; `bp` is where the open segment starts. */
  method FeedParts(script: seq<byte>) returns (fed: seq<byte>)
    ensures fed == Deleted(script, SEPARATOR)
  {
    hide ParseOpcode, Deleted, Fed;
    var cur := new Cursor(script);
    var bp: nat := 0;
    fed := [];
    FedStart(script);
    while true
      invariant cur.Valid() && cur.data == script && bp <= cur.pos && Fed(script, fed, bp, cur.pos)
      decreases |script| - cur.pos
    {
      ghost var at := cur.pos;
      FedStep(script, fed, bp, at);
      var op := ReadOpcode(cur);
      if op.None? {
        break;
      }
      RestAt(script, at, cur.pos);
      if op.value.value == CODESEPARATOR {
        fed := fed + script[bp..cur.pos - 1];
        bp := cur.pos;
      }
    }
    fed := fed + script[bp..];
  }

  /** The bytes fed, the open segment and the rest still to come make up the result. */
  ghost predicate Fed(script: seq<byte>, fed: seq<byte>, bp: nat, pos: nat) {
    && bp <= pos <= |script|
    && fed + (script[bp..pos] + Deleted(script[pos..], SEPARATOR)) == Deleted(script, SEPARATOR)
  }

  lemma FedStart(script: seq<byte>)
    ensures Fed(script, [], 0, 0)
  {
    assert script[0..0] == [] && script[0..] == script;
    assert [] + ([] + Deleted(script, SEPARATOR)) == Deleted(script, SEPARATOR);
  }

  lemma FedStep(script: seq<byte>, fed: seq<byte>, bp: nat, at: nat)
    requires Fed(script, fed, bp, at)
    ensures var r := ParseOpcode(script[at..]);
            if r.None? then fed + script[bp..] == Deleted(script, SEPARATOR)
            else
              var pos := |script| - |r.value.rest|;
              && at < pos <= |script|
              && if r.value.value.value == CODESEPARATOR then Fed(script, fed + script[bp..pos - 1], pos, pos)
                 else Fed(script, fed, bp, pos)
  {
    hide ParseOpcode, Deleted;
    SegmentStep(script, bp, at);
    var r := ParseOpcode(script[at..]);
    if r.Some? {
      var pos, after := |script| - |r.value.rest|, Deleted(r.value.rest, SEPARATOR);
      if r.value.value.value == CODESEPARATOR {
        Regroup(fed, script[bp..pos - 1], after);
        assert script[pos..pos] == [] && [] + after == after;
      }
    }
  }

  /** One opcode further: a separator closes the segment, anything else extends it. */
  lemma SegmentStep(script: seq<byte>, bp: nat, at: nat)
    requires bp <= at <= |script|
    ensures var s := script[at..]; var r := ParseOpcode(s);
            if r.None? then script[bp..at] + Deleted(s, SEPARATOR) == script[bp..]
            else
              var pos := |script| - |r.value.rest|;
              && at < pos <= |script| && script[pos..] == r.value.rest
              && script[bp..at] + Deleted(s, SEPARATOR) ==
                   (if r.value.value.value == CODESEPARATOR then script[bp..pos - 1] else script[bp..pos]) + Deleted(r.value.rest, SEPARATOR)
  {
    hide ParseOpcode, Deleted, Written;
    var s := script[at..];
    DeletedStep(s, SEPARATOR);
    if ParseOpcode(s).Some? {
      var r := ParseOpcode(s).value;
      WriteUndoesParse(s);
      IsSeparator(s);
      var raw, pos := Written(r.value), |script| - |r.rest|;
      assert script[pos..] == s[|raw|..] == r.rest;
      Segment(script, bp, at, pos, raw);
      Regroup(script[bp..at], Unless(r.value, SEPARATOR), Deleted(r.rest, SEPARATOR));
    }
  }

  lemma RestAt(script: seq<byte>, at: nat, pos: nat)
    requires at <= pos <= |script|
    ensures |script| - |script[pos..]| == pos
  {}

  lemma Segment(script: seq<byte>, bp: nat, at: nat, pos: nat, raw: seq<byte>)
    requires bp <= at <= pos <= |script| && script[at..] == raw + script[pos..]
    ensures script[bp..pos] == script[bp..at] + raw && pos == at + |raw|
  {
    assert |raw| == pos - at;
    assert script[at..pos] == script[at..][..pos - at] == raw;
  }
}
