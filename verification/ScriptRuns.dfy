/** What whole scripts come to: opcodes, templates and laws, told by the stack a run starts with and the
    stack it ends with. */
module ScriptRuns {
  import opened Wire
  import opened ScriptNum
  import opened Opcodes
  import opened Multisig
  import opened ScriptStack
  import opened Machine

  /** The run goes through and leaves this stack. */
  predicate EndsWith(r: Result<State>, stack: Items) {
    r.Ok? && r.value.stack == stack
  }

  // ----- one turn after another

  /** An opcode that is not a push, where code is run or the opcode is a branch. */
  lemma RunOp(env: Env, m: State, v: byte, t: seq<byte>)
    requires m.rest == [v] + t && (m.negate == 0 || IsBranch(v)) && v > PUSHDATA4 && !IsDisabled(v)
    requires m.opcount < MAX_OPS
    ensures var r := Checked(Exec(env, m.(rest := t, opcount := Counted(v, m.opcount)), v));
            Run(env, m) == if r.Err? then r else Run(env, r.value)
  {
    ParseBare(v, t);
    RunStep(env, m);
    hide Run, Exec, ParseOpcode;
  }

  /** ... and where it is not. */
  lemma RunSkip(env: Env, m: State, v: byte, t: seq<byte>)
    requires m.rest == [v] + t && m.negate != 0 && !IsBranch(v) && v > PUSHDATA4 && m.opcount < MAX_OPS
    requires |m.stack| + |m.alt| <= MAX_STACK
    ensures if IsDisabled(v) then Run(env, m) == Err(DisabledOpcode, m.stack)
            else Run(env, m) == Run(env, m.(rest := t, opcount := Counted(v, m.opcount)))
  {
    ParseBare(v, t);
    RunStep(env, m);
    hide Run, Exec, ParseOpcode;
  }

  /** A push; it must be the minimal one where that is asked. */
  lemma RunPush(env: Env, m: State, x: Item, t: seq<byte>)
    requires m.rest == Written(PushOf(x)) + t && m.negate == 0 && |x| <= MAX_PUSH && MinimalPush(PushOf(x))
    requires |m.stack| + |m.alt| < MAX_STACK
    ensures Run(env, m) == Run(env, m.(rest := t, stack := m.stack + [x]))
  {
    ParseUndoesWrite(PushOf(x), t);
    RunStep(env, m);
    hide Run, Exec, ParseOpcode, Written;
  }

  lemma ShortPush(x: Item)
    requires |x| <= 0x4b
    ensures Written(PushOf(x)) == [|x|] + x
  {
    NoBytes(|x|);
  }

  /** A script of one opcode. */
  lemma Single(env: Env, v: byte, s: Items)
    requires v > PUSHDATA4 && !IsDisabled(v)
    ensures var r := Checked(Exec(env, State(s, [], [], if v > 0x60 then 1 else 0, 0, [], [v]), v));
            r.Err? || r.value.rest == [] ==>
            Executed(env, [v], s) == if r.Ok? && r.value.conds != [] then Err(Unbalanced, r.value.stack) else r
  {
    assert [v] == [v] + [];
    RunOp(env, Start([v], s), v, []);
    hide Exec;
  }

  // ----- paying to the hash of a key

  /** `DUP HASH160 <h> EQUALVERIFY` and what checks the signature. */
  function KeyHashScript(h: seq<byte>, check: byte): (s: seq<byte>)
    requires |h| == 20
  {
    [0x76, 0xa9, 0x14] + h + [0x88, check]
  }

  /** What is signed: in version 0 a push of the signature itself, which can only be the push of `h`, is
      cut out. */
  function KeyHashSigned(env: Env, h: seq<byte>, check: byte, sig: Item): (s: seq<byte>)
    requires |h| == 20
  {
    if env.legacy && sig == h then [0x76, 0xa9, 0x88, check] else KeyHashScript(h, check)
  }

  /** The opcodes of the script. */
  function KeyHashOps(h: seq<byte>, check: byte): (ops: seq<Opcode>) {
    [Opcode(0x76, []), Opcode(0xa9, []), Opcode(0x14, h), Opcode(0x88, []), Opcode(check, [])]
  }

  lemma WrittenBare(v: byte)
    requires v > PUSHDATA4
    ensures Written(Opcode(v, [])) == [v]
  {}

  lemma WrittenCons(op: Opcode, ops: seq<Opcode>)
    ensures WrittenAll([op] + ops) == Written(op) + WrittenAll(ops)
  {
    hide Written;
    assert ([op] + ops)[1..] == ops;
  }

  lemma WithoutCons(op: Opcode, ops: seq<Opcode>, pd: Opcode)
    ensures Without([op] + ops, pd) == (if op == pd then [] else [op]) + Without(ops, pd)
  {
    assert ([op] + ops)[1..] == ops;
  }

  lemma WrittenNone()
    ensures WrittenAll([]) == []
  {}

  lemma KeyHashWritten(h: seq<byte>, check: byte)
    requires |h| == 20 && check > PUSHDATA4
    ensures WrittenAll(KeyHashOps(h, check)) == KeyHashScript(h, check)
    ensures WrittenAll([Opcode(0x76, []), Opcode(0xa9, []), Opcode(0x88, []), Opcode(check, [])]) == [0x76, 0xa9, 0x88, check]
  {
    hide Written, WrittenAll;
    WrittenNone();
    var a, b, c, d, e := Opcode(0x76, []), Opcode(0xa9, []), Opcode(0x14, h), Opcode(0x88, []), Opcode(check, []);
    WrittenBare(0x76);
    WrittenBare(0xa9);
    WrittenBare(0x88);
    WrittenBare(check);
    ShortPush(h);
    assert [e] == [e] + [] && [d, e] == [d] + [e] && [c, d, e] == [c] + [d, e];
    assert [b, c, d, e] == [b] + [c, d, e] && [a, b, c, d, e] == [a] + [b, c, d, e];
    assert [b, d, e] == [b] + [d, e] && [a, b, d, e] == [a] + [b, d, e];
    WrittenCons(e, []);
    WrittenCons(d, [e]);
    WrittenCons(c, [d, e]);
    WrittenCons(b, [c, d, e]);
    WrittenCons(a, [b, c, d, e]);
    WrittenCons(b, [d, e]);
    WrittenCons(a, [b, d, e]);
  }

  lemma KeyHashWithout(h: seq<byte>, check: byte, sig: Item)
    requires |h| == 20 && check > PUSHDATA4
    ensures Without(KeyHashOps(h, check), PushOf(sig)) ==
            if sig == h then [Opcode(0x76, []), Opcode(0xa9, []), Opcode(0x88, []), Opcode(check, [])]
            else KeyHashOps(h, check)
  {
    hide Without;
    var pd := PushOf(sig);
    var a, b, c, d, e := Opcode(0x76, []), Opcode(0xa9, []), Opcode(0x14, h), Opcode(0x88, []), Opcode(check, []);
    assert [e] == [e] + [] && [d, e] == [d] + [e] && [c, d, e] == [c] + [d, e];
    assert [b, c, d, e] == [b] + [c, d, e] && [a, b, c, d, e] == [a] + [b, c, d, e];
    WithoutNone(pd);
    WithoutCons(e, [], pd);
    WithoutCons(d, [e], pd);
    WithoutCons(c, [d, e], pd);
    WithoutCons(b, [c, d, e], pd);
    WithoutCons(a, [b, c, d, e], pd);
    assert c == pd <==> sig == h;
  }

  lemma WithoutNone(pd: Opcode)
    ensures Without([], pd) == []
  {}

  lemma KeyHashSubscript(env: Env, h: seq<byte>, check: byte, sig: Item)
    requires |h| == 20 && check > PUSHDATA4
    ensures Subscript(env, KeyHashScript(h, check), [sig]) == KeyHashSigned(env, h, check, sig)
  {
    SubscriptOne(env, KeyHashScript(h, check), sig);
    var ops := KeyHashOps(h, check);
    KeyHashWritten(h, check);
    assert AllWellFormed(ops);
    PartsScript(ops, []);
    KeyHashWithout(h, check, sig);
    hide Subscript, WrittenAll, Without, Ops, Tail, KeyHashScript, KeyHashOps, PushOf;
    assert KeyHashScript(h, check) + [] == KeyHashScript(h, check);
    assert [0x76, 0xa9, 0x88, check] + [] == [0x76, 0xa9, 0x88, check];
  }

  lemma DupExec(env: Env, m: State, base: Items, x: Item)
    requires m.stack == base + [x]
    ensures Exec(env, m, 0x76) == Ok(m.(stack := base + [x, x]))
  {
    Effects1(base, x);
    hide Shuffled;
  }

  lemma HashExec(env: Env, m: State, v: byte, base: Items, x: Item)
    requires m.stack == base + [x] && 0xa6 <= v <= 0xaa
    ensures Exec(env, m, v) == Ok(m.(stack := base + [env.hash(v, x)]))
  {
    assert (base + [x])[..|base|] == base;
  }

  lemma EqualVerifyExec(env: Env, m: State, base: Items, x: Item, y: Item)
    requires m.stack == base + [x, y]
    ensures if x == y then Exec(env, m, 0x88) == Ok(m.(stack := base)) else Exec(env, m, 0x88).Err?
  {
    assert (base + [x, y])[..|base|] == base;
  }

  /** The first four opcodes: they go through exactly when the key has the hash. */
  lemma KeyHashOpens(env: Env, base: Items, sig: Item, key: Item, h: seq<byte>, check: byte)
    requires |h| == 20 && |base| + 4 <= MAX_STACK
    ensures var s := KeyHashScript(h, check);
            var r := Executed(env, s, base + [sig, key]);
            if env.hash(0xa9, key) == h then r == Run(env, State(base + [sig, key], [], [], 3, 0, [check], s))
            else r.Err?
  {
    hide Run, Exec, Written;
    var s := KeyHashScript(h, check);
    var below, top := base + [sig], env.hash(0xa9, key);
    var m := Start(s, base + [sig, key]);
    assert base + [sig, key] == below + [key];
    var t := [0xa9, 0x14] + h + [0x88, check];
    assert s == [0x76] + t;
    RunOp(env, m, 0x76, t);
    var m1 := m.(rest := t, opcount := 1);
    DupExec(env, m1, below, key);
    m1 := m1.(stack := below + [key, key]);
    var t2 := [0x14] + h + [0x88, check];
    assert t == [0xa9] + t2;
    RunOp(env, m1, 0xa9, t2);
    var m2 := m1.(rest := t2, opcount := 2);
    assert below + [key, key] == (below + [key]) + [key];
    HashExec(env, m2, 0xa9, below + [key], key);
    m2 := m2.(stack := below + [key] + [top]);
    ShortPush(h);
    assert t2 == Written(PushOf(h)) + [0x88, check];
    RunPush(env, m2, h, [0x88, check]);
    var m3 := m2.(rest := [0x88, check], stack := below + [key] + [top] + [h]);
    assert m3.stack == (below + [key]) + [top, h];
    assert m3.rest == [0x88] + [check];
    RunOp(env, m3, 0x88, [check]);
    EqualVerifyExec(env, m3.(rest := [check], opcount := 3), below + [key], top, h);
  }

  /** A signature for a key, of the script that is signed. */
  predicate Accepts(env: Env, sub: seq<byte>, sig: Item, key: Item) {
    env.hasTx && env.refuse(sig, key).None? && sig != [] && env.verify(sub, sig, key)
  }

  lemma CheckSigEnds(env: Env, m: State, base: Items, sig: Item, key: Item, check: byte)
    requires m.stack == base + [sig, key] && m.rest == [check] && m.conds == [] && m.alt == [] && m.negate == 0
    requires m.opcount < MAX_OPS && |base| < MAX_STACK && check in {0xac, 0xad}
    ensures var ok := Accepts(env, Subscript(env, m.begin, [sig]), sig, key);
            var r := Run(env, m);
            && (ok ==> EndsWith(r, if check == 0xac then base + [[1]] else base))
            && (!ok ==> if check == 0xac && env.hasTx && env.refuse(sig, key).None? && (env.nullFail ==> sig == [])
                        then EndsWith(r, base + [[]]) else r.Err?)
  {
    hide Exec, Subscript, Run;
    assert m.rest == [check] + [];
    RunOp(env, m, check, []);
    var m1 := m.(rest := [], opcount := m.opcount + 1);
    CheckSigExec(env, m1, check);
    assert m1.stack[..|base|] == base;
    var r := DoCheckSig(env, m1, check);
    if r.Ok? && Checked(r).Ok? {
      RunEnd(env, r.value);
    }
  }

  lemma CheckSigExec(env: Env, m: State, v: byte)
    requires v in {0xac, 0xad}
    ensures Exec(env, m, v) == DoCheckSig(env, m, v)
  {}

  /** Paying to a key hash: the run leaves true exactly for a key with the hash, and a signature by it that
      is not refused, of the script that is signed; it leaves false for an empty signature, or a wrong
      one where that is allowed, and fails otherwise. The signature is below the key. */
  lemma PayToKeyHash(env: Env, base: Items, sig: Item, key: Item, h: seq<byte>)
    requires |h| == 20 && |base| + 4 <= MAX_STACK
    ensures var r := Executed(env, KeyHashScript(h, 0xac), base + [sig, key]);
            && (EndsWith(r, base + [[1]]) <==>
                && env.hasTx && env.hash(0xa9, key) == h && env.refuse(sig, key).None? && sig != []
                && env.verify(KeyHashSigned(env, h, 0xac, sig), sig, key))
            && (EndsWith(r, base + [[]]) <==>
                && env.hasTx && env.hash(0xa9, key) == h && env.refuse(sig, key).None?
                && (sig == [] || (!env.nullFail && !env.verify(KeyHashSigned(env, h, 0xac, sig), sig, key))))
            && (r.Ok? ==> EndsWith(r, base + [[1]]) || EndsWith(r, base + [[]]))
  {
    hide Run, Executed, Subscript;
    KeyHashOpens(env, base, sig, key, h, 0xac);
    KeyHashSubscript(env, h, 0xac, sig);
    var m := State(base + [sig, key], [], [], 3, 0, [0xac], KeyHashScript(h, 0xac));
    CheckSigEnds(env, m, base, sig, key, 0xac);
    assert (base + [[1]])[|base|] != (base + [[]])[|base|];
  }

  /** ... and with CHECKSIGVERIFY it goes through exactly then, leaving nothing. */
  lemma PayToKeyHashVerify(env: Env, base: Items, sig: Item, key: Item, h: seq<byte>)
    requires |h| == 20 && |base| + 4 <= MAX_STACK
    ensures var r := Executed(env, KeyHashScript(h, 0xad), base + [sig, key]);
            && (r.Ok? <==>
                && env.hasTx && env.hash(0xa9, key) == h && env.refuse(sig, key).None? && sig != []
                && env.verify(KeyHashSigned(env, h, 0xad, sig), sig, key))
            && (r.Ok? ==> r.value.stack == base)
  {
    hide Run, Executed, Subscript;
    KeyHashOpens(env, base, sig, key, h, 0xad);
    KeyHashSubscript(env, h, 0xad, sig);
    var m := State(base + [sig, key], [], [], 3, 0, [0xad], KeyHashScript(h, 0xad));
    CheckSigEnds(env, m, base, sig, key, 0xad);
  }

  /** Code before a separator is not signed. */
  lemma SeparatorCuts(env: Env, base: Items, sig: Item, key: Item)
    requires |base| + 2 <= MAX_STACK
    ensures EndsWith(Executed(env, [0x61, 0xab, 0xac], base + [sig, key]), base + [[1]]) <==>
            Accepts(env, [0xac], sig, key)
  {
    hide Run, Exec, Deleted;
    var m := Start([0x61, 0xab, 0xac], base + [sig, key]);
    assert m.rest == [0x61] + [0xab, 0xac];
    RunOp(env, m, 0x61, [0xab, 0xac]);
    var m1 := m.(rest := [0xab, 0xac], opcount := 1);
    PlainExec(env, m1);
    assert m1.rest == [0xab] + [0xac];
    RunOp(env, m1, 0xab, [0xac]);
    PlainExec(env, m1.(rest := [0xac], opcount := 2));
    var m2 := m1.(rest := [0xac], opcount := 2, begin := [0xac]);
    BareSubscript(env, 0xac, sig);
    CheckSigEnds(env, m2, base, sig, key, 0xac);
    assert (base + [[1]])[|base|] != (base + [[]])[|base|];
  }

  lemma PlainExec(env: Env, m: State)
    ensures Exec(env, m, 0x61) == Ok(m) && Exec(env, m, 0xab) == Ok(m.(begin := m.rest))
  {}

  lemma BareSubscript(env: Env, v: byte, sig: Item)
    requires v > PUSHDATA4
    ensures Subscript(env, [v], [sig]) == [v]
  {
    SubscriptOne(env, [v], sig);
    ParseBare(v, []);
    assert [v] + [] == [v];
    assert Ops([]) == [] && Tail([]) == [];
    assert Ops([v]) == [Opcode(v, [])] && Tail([v]) == [];
    assert Count(Ops([v]), PushOf(sig)) == 0;
    DeletedNothing([v], PushOf(sig));
  }

  // ----- numbers

  lemma SmallExports()
    ensures Export(0) == [] && Export(1) == [1] && Export(-1) == [0x81]
    ensures forall n :: 1 <= n <= 0x7f ==> Export(n) == [n]
  {
    forall n | 1 <= n <= 0x7f ensures Export(n) == [n] {
      assert Bytes(n / 256) == [];
      assert Bytes(n) == [n];
    }
    assert Bytes(1) == [1];
  }

  /** A number an opcode accepts. */
  predicate Operand(env: Env, x: Item) {
    |x| <= 4 && (env.minimal ==> IsMinimal(x))
  }

  lemma BinaryExec(env: Env, m: State, v: byte, base: Items, x: Item, y: Item)
    requires m.stack == base + [x, y] && Operand(env, x) && Operand(env, y)
    requires Binary(v, 0, 0).Some? && v != 0x9d
    ensures Exec(env, m, v) == Ok(m.(stack := base + [Export(Binary(v, Import(x), Import(y)).value)]))
  {
    hide Export, Import, IsMinimal;
    assert (base + [x, y])[..|base|] == base;
  }

  lemma UnaryExec(env: Env, m: State, v: byte, base: Items, x: Item)
    requires m.stack == base + [x] && Operand(env, x) && Unary(v, 0).Some?
    ensures Exec(env, m, v) == Ok(m.(stack := base + [Export(Unary(v, Import(x)).value)]))
  {
    hide Export, Import, IsMinimal;
    assert (base + [x])[..|base|] == base;
  }

  lemma BinaryRun(env: Env, v: byte, base: Items, x: Item, y: Item)
    requires Operand(env, x) && Operand(env, y) && |base| < MAX_STACK
    requires v > 0x60 && !IsDisabled(v) && Binary(v, 0, 0).Some? && v != 0x9d
    ensures EndsWith(Executed(env, [v], base + [x, y]), base + [Export(Binary(v, Import(x), Import(y)).value)])
  {
    hide Export, Import, Exec, Executed, Operand, Binary;
    Single(env, v, base + [x, y]);
    BinaryExec(env, State(base + [x, y], [], [], 1, 0, [], [v]), v, base, x, y);
  }

  lemma UnaryRun(env: Env, v: byte, base: Items, x: Item)
    requires Operand(env, x) && |base| < MAX_STACK && v > 0x60 && !IsDisabled(v) && Unary(v, 0).Some?
    ensures EndsWith(Executed(env, [v], base + [x]), base + [Export(Unary(v, Import(x)).value)])
  {
    hide Export, Import, Exec, Executed, Operand, Unary;
    Single(env, v, base + [x]);
    UnaryExec(env, State(base + [x], [], [], 1, 0, [], [v]), v, base, x);
  }

  lemma IsMisc(env: Env, m: State, v: byte)
    requires v in {0x69, 0x6a, 0x73, 0x74, 0x79, 0x7a, 0x82, 0x87, 0x88, 0xa5, 0xb1, 0xb2}
    ensures Exec(env, m, v) == DoMisc(env, m, v)
  {
    hide DoMisc, DoShuffle, DoUnary, DoBinary;
  }

  /** Which operation an opcode names. */
  lemma NamesStack(env: Env, m: State)
    ensures Exec(env, m, 0x69) == DoVerify(m) && Exec(env, m, 0x6a) == Err(OpReturn, m.stack)
    ensures Exec(env, m, 0x73) == DoIfdup(m) && Exec(env, m, 0x74) == Ok(m.(stack := m.stack + [Export(|m.stack|)]))
    ensures Exec(env, m, 0x82) == DoSize(m)
  {
    hide DoVerify, DoIfdup, DoSize, Export, Exec;
    IsMisc(env, m, 0x69);
    IsMisc(env, m, 0x6a);
    IsMisc(env, m, 0x73);
    IsMisc(env, m, 0x74);
    IsMisc(env, m, 0x82);
  }

  lemma NamesTests(env: Env, m: State)
    ensures Exec(env, m, 0x87) == DoEqual(m, 0x87) && Exec(env, m, 0x88) == DoEqual(m, 0x88)
    ensures Exec(env, m, 0xa5) == DoWithin(env, m)
  {
    hide DoEqual, DoWithin, Exec;
    IsMisc(env, m, 0x87);
    IsMisc(env, m, 0x88);
    IsMisc(env, m, 0xa5);
  }

  lemma NamesNumEqual(env: Env, m: State)
    ensures Exec(env, m, 0x9d) == DoBinary(env, m, 0x9d)
  {
    hide DoBinary;
  }

  lemma NamesPicks(env: Env, m: State)
    ensures Exec(env, m, 0x79) == DoPick(env, m, false) && Exec(env, m, 0x7a) == DoPick(env, m, true)
    ensures Exec(env, m, 0xb1) == DoLock(env, m, env.cltv, env.locktime)
    ensures Exec(env, m, 0xb2) == DoLock(env, m, env.csv, env.sequence)
  {
    hide DoPick, DoLock, Exec;
    IsMisc(env, m, 0x79);
    IsMisc(env, m, 0x7a);
    IsMisc(env, m, 0xb1);
    IsMisc(env, m, 0xb2);
  }

  /** What the opcodes on two numbers leave: the sum, the difference, the answer to a comparison. */
  lemma BinaryMeaning(env: Env, base: Items, x: Item, y: Item)
    requires Operand(env, x) && Operand(env, y) && |base| < MAX_STACK
    ensures var a, b := Import(x), Import(y); var s := base + [x, y];
            && EndsWith(Executed(env, [0x93], s), base + [Export(a + b)])
            && EndsWith(Executed(env, [0x94], s), base + [Export(a - b)])
            && EndsWith(Executed(env, [0x9a], s), base + [Boolean(a != 0 && b != 0)])
            && EndsWith(Executed(env, [0x9b], s), base + [Boolean(a != 0 || b != 0)])
            && EndsWith(Executed(env, [0x9c], s), base + [Boolean(a == b)])
            && EndsWith(Executed(env, [0x9e], s), base + [Boolean(a != b)])
            && EndsWith(Executed(env, [0x9f], s), base + [Boolean(a < b)])
            && EndsWith(Executed(env, [0xa0], s), base + [Boolean(a > b)])
            && EndsWith(Executed(env, [0xa1], s), base + [Boolean(a <= b)])
            && EndsWith(Executed(env, [0xa2], s), base + [Boolean(a >= b)])
            && EndsWith(Executed(env, [0xa3], s), base + [Export(if a <= b then a else b)])
            && EndsWith(Executed(env, [0xa4], s), base + [Export(if a <= b then b else a)])
  {
    hide Export, Import, Executed, Operand, EndsWith;
    SmallExports();
    BinaryRun(env, 0x93, base, x, y);
    BinaryRun(env, 0x94, base, x, y);
    BinaryRun(env, 0x9a, base, x, y);
    BinaryRun(env, 0x9b, base, x, y);
    BinaryRun(env, 0x9c, base, x, y);
    BinaryRun(env, 0x9e, base, x, y);
    BinaryRun(env, 0x9f, base, x, y);
    BinaryRun(env, 0xa0, base, x, y);
    BinaryRun(env, 0xa1, base, x, y);
    BinaryRun(env, 0xa2, base, x, y);
    BinaryRun(env, 0xa3, base, x, y);
    BinaryRun(env, 0xa4, base, x, y);
  }

  lemma UnaryMeaning(env: Env, base: Items, x: Item)
    requires Operand(env, x) && |base| < MAX_STACK
    ensures var a := Import(x); var s := base + [x];
            && EndsWith(Executed(env, [0x8b], s), base + [Export(a + 1)])
            && EndsWith(Executed(env, [0x8c], s), base + [Export(a - 1)])
            && EndsWith(Executed(env, [0x8f], s), base + [Export(0 - a)])
            && EndsWith(Executed(env, [0x90], s), base + [Export(if a >= 0 then a else 0 - a)])
            && EndsWith(Executed(env, [0x91], s), base + [Boolean(a == 0)])
            && EndsWith(Executed(env, [0x92], s), base + [Boolean(a != 0)])
  {
    hide Export, Import, Executed, Operand, EndsWith;
    SmallExports();
    UnaryRun(env, 0x8b, base, x);
    UnaryRun(env, 0x8c, base, x);
    UnaryRun(env, 0x8f, base, x);
    UnaryRun(env, 0x90, base, x);
    UnaryRun(env, 0x91, base, x);
    UnaryRun(env, 0x92, base, x);
  }

  /** NUMEQUALVERIFY goes through exactly on equal numbers, WITHIN answers for a half-open range. */
  lemma RangeMeaning(env: Env, base: Items, x: Item, y: Item, z: Item)
    requires Operand(env, x) && Operand(env, y) && Operand(env, z) && |base| < MAX_STACK
    ensures Executed(env, [0x9d], base + [x, y]).Ok? <==> Import(x) == Import(y)
    ensures Import(x) == Import(y) ==> EndsWith(Executed(env, [0x9d], base + [x, y]), base)
    ensures EndsWith(Executed(env, [0xa5], base + [x, y, z]), base + [Boolean(Import(y) <= Import(x) < Import(z))])
  {
    hide Export, Import, IsMinimal, Executed, Exec;
    assert (base + [x, y])[..|base|] == base && (base + [x, y, z])[..|base|] == base;
    Single(env, 0x9d, base + [x, y]);
    NamesNumEqual(env, State(base + [x, y], [], [], 1, 0, [], [0x9d]));
    Single(env, 0xa5, base + [x, y, z]);
    NamesTests(env, State(base + [x, y, z], [], [], 1, 0, [], [0xa5]));
  }

  lemma ExportOperand(env: Env, a: int)
    requires -0x8000_0000 < a < 0x8000_0000
    ensures Operand(env, Export(a)) && Import(Export(a)) == a
  {
    Halves();
    hide Half, Import, Export;
    ExportFits(a, 4);
    ExportMinimal(a);
    ImportUndoesExport(a);
  }

  /** Taking a number away and adding it again: `TUCK SUB ADD` leaves the first of two numbers, unless the
      difference is too long to be one. */
  lemma SubThenAdd(env: Env, base: Items, a: int, b: int)
    requires -0x8000_0000 < a < 0x8000_0000 && -0x8000_0000 < b < 0x8000_0000 && |base| + 3 <= MAX_STACK
    requires -0x8000_0000 < a - b < 0x8000_0000
    ensures EndsWith(Executed(env, [0x7d, 0x94, 0x93], base + [Export(a), Export(b)]), base + [Export(a)])
  {
    hide Run, Exec, Export, Import, Operand;
    ExportOperand(env, a);
    ExportOperand(env, b);
    ExportOperand(env, a - b);
    var x, y, d := Export(a), Export(b), Export(a - b);
    var m := Start([0x7d, 0x94, 0x93], base + [x, y]);
    assert m.rest == [0x7d] + [0x94, 0x93];
    RunOp(env, m, 0x7d, [0x94, 0x93]);
    TuckExec(env, m.(rest := [0x94, 0x93], opcount := 1), base, x, y);
    var m1 := m.(rest := [0x94, 0x93], opcount := 1, stack := base + [y, x, y]);
    assert m1.rest == [0x94] + [0x93] && m1.stack == (base + [y]) + [x, y];
    RunOp(env, m1, 0x94, [0x93]);
    BinaryExec(env, m1.(rest := [0x93], opcount := 2), 0x94, base + [y], x, y);
    var m2 := m1.(rest := [0x93], opcount := 2, stack := base + [y] + [d]);
    assert m2.rest == [0x93] + [] && m2.stack == base + [y, d];
    RunOp(env, m2, 0x93, []);
    BinaryExec(env, m2.(rest := [], opcount := 3), 0x93, base, y, d);
    RunEnd(env, m2.(rest := [], opcount := 3, stack := base + [x]));
  }

  lemma TuckExec(env: Env, m: State, base: Items, x: Item, y: Item)
    requires m.stack == base + [x, y]
    ensures Exec(env, m, 0x7d) == Ok(m.(stack := base + [y, x, y]))
  {
    Effects2(base, x, y);
    hide Shuffled;
  }

  // ----- opcodes on the stack

  /** The shuffles leave what their patterns say, where there are enough items. */
  lemma ShuffleRuns(env: Env, v: byte, s: Items)
    requires Shuffle(v).Some? && Shuffle(v).value.arity <= |s| && |s| + 3 <= MAX_STACK
    ensures EndsWith(Executed(env, [v], s), Shuffling(v, s))
  {
    hide Executed, Shuffled;
    Single(env, v, s);
    ShuffledAt(s, Shuffle(v).value, 0);
  }

  /** Constants. */
  lemma ConstantRuns(env: Env, s: Items, n: int)
    requires |s| < MAX_STACK && 1 <= n <= 16
    ensures EndsWith(Executed(env, [0x4f], s), s + [[0x81]])
    ensures EndsWith(Executed(env, [0x50 + n], s), s + [[n]])
  {
    hide Executed, Export;
    SmallExports();
    Single(env, 0x4f, s);
    Single(env, 0x50 + n, s);
  }

  /** DEPTH, SIZE and IFDUP. */
  lemma QuestionRuns(env: Env, base: Items, x: Item)
    requires |base| + 2 <= MAX_STACK
    ensures var s := base + [x];
            && EndsWith(Executed(env, [0x74], s), s + [Export(|s|)])
            && EndsWith(Executed(env, [0x82], s), s + [Export(|x|)])
            && EndsWith(Executed(env, [0x73], s), if Import(x) != 0 then base + [x, x] else s)
  {
    hide Executed, Export, Truth, Import, Exec;
    var s := base + [x];
    assert s + [x] == base + [x, x];
    TruthIsNonzero(x);
    Single(env, 0x74, s);
    NamesStack(env, State(s, [], [], 1, 0, [], [0x74]));
    Single(env, 0x82, s);
    NamesStack(env, State(s, [], [], 1, 0, [], [0x82]));
    Single(env, 0x73, s);
    NamesStack(env, State(s, [], [], 1, 0, [], [0x73]));
  }

  /** VERIFY goes through exactly on a number that is not zero; RETURN never. */
  lemma VerifyRuns(env: Env, base: Items, x: Item)
    requires |base| < MAX_STACK
    ensures var s := base + [x];
            && (Executed(env, [0x69], s).Ok? <==> Import(x) != 0)
            && (Import(x) != 0 ==> EndsWith(Executed(env, [0x69], s), base))
            && !Executed(env, [0x6a], s).Ok?
  {
    hide Executed, Export, Truth, Import, Exec;
    var s := base + [x];
    assert s[..|base|] == base;
    TruthIsNonzero(x);
    Single(env, 0x69, s);
    NamesStack(env, State(s, [], [], 1, 0, [], [0x69]));
    Single(env, 0x6a, s);
    NamesStack(env, State(s, [], [], 1, 0, [], [0x6a]));
  }

  /** Equality is of the bytes, not of the numbers. */
  lemma EqualRuns(env: Env, base: Items, x: Item, y: Item)
    requires |base| < MAX_STACK
    ensures EndsWith(Executed(env, [0x87], base + [x, y]), base + [Boolean(x == y)])
    ensures Executed(env, [0x88], base + [x, y]).Ok? <==> x == y
    ensures x == y ==> EndsWith(Executed(env, [0x88], base + [x, y]), base)
  {
    hide Executed, Exec;
    assert (base + [x, y])[..|base|] == base;
    Single(env, 0x87, base + [x, y]);
    NamesTests(env, State(base + [x, y], [], [], 1, 0, [], [0x87]));
    Single(env, 0x88, base + [x, y]);
    NamesTests(env, State(base + [x, y], [], [], 1, 0, [], [0x88]));
  }

  lemma HashRuns(env: Env, v: byte, base: Items, x: Item)
    requires |base| < MAX_STACK && 0xa6 <= v <= 0xaa
    ensures EndsWith(Executed(env, [v], base + [x]), base + [env.hash(v, x)])
  {
    hide Executed, Exec;
    Single(env, v, base + [x]);
    HashExec(env, State(base + [x], [], [], 1, 0, [], [v]), v, base, x);
  }

  /** PICK copies, ROLL moves, the item that lies `|top|` deep. */
  lemma PickRuns(env: Env, base: Items, x: Item, top: Items)
    requires |base| + |top| + 2 <= MAX_STACK
    ensures var s := base + [x] + top + [Export(|top|)];
            && EndsWith(Executed(env, [0x79], s), base + [x] + top + [x])
            && EndsWith(Executed(env, [0x7a], s), base + top + [x])
  {
    hide Executed, Exec, Export, Import, Operand;
    var k, t := |top|, base + [x] + top;
    ExportOperand(env, k);
    var s := t + [Export(k)];
    assert s[..|t|] == t && t[|t| - 1 - k] == x && t[..|t| - 1 - k] == base && t[|t| - k..] == top;
    assert Number(env, Export(k), 4) == Some(k) by { OperandNumber(env, Export(k)); }
    hide Number;
    Single(env, 0x79, s);
    NamesPicks(env, State(s, [], [], 1, 0, [], [0x79]));
    Single(env, 0x7a, s);
    NamesPicks(env, State(s, [], [], 1, 0, [], [0x7a]));
  }

  lemma OperandNumber(env: Env, x: Item)
    requires Operand(env, x)
    ensures Number(env, x, 4) == Some(Import(x))
  {}

  /** An absolute or relative lock: the run goes through, leaving the stack, exactly when the number on top
      is not negative and the lock it names is met. */
  lemma LockRuns(env: Env, base: Items, x: Item)
    requires |base| < MAX_STACK && |x| <= 5 && (env.minimal ==> IsMinimal(x)) && env.hasTx
    ensures env.cltv ==> (Executed(env, [0xb1], base + [x]).Ok? <==> Import(x) >= 0 && env.locktime(Import(x)))
    ensures env.csv ==> (Executed(env, [0xb2], base + [x]).Ok? <==> Import(x) >= 0 && env.sequence(Import(x)))
    ensures Executed(env, [0xb1], base + [x]).Ok? ==> EndsWith(Executed(env, [0xb1], base + [x]), base + [x])
    ensures Executed(env, [0xb2], base + [x]).Ok? ==> EndsWith(Executed(env, [0xb2], base + [x]), base + [x])
  {
    hide Executed, Exec, Import, IsMinimal;
    Single(env, 0xb1, base + [x]);
    NamesPicks(env, State(base + [x], [], [], 1, 0, [], [0xb1]));
    Single(env, 0xb2, base + [x]);
    NamesPicks(env, State(base + [x], [], [], 1, 0, [], [0xb2]));
  }

  lemma NopExec(env: Env, m: State, v: byte)
    requires v == 0xb0 || 0xb3 <= v <= 0xb9
    ensures Exec(env, m, v) == if env.discourageNops then Err(DiscourageNops, m.stack) else Ok(m)
  {}

  lemma UnknownExec(env: Env, m: State, v: byte)
    requires v in {0x50, 0x62, 0x65, 0x66, 0x89, 0x8a} || v >= 0xba
    ensures Exec(env, m, v) == Err(BadOpcode, m.stack)
  {
    hide DoShuffle, DoUnary, DoBinary, DoLock, DoIf, DoElse, DoEndif, DoVerify, DoToAlt, DoFromAlt, DoIfdup, DoPick,
      DoSize, DoEqual, DoWithin, DoHash, DoCheckSig, DoMultisig, Export;
  }

  /** Opcodes without effect, and opcodes that nothing defines. */
  lemma OtherRuns(env: Env, v: byte, s: Items)
    requires |s| <= MAX_STACK
    ensures EndsWith(Executed(env, [0x61], s), s)
    ensures v == 0xb0 || 0xb3 <= v <= 0xb9 ==> (Executed(env, [v], s).Ok? <==> !env.discourageNops)
    ensures (v == 0xb0 || 0xb3 <= v <= 0xb9) && !env.discourageNops ==> EndsWith(Executed(env, [v], s), s)
    ensures v in {0x50, 0x62, 0x65, 0x66, 0x89, 0x8a} || v >= 0xba ==> Executed(env, [v], s).Err?
  {
    hide Executed, Exec;
    Single(env, 0x61, s);
    PlainExec(env, State(s, [], [], 1, 0, [], [0x61]));
    var m := State(s, [], [], if v > 0x60 then 1 else 0, 0, [], [v]);
    if v == 0xb0 || 0xb3 <= v <= 0xb9 {
      Single(env, v, s);
      NopExec(env, m, v);
    } else if v in {0x50, 0x62, 0x65, 0x66, 0x89, 0x8a} || v >= 0xba {
      Single(env, v, s);
      UnknownExec(env, m, v);
    }
  }

  /** The second stack keeps an item out of the way: `TOALT SWAP FROMALT` exchanges the two below it. */
  lemma AltRuns(env: Env, base: Items, x: Item, y: Item, z: Item)
    requires |base| + 3 <= MAX_STACK
    ensures EndsWith(Executed(env, [0x6b, 0x7c, 0x6c], base + [x, y, z]), base + [y, x, z])
  {
    hide Run, Exec;
    var m := Start([0x6b, 0x7c, 0x6c], base + [x, y, z]);
    assert m.rest == [0x6b] + [0x7c, 0x6c] && m.stack == (base + [x, y]) + [z];
    RunOp(env, m, 0x6b, [0x7c, 0x6c]);
    ToAltExec(env, m.(rest := [0x7c, 0x6c], opcount := 1), base + [x, y], z);
    var m1 := m.(rest := [0x7c, 0x6c], opcount := 1, stack := base + [x, y], alt := [z]);
    assert [] + [z] == [z];
    assert m1.rest == [0x7c] + [0x6c];
    RunOp(env, m1, 0x7c, [0x6c]);
    SwapExec(env, m1.(rest := [0x6c], opcount := 2), base, x, y);
    var m2 := m1.(rest := [0x6c], opcount := 2, stack := base + [y, x]);
    assert m2.rest == [0x6c] + [] && m2.alt == [] + [z];
    RunOp(env, m2, 0x6c, []);
    FromAltExec(env, m2.(rest := [], opcount := 3), [], z);
    var m3 := m2.(rest := [], opcount := 3, stack := base + [y, x] + [z], alt := []);
    assert m3.stack == base + [y, x, z];
    RunEnd(env, m3);
  }

  lemma ToAltExec(env: Env, m: State, s: Items, z: Item)
    requires m.stack == s + [z]
    ensures Exec(env, m, 0x6b) == Ok(m.(stack := s, alt := m.alt + [z]))
  {
    assert (s + [z])[..|s|] == s;
  }

  lemma FromAltExec(env: Env, m: State, a: Items, z: Item)
    requires m.alt == a + [z]
    ensures Exec(env, m, 0x6c) == Ok(m.(alt := a, stack := m.stack + [z]))
  {
    assert (a + [z])[..|a|] == a;
  }

  lemma SwapExec(env: Env, m: State, base: Items, x: Item, y: Item)
    requires m.stack == base + [x, y]
    ensures Exec(env, m, 0x7c) == Ok(m.(stack := base + [y, x]))
  {
    Effects2(base, x, y);
    hide Shuffled;
  }

  // ----- conditionals

  /** What IF and NOTIF accept: any item, or only the two boolean ones. */
  predicate Condition(env: Env, x: Item) {
    env.minimalIf ==> x == [] || x == [1]
  }

  lemma IfExec(env: Env, m: State, v: byte, base: Items, x: Item)
    requires v in {0x63, 0x64} && m.negate == 0 && m.stack == base + [x]
    ensures var run := (Import(x) != 0) == (v == 0x63);
            if Condition(env, x) then
              Exec(env, m, v) == Ok(m.(stack := base, conds := m.conds + [run], negate := if run then 0 else 1))
            else Exec(env, m, v).Err?
  {
    BranchExec(env, m, v);
    hide Exec, Truth, Import;
    TruthIsNonzero(x);
    assert (base + [x])[..|base|] == base;
  }

  lemma ElseExec(env: Env, m: State, run: bool)
    requires m.conds == [run] && m.negate == if run then 0 else 1
    ensures Exec(env, m, 0x67) == Ok(m.(conds := [!run], negate := if run then 1 else 0))
    ensures Exec(env, m, 0x68) == Ok(m.(conds := [], negate := 0))
  {
    BranchExec(env, m, 0x67);
    BranchExec(env, m, 0x68);
    hide Exec;
    assert [run][0 := !run] == [!run] && [run][..0] == [];
  }

  lemma ConstantExec(env: Env, m: State, n: int)
    requires 1 <= n <= 16
    ensures Exec(env, m, 0x50 + n) == Ok(m.(stack := m.stack + [[n]]))
  {
    SmallExports();
    hide Export;
  }

  /** `1` or `2`, where code is run or not. */
  lemma ConstantTurn(env: Env, m: State, n: int, t: seq<byte>)
    requires 1 <= n <= 16 && m.rest == [0x50 + n] + t && |m.stack| + |m.alt| < MAX_STACK && m.opcount < MAX_OPS
    ensures Run(env, m) == Run(env, m.(rest := t, stack := if m.negate == 0 then m.stack + [[n]] else m.stack))
  {
    hide Run, Exec;
    if m.negate == 0 {
      RunOp(env, m, 0x50 + n, t);
      ConstantExec(env, m.(rest := t), n);
    } else {
      RunSkip(env, m, 0x50 + n, t);
    }
  }

  /** `IF 1 ELSE 2 ENDIF`, and with NOTIF: a number that is not zero chooses the first branch of IF, and the
      second of NOTIF; one branch is run, and only that one. */
  lemma ChoiceRuns(env: Env, base: Items, x: Item, v: byte)
    requires |base| < MAX_STACK && v in {0x63, 0x64}
    ensures var r := Executed(env, [v, 0x51, 0x67, 0x52, 0x68], base + [x]);
            && (r.Ok? <==> Condition(env, x))
            && (r.Ok? ==> EndsWith(r, base + [if (Import(x) != 0) == (v == 0x63) then [1] else [2]]))
  {
    hide Run, Exec, Import;
    var m := Start([v, 0x51, 0x67, 0x52, 0x68], base + [x]);
    var t := [0x51, 0x67, 0x52, 0x68];
    assert m.rest == [v] + t && t == [0x50 + 1] + [0x67, 0x52, 0x68];
    RunOp(env, m, v, t);
    IfExec(env, m.(rest := t, opcount := 1), v, base, x);
    if Condition(env, x) {
      var run := (Import(x) != 0) == (v == 0x63);
      var n := if run then 0 else 1;
      assert [] + [run] == [run];
      var m1 := m.(rest := t, opcount := 1, stack := base, conds := [run], negate := n);
      ConstantTurn(env, m1, 1, [0x67, 0x52, 0x68]);
      var m2 := m1.(rest := [0x67, 0x52, 0x68], stack := if run then base + [[1]] else base);
      ChoiceEnds(env, m2, run);
    }
  }

  lemma ChoiceEnds(env: Env, m: State, run: bool)
    requires m.rest == [0x67, 0x52, 0x68] && m.conds == [run] && m.negate == (if run then 0 else 1)
    requires m.opcount == 1 && m.alt == [] && |m.stack| + (if run then 0 else 1) <= MAX_STACK
    ensures EndsWith(Run(env, m), if run then m.stack else m.stack + [[2]])
  {
    hide Run, Exec;
    assert m.rest == [0x67] + [0x52, 0x68];
    RunOp(env, m, 0x67, [0x52, 0x68]);
    ElseExec(env, m.(rest := [0x52, 0x68], opcount := 2), run);
    var m1 := m.(rest := [0x52, 0x68], opcount := 2, conds := [!run], negate := if run then 1 else 0);
    assert m1.rest == [0x50 + 2] + [0x68];
    if run {
      RunSkip(env, m1, 0x52, [0x68]);
    } else {
      ConstantTurn(env, m1, 2, [0x68]);
    }
    var m2 := m1.(rest := [0x68], stack := if run then m.stack else m.stack + [[2]]);
    assert m2.rest == [0x68] + [];
    RunOp(env, m2, 0x68, []);
    ElseExec(env, m2.(rest := [], opcount := 3), !run);
    RunEnd(env, m2.(rest := [], opcount := 3, conds := [], negate := 0));
  }

  /** Opcodes that fail wherever they stand. */
  const DISABLED: set<byte> := {0x7e, 0x7f, 0x80, 0x81, 0x83, 0x84, 0x85, 0x86, 0x8d, 0x8e, 0x95, 0x96, 0x97, 0x98, 0x99}

  /** Inside `0 IF ... ENDIF` any single opcode is passed over, known or not, except the disabled ones and
      the branches of unknown kind. */
  lemma PassedOver(env: Env, s: Items, v: byte)
    requires |s| < MAX_STACK && v > PUSHDATA4 && v !in {0x63, 0x64, 0x67, 0x68}
    ensures var r := Executed(env, [0x00, 0x63, v, 0x68], s);
            && (r.Ok? <==> v !in DISABLED && v != 0x65 && v != 0x66)
            && (r.Ok? ==> EndsWith(r, s))
  {
    hide Run, Exec, Import;
    var m := Start([0x00, 0x63, v, 0x68], s);
    var t := [0x63, v, 0x68];
    ShortPush([]);
    assert m.rest == Written(PushOf([])) + t && t == [0x63] + [v, 0x68];
    RunPush(env, m, [], t);
    var m1 := m.(rest := t, stack := s + [[]]);
    RunOp(env, m1, 0x63, [v, 0x68]);
    assert Import([]) == 0 by { SmallExports(); ImportUndoesExport(0); }
    IfExec(env, m1.(rest := [v, 0x68], opcount := 1), 0x63, s, []);
    assert [] + [false] == [false];
    var m2 := m1.(rest := [v, 0x68], opcount := 1, stack := s, conds := [false], negate := 1);
    assert m2.rest == [v] + [0x68];
    if IsBranch(v) {
      RunOp(env, m2, v, [0x68]);
      BranchExec(env, m2.(rest := [0x68], opcount := 2), v);
    } else {
      RunSkip(env, m2, v, [0x68]);
      var m3 := m2.(rest := [0x68], opcount := Counted(v, 1));
      assert m3.rest == [0x68] + [];
      RunOp(env, m3, 0x68, []);
      ElseExec(env, m3.(rest := [], opcount := m3.opcount + 1), false);
      RunEnd(env, m3.(rest := [], opcount := m3.opcount + 1, conds := [], negate := 0));
    }
  }

  // ----- limits

  function Repeated(v: byte, n: nat): (s: seq<byte>)
    ensures |s| == n
  {
    if n == 0 then [] else [v] + Repeated(v, n - 1)
  }

  lemma {:induction false} NopsRun(env: Env, m: State, n: nat)
    requires m.rest == Repeated(0x61, n) && m.negate == 0 && m.conds == [] && |m.stack| + |m.alt| <= MAX_STACK
    ensures Run(env, m).Ok? <==> n == 0 || m.opcount + n <= MAX_OPS
    ensures Run(env, m).Ok? ==> Run(env, m).value.stack == m.stack
    decreases n
  {
    hide Run, Exec;
    if n == 0 {
      RunEnd(env, m);
    } else {
      var t := Repeated(0x61, n - 1);
      if m.opcount < MAX_OPS {
        RunOp(env, m, 0x61, t);
        var m1 := m.(rest := t, opcount := m.opcount + 1);
        PlainExec(env, m1);
        NopsRun(env, m1, n - 1);
      } else {
        TooManyOps(env, m, t);
      }
    }
  }

  lemma TooManyOps(env: Env, m: State, t: seq<byte>)
    requires m.rest == [0x61] + t && m.opcount >= MAX_OPS
    ensures Run(env, m).Err?
  {
    ParseBare(0x61, t);
    RunStep(env, m);
    hide Run, Exec, ParseOpcode;
  }

  lemma {:induction false} ConstantsRun(env: Env, m: State, n: nat)
    requires m.rest == Repeated(0x51, n) && m.negate == 0 && m.conds == [] && m.opcount < MAX_OPS
    ensures Run(env, m).Ok? <==> n == 0 || |m.stack| + |m.alt| + n <= MAX_STACK
    decreases n
  {
    hide Run, Exec;
    if n == 0 {
      RunEnd(env, m);
    } else {
      var t := Repeated(0x51, n - 1);
      RunOp(env, m, 0x51, t);
      ConstantExec(env, m.(rest := t), 1);
      if |m.stack| + |m.alt| < MAX_STACK {
        ConstantsRun(env, m.(rest := t, stack := m.stack + [[1]]), n - 1);
      }
    }
  }

  /** The limits, in scripts: 201 operations that are not pushes, 1000 items on the stacks, 10000 bytes. */
  lemma LimitRuns(env: Env, n: nat)
    ensures Executed(env, Repeated(0x61, n), []).Ok? <==> n <= 201
    ensures Executed(env, Repeated(0x51, n), []).Ok? <==> n <= 1000
    ensures n > 10000 ==> forall s, stack :: |s| == n ==> Executed(env, s, stack) == Err(ScriptSize, stack)
  {
    hide Run, Repeated;
    NopsRun(env, Start(Repeated(0x61, n), []), n);
    ConstantsRun(env, Start(Repeated(0x51, n), []), n);
  }

  /** A push of up to 520 bytes leaves its item. */
  lemma PushRuns(env: Env, x: Item, s: Items)
    requires |x| <= 0xffff && |s| < MAX_STACK && (|x| == 1 ==> x[0] != 0x81 && !(1 <= x[0] <= 16))
    requires |Written(PushOf(x))| <= MAX_SCRIPT_SIZE
    ensures Executed(env, Written(PushOf(x)), s).Ok? <==> |x| <= 520
    ensures |x| <= 520 ==> EndsWith(Executed(env, Written(PushOf(x)), s), s + [x])
  {
    hide Run, Written;
    var w := Written(PushOf(x));
    var m := Start(w, s);
    assert w == w + [];
    if |x| <= 520 {
      RunPush(env, m, x, []);
      RunEnd(env, m.(rest := [], stack := s + [x]));
    } else {
      ParseUndoesWrite(PushOf(x), []);
      RunStep(env, m);
      TooLong(env, m, x);
    }
  }

  lemma TooLong(env: Env, m: State, x: Item)
    requires ParseOpcode(m.rest) == Some(Parsed(PushOf(x), [])) && |x| > MAX_PUSH
    ensures Next(env, m).Err?
  {
    hide ParseOpcode;
  }

  // ----- minimal pushes

  /** A single opcode that leaves the item. */
  ghost predicate Leaves(op: Opcode, x: Item) {
    WellFormed(op) &&
    if op.value <= PUSHDATA4 then op.data == x
    else if op.value == 0x4f then x == [0x81]
    else 0x51 <= op.value <= 0x60 && x == [op.value - 0x50]
  }

  /** A push is minimal exactly when no other opcode leaving its item is shorter. */
  lemma MinimalIsShortest(op: Opcode)
    requires WellFormed(op) && op.value <= PUSHDATA4
    ensures MinimalPush(op) <==> forall o :: Leaves(o, op.data) ==> |Written(op)| <= |Written(o)|
  {
    hide Written;
    WrittenSize(op);
    var x := op.data;
    forall o | Leaves(o, x) ensures |Written(o)| == OpcodeSize(o) {
      WrittenSize(o);
    }
    PushShortest(op);
    if |x| == 1 && 1 <= x[0] <= 16 {
      assert Leaves(Opcode(0x50 + x[0], []), x);
    } else if x == [0x81] {
      assert Leaves(Opcode(0x4f, []), x);
    } else {
      assert Leaves(PushOf(x), x);
    }
  }

  /** Where minimal pushes are asked for, exactly those go through. */
  lemma MinimalRuns(env: Env, op: Opcode, s: Items)
    requires WellFormed(op) && op.value <= PUSHDATA4 && |op.data| <= MAX_PUSH && |s| < MAX_STACK
    ensures var r := Executed(env, Written(op), s);
            && (r.Ok? <==> !env.minimal || MinimalPush(op))
            && (r.Ok? ==> EndsWith(r, s + [op.data]))
  {
    WrittenSize(op);
    hide Run, Written, Exec, MinimalPush, ParseOpcode;
    var m := Start(Written(op), s);
    assert Written(op) == Written(op) + [];
    ParseUndoesWrite(op, []);
    RunStep(env, m);
    RunEnd(env, m.(rest := [], stack := s + [op.data]));
  }

  // ----- several signatures

  /** Not the push of one of these items. */
  predicate Kept(op: Opcode, sigs: Items) {
    !(op.data in sigs && op == PushOf(op.data))
  }

  function KeptOps(ops: seq<Opcode>, sigs: Items): (r: seq<Opcode>) {
    if ops == [] then [] else (if Kept(ops[0], sigs) then [ops[0]] else []) + KeptOps(ops[1..], sigs)
  }

  lemma {:induction false} KeptNone(ops: seq<Opcode>)
    ensures KeptOps(ops, []) == ops
  {
    if ops != [] {
      KeptNone(ops[1..]);
      assert ops == [ops[0]] + ops[1..];
    }
  }

  lemma {:induction false} KeptMore(ops: seq<Opcode>, sigs: Items, sig: Item)
    ensures Without(KeptOps(ops, sigs), PushOf(sig)) == KeptOps(ops, sigs + [sig])
  {
    if ops != [] {
      var op, r := ops[0], KeptOps(ops[1..], sigs);
      KeptMore(ops[1..], sigs, sig);
      assert Kept(op, sigs + [sig]) <==> Kept(op, sigs) && op != PushOf(sig);
      if Kept(op, sigs) {
        WithoutCons(op, r, PushOf(sig));
      } else {
        assert [] + r == r;
      }
    }
  }

  /** The order of the signatures does not matter, only which they are. */
  lemma {:induction false} KeptSame(ops: seq<Opcode>, sigs: Items, sigs': Items)
    requires forall x :: x in sigs <==> x in sigs'
    ensures KeptOps(ops, sigs) == KeptOps(ops, sigs')
  {
    if ops != [] {
      KeptSame(ops[1..], sigs, sigs');
    }
  }

  /** The script that is signed: in version 0, the script without the pushes of any of the signatures. */
  lemma {:induction false} SubscriptExact(env: Env, script: seq<byte>, sigs: Items)
    ensures env.legacy ==> Ops(Subscript(env, script, sigs)) == KeptOps(Ops(script), sigs)
                           && Tail(Subscript(env, script, sigs)) == Tail(script)
    ensures Subscript(env, script, sigs) ==
            if env.legacy then WrittenAll(KeptOps(Ops(script), sigs)) + Tail(script) else script
    decreases |sigs|
  {
    hide Ops, Tail, Deleted, WrittenAll, KeptOps, PushOf;
    if env.legacy {
      if sigs == [] {
        KeptNone(Ops(script));
      } else {
        var n := |sigs| - 1;
        var s := Subscript(env, script, sigs[..n]);
        SubscriptExact(env, script, sigs[..n]);
        DeletedParts(s, PushOf(sigs[n]));
        KeptMore(Ops(script), sigs[..n], sigs[n]);
        assert sigs == sigs[..n] + [sigs[n]];
      }
      ScriptParts(Subscript(env, script, sigs));
    }
  }

  function Reversed<T>(s: seq<T>): (r: seq<T>)
    ensures |r| == |s| && forall i :: 0 <= i < |s| ==> r[i] == s[|s| - 1 - i]
  {
    seq(|s|, i requires 0 <= i < |s| => s[|s| - 1 - i])
  }

  /** An assignment, read from the other end. */
  lemma AssignmentReversed<S, K>(f: seq<int>, sigs: seq<S>, keys: seq<K>, ok: (S, K) -> bool)
    requires Assignment(f, sigs, keys, ok)
    ensures Assignable(Reversed(sigs), Reversed(keys), ok)
  {
    var n, k := |keys|, |f|;
    var g := seq(k, i requires 0 <= i < k => n - 1 - f[k - 1 - i]);
    forall i | 0 <= i < k ensures 0 <= g[i] < n && ok(Reversed(sigs)[i], Reversed(keys)[g[i]]) {
      var j := k - 1 - i;
      assert 0 <= f[j] < n && ok(sigs[j], keys[f[j]]);
      assert Reversed(sigs)[i] == sigs[j] && Reversed(keys)[g[i]] == keys[f[j]];
    }
    assert Assignment(g, Reversed(sigs), Reversed(keys), ok);
  }

  lemma AssignableReversed<S, K>(sigs: seq<S>, keys: seq<K>, ok: (S, K) -> bool)
    ensures Assignable(sigs, keys, ok) <==> Assignable(Reversed(sigs), Reversed(keys), ok)
  {
    if f :| Assignment(f, sigs, keys, ok) { AssignmentReversed(f, sigs, keys, ok); }
    if f :| Assignment(f, Reversed(sigs), Reversed(keys), ok) {
      AssignmentReversed(f, Reversed(sigs), Reversed(keys), ok);
      assert Reversed(Reversed(sigs)) == sigs && Reversed(Reversed(keys)) == keys;
    }
  }

  function Pushes(keys: Items): (s: seq<byte>) {
    if keys == [] then [] else Written(PushOf(keys[0])) + Pushes(keys[1..])
  }

  /** Items whose push is minimal and not too long. */
  predicate Pushable(keys: Items) {
    forall i :: 0 <= i < |keys| ==> |keys[i]| <= MAX_PUSH && (|keys[i]| == 1 ==> keys[i][0] != 0x81 && !(1 <= keys[i][0] <= 16))
  }

  lemma {:induction false} RunPushes(env: Env, m: State, keys: Items, t: seq<byte>)
    requires m.rest == Pushes(keys) + t && m.negate == 0 && Pushable(keys)
    requires |m.stack| + |m.alt| + |keys| <= MAX_STACK
    ensures Run(env, m) == Run(env, m.(rest := t, stack := m.stack + keys))
    decreases |keys|
  {
    hide Run, Written, PushOf;
    if keys == [] {
      assert [] + t == t && m.stack + [] == m.stack;
    } else {
      var k, rest := keys[0], Pushes(keys[1..]) + t;
      assert m.rest == Written(PushOf(k)) + rest;
      assert MinimalPush(PushOf(k)) by { PushMinimal(k); }
      RunPush(env, m, k, rest);
      RunPushes(env, m.(rest := rest, stack := m.stack + [k]), keys[1..], t);
      assert m.stack + [k] + keys[1..] == m.stack + keys;
    }
  }

  lemma PushMinimal(x: Item)
    requires |x| <= MAX_PUSH && (|x| == 1 ==> x[0] != 0x81 && !(1 <= x[0] <= 16))
    ensures MinimalPush(PushOf(x))
  {}

  lemma {:induction false} PushesSize(keys: Items)
    requires Pushable(keys)
    ensures |Pushes(keys)| <= 523 * |keys|
  {
    hide Written;
    if keys != [] {
      PushesSize(keys[1..]);
      WrittenSize(PushOf(keys[0]));
    }
  }

  /** `k <key> ... <key> n CHECKMULTISIG`, or the VERIFY form. */
  function MultisigScript(k: nat, keys: Items, check: byte): (s: seq<byte>)
    requires 1 <= k <= |keys| <= 16
  {
    [0x50 + k] + Pushes(keys) + [0x50 + |keys|, check]
  }

  /** The state the check starts from. */
  lemma MultisigOpens(env: Env, base: Items, dummy: Item, sigs: Items, keys: Items, check: byte)
    requires 1 <= |sigs| <= |keys| <= 16 && Pushable(keys) && |base| + 35 <= MAX_STACK
    ensures var s := MultisigScript(|sigs|, keys, check);
            Executed(env, s, base + [dummy] + sigs) ==
            Run(env, State(base + [dummy] + sigs + [[|sigs|]] + keys + [[|keys|]], [], [], 0, 0, [check], s))
  {
    hide Run, Exec, Pushes, Pushable;
    var k, n, s := |sigs|, |keys|, MultisigScript(|sigs|, keys, check);
    PushesSize(keys);
    var m := Start(s, base + [dummy] + sigs);
    var t := [0x50 + n, check];
    assert s == [0x50 + k] + (Pushes(keys) + t);
    ConstantTurn(env, m, k, Pushes(keys) + t);
    var m1 := m.(rest := Pushes(keys) + t, stack := m.stack + [[k]]);
    RunPushes(env, m1, keys, t);
    var m2 := m1.(rest := t, stack := m1.stack + keys);
    assert t == [0x50 + n] + [check];
    ConstantTurn(env, m2, n, [check]);
  }

  /** No pair of signature and key is refused. */
  ghost predicate NoneRefused(env: Env, sigs: Items, keys: Items) {
    forall i, j :: 0 <= i < |sigs| && 0 <= j < |keys| ==> env.refuse(sigs[i], keys[j]).None?
  }

  lemma {:induction false} ScanDecides(env: Env, sigs: Items, keys: Items, ok: (Item, Item) -> bool)
    requires NoneRefused(env, sigs, keys)
    ensures Scan(sigs, keys, ok, env.refuse).Decided?
    decreases |keys|
  {
    if sigs != [] && |sigs| <= |keys| {
      var sigs' := if ok(sigs[0], keys[0]) then sigs[1..] else sigs;
      assert NoneRefused(env, sigs', keys[1..]);
      ScanDecides(env, sigs', keys[1..], ok);
    }
  }

  /** The state in which the counts are read. */
  lemma CountsAnnounced(env: Env, m: State, base: Items, dummy: Item, sigs: Items, keys: Items)
    requires 1 <= |sigs| <= |keys| <= 16 && m.opcount + |keys| <= MAX_OPS && env.hasTx
    requires m.stack == base + [dummy] + sigs + [[|sigs|]] + keys + [[|keys|]]
    ensures Announced(env, m, |keys|, |sigs|)
    ensures Sigs(m.stack, |keys|, |sigs|) == Reversed(sigs) && Keys(m.stack, |keys|) == Reversed(keys)
    ensures m.stack[..|m.stack| - |keys| - |sigs| - 3] == base && m.stack[|m.stack| - |keys| - |sigs| - 3] == dummy
  {
    hide Import, IsMinimal, Export, Operand;
    var k, n := |sigs|, |keys|;
    SmallExports();
    ExportOperand(env, k);
    ExportOperand(env, n);
    OperandNumber(env, [k]);
    OperandNumber(env, [n]);
    hide Number;
  }

  /** What a successful check leaves. */
  function Answer(base: Items, check: byte): (s: Items) {
    if check == 0xae then base + [[1]] else base
  }

  lemma MultisigEnds(env: Env, m: State, base: Items, dummy: Item, sigs: Items, keys: Items, check: byte)
    requires 1 <= |sigs| <= |keys| <= 16 && |base| < MAX_STACK
    requires m.stack == base + [dummy] + sigs + [[|sigs|]] + keys + [[|keys|]]
    requires m.opcount == 0 && m.negate == 0 && m.conds == [] && m.alt == [] && m.rest == [check] && check in {0xae, 0xaf}
    ensures var ok := Verifier(env, Subscript(env, m.begin, Reversed(sigs)));
            EndsWith(Run(env, m), Answer(base, check)) <==>
              && env.hasTx && (env.nullDummy ==> dummy == [])
              && Scan(Reversed(sigs), Reversed(keys), ok, env.refuse) == Decided(true)
  {
    hide Run, Exec, DoMultisig, Scan, Verifier, Subscript, Sigs, Keys;
    assert m.rest == [check] + [];
    RunOp(env, m, check, []);
    var m1 := m.(rest := [], opcount := 1);
    MultisigNamed(env, m1, check);
    if !env.hasTx {
      NothingToSign(env, m1, check);
    } else {
      var k, n := |sigs|, |keys|;
      CountsAnnounced(env, m1, base, dummy, sigs, keys);
      AnnouncedRuns(env, m1, check, n, k);
      var r := DoMultisigSigs(env, m1.(opcount := 1 + n), check, n, k);
      if r.Ok? {
        RunEnd(env, r.value);
        assert (base + [[1]])[|base|] != (base + [[]])[|base|];
      }
    }
  }

  lemma NothingToSign(env: Env, m: State, check: byte)
    requires !env.hasTx
    ensures DoMultisig(env, m, check).Err?
  {}

  lemma MultisigNamed(env: Env, m: State, check: byte)
    requires check in {0xae, 0xaf}
    ensures Exec(env, m, check) == DoMultisig(env, m, check)
  {
    hide DoMultisig;
  }

  /** Paying to k of n keys: the run leaves true (with the VERIFY form: goes through) exactly when the signatures verify, in their order, under
      different keys in theirs, and the dummy item is empty where that is asked; the one exception is a
      pair that the scan tries and that is refused. */
  lemma PayToMultisig(env: Env, base: Items, dummy: Item, sigs: Items, keys: Items, check: byte)
    requires check in {0xae, 0xaf}
    requires 1 <= |sigs| <= |keys| <= 16 && Pushable(keys) && |base| + 35 <= MAX_STACK
    ensures var s := MultisigScript(|sigs|, keys, check);
            var ok := (sig: Item, key: Item) => sig != [] && env.verify(Subscript(env, s, sigs), sig, key);
            var ends := EndsWith(Executed(env, s, base + [dummy] + sigs), if check == 0xae then base + [[1]] else base);
            && (ends ==> env.hasTx && (env.nullDummy ==> dummy == []) && Assignable(sigs, keys, ok))
            && (NoneRefused(env, sigs, keys) ==>
                (ends <==> env.hasTx && (env.nullDummy ==> dummy == []) && Assignable(sigs, keys, ok)))
  {
    hide Run, Executed, Scan, Assignable, Subscript, Pushable, MultisigScript, EndsWith, KeptOps, Ops, Tail, WrittenAll;
    var s := MultisigScript(|sigs|, keys, check);
    var sub := Subscript(env, s, sigs);
    MultisigOpens(env, base, dummy, sigs, keys, check);
    MultisigEnds(env, State(base + [dummy] + sigs + [[|sigs|]] + keys + [[|keys|]], [], [], 0, 0, [check], s),
                 base, dummy, sigs, keys, check);
    SubscriptExact(env, s, sigs);
    SubscriptExact(env, s, Reversed(sigs));
    SameMembers(sigs);
    KeptSame(Ops(s), sigs, Reversed(sigs));
    var ok, ok' := Verifier(env, sub), (sig: Item, key: Item) => sig != [] && env.verify(Subscript(env, s, sigs), sig, key);
    if Scan(Reversed(sigs), Reversed(keys), ok, env.refuse).Decided? {
      ScanComplete(Reversed(sigs), Reversed(keys), ok, env.refuse);
    }
    AssignableReversed(sigs, keys, ok);
    SameVerifier(sigs, keys, ok, ok');
    if NoneRefused(env, sigs, keys) {
      assert NoneRefused(env, Reversed(sigs), Reversed(keys));
      ScanDecides(env, Reversed(sigs), Reversed(keys), ok);
    }
  }

  lemma SameMembers(s: Items)
    ensures forall x :: x in s <==> x in Reversed(s)
  {
    forall x | x in s ensures x in Reversed(s) {
      var i :| 0 <= i < |s| && s[i] == x;
      assert Reversed(s)[|s| - 1 - i] == x;
    }
  }

  lemma SameVerifier(sigs: Items, keys: Items, ok: (Item, Item) -> bool, ok': (Item, Item) -> bool)
    requires forall x, y :: ok(x, y) == ok'(x, y)
    ensures Assignable(sigs, keys, ok) <==> Assignable(sigs, keys, ok')
  {
    if f :| Assignment(f, sigs, keys, ok) { assert Assignment(f, sigs, keys, ok'); }
    if f :| Assignment(f, sigs, keys, ok') { assert Assignment(f, sigs, keys, ok); }
  }
}
