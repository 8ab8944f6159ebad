/** The script machine: what each opcode does to the state, what a whole run does, and what every run
    keeps. */
module Machine {
  import opened Wire
  import opened ScriptNum
  import opened Opcodes
  import opened Multisig
  import opened ScriptStack

  datatype Error =
    | UnknownError | OpReturn | ScriptSize | PushSize | OpCount | StackSize | SigCount | PubkeyCount
    | Verify | EqualVerify | CheckMultisigVerify | CheckSigVerify | NumEqualVerify
    | BadOpcode | DisabledOpcode | InvalidStack | InvalidAltStack | Unbalanced
    | NegativeLocktime | UnsatisfiedLocktime | MinimalData | MinimalIf | NullFail | NullDummy
    | DiscourageNops | Encoding(code: nat)

  /** An error comes with the stack as it is left. */
  datatype Result<+T> = Ok(value: T) | Err(error: Error, left: Items)

  type Digest = s: seq<byte> | |s| <= 32

  /** What the machine runs in. Flags stand for themselves; `minimalIf` holds for witness scripts only;
      `legacy` is script version 0. Locktime checks, hashes, signature checks (for a subscript, a
      non-empty signature and a key) and encoding checks are given. */
  datatype Env = Env(
    minimal: bool, cltv: bool, csv: bool, discourageNops: bool, minimalIf: bool, nullFail: bool,
    nullDummy: bool, legacy: bool, hasTx: bool,
    locktime: int -> bool, sequence: int -> bool, hash: (byte, Item) -> Digest,
    verify: (seq<byte>, Item, Item) -> bool, refuse: (Item, Item) -> Option<Error>)

  datatype State = State(stack: Items, alt: Items, conds: seq<bool>, opcount: nat, negate: int,
                         rest: seq<byte>, begin: seq<byte>)

  const MAX_SCRIPT_SIZE: nat := 10000
  const MAX_STACK: nat := 1000
  const MAX_PUSH: nat := 520
  const MAX_OPS: nat := 201
  const MAX_KEYS: nat := 20

  // ----- stack shuffles

  /** The top `arity` items are replaced by some of them, named by their place among those items. */
  datatype Pattern = Pattern(arity: nat, out: seq<nat>)

  predicate ValidPattern(p: Pattern) {
    forall i :: 0 <= i < |p.out| ==> p.out[i] < p.arity
  }

  function Shuffle(v: byte): (p: Option<Pattern>)
    ensures p.Some? ==> ValidPattern(p.value)
  {
    match v
    case 0x6d => Some(Pattern(2, []))                    // 2DROP
    case 0x6e => Some(Pattern(2, [0, 1, 0, 1]))          // 2DUP
    case 0x6f => Some(Pattern(3, [0, 1, 2, 0, 1, 2]))    // 3DUP
    case 0x70 => Some(Pattern(4, [0, 1, 2, 3, 0, 1]))    // 2OVER
    case 0x71 => Some(Pattern(6, [2, 3, 4, 5, 0, 1]))    // 2ROT
    case 0x72 => Some(Pattern(4, [2, 3, 0, 1]))          // 2SWAP
    case 0x75 => Some(Pattern(1, []))                    // DROP
    case 0x76 => Some(Pattern(1, [0, 0]))                // DUP
    case 0x77 => Some(Pattern(2, [1]))                   // NIP
    case 0x78 => Some(Pattern(2, [0, 1, 0]))             // OVER
    case 0x7b => Some(Pattern(3, [1, 2, 0]))             // ROT
    case 0x7c => Some(Pattern(2, [1, 0]))                // SWAP
    case 0x7d => Some(Pattern(2, [1, 0, 1]))             // TUCK
    case _ => None
  }

  function Shuffled(s: Items, p: Pattern): (r: Items)
    requires p.arity <= |s| && ValidPattern(p)
  {
    s[..|s| - p.arity] + seq(|p.out|, i requires 0 <= i < |p.out| => s[|s| - p.arity + p.out[i]])
  }

  function DoShuffle(m: State, p: Pattern): (r: Result<State>)
    requires ValidPattern(p)
  {
    if |m.stack| < p.arity then Err(InvalidStack, m.stack) else Ok(m.(stack := Shuffled(m.stack, p)))
  }

  // ----- numbers

  function Boolean(b: bool): (x: Item) {
    if b then [1] else []
  }

  function Bit(b: bool): (n: int) {
    if b then 1 else 0
  }

  /** An item as a number; only short items are numbers, and only minimal ones where that is asked. */
  function Number(env: Env, x: Item, limit: nat): (n: Option<int>) {
    if |x| > limit || (env.minimal && !IsMinimal(x)) then None else Some(Import(x))
  }

  /** ... saturated to 32 bits. */
  function Saturated(n: int): (r: int) {
    if n < -0x8000_0000 then -0x8000_0000 else if n > 0x7fff_ffff then 0x7fff_ffff else n
  }

  function Unary(v: byte, n: int): (r: Option<int>) {
    match v
    case 0x8b => Some(n + 1)
    case 0x8c => Some(n - 1)
    case 0x8f => Some(-n)
    case 0x90 => Some(Abs(n))
    case 0x91 => Some(Bit(n == 0))
    case 0x92 => Some(Bit(n != 0))
    case _ => None
  }

  function Binary(v: byte, a: int, b: int): (r: Option<int>) {
    match v
    case 0x93 => Some(a + b)
    case 0x94 => Some(a - b)
    case 0x9a => Some(Bit(a != 0 && b != 0))
    case 0x9b => Some(Bit(a != 0 || b != 0))
    case 0x9c => Some(Bit(a == b))
    case 0x9d => Some(Bit(a == b))
    case 0x9e => Some(Bit(a != b))
    case 0x9f => Some(Bit(a < b))
    case 0xa0 => Some(Bit(a > b))
    case 0xa1 => Some(Bit(a <= b))
    case 0xa2 => Some(Bit(a >= b))
    case 0xa3 => Some(if a < b then a else b)
    case 0xa4 => Some(if a > b then a else b)
    case _ => None
  }

  function DoUnary(env: Env, m: State, v: byte): (r: Result<State>) {
    var n := |m.stack|;
    if n < 1 then Err(InvalidStack, m.stack) else
      var x := Number(env, m.stack[n - 1], 4);
      if x.None? then Err(UnknownError, m.stack) else
        var y := Unary(v, x.value);
        if y.None? then Err(BadOpcode, m.stack) else Ok(m.(stack := m.stack[..n - 1] + [Export(y.value)]))
  }

  function DoBinary(env: Env, m: State, v: byte): (r: Result<State>) {
    var n := |m.stack|;
    if n < 2 then Err(InvalidStack, m.stack) else
      var a, b := Number(env, m.stack[n - 2], 4), Number(env, m.stack[n - 1], 4);
      if a.None? || b.None? then Err(UnknownError, m.stack) else
        var y := Binary(v, a.value, b.value);
        if y.None? then Err(BadOpcode, m.stack)
        else if v == 0x9d then
          if y.value == 0 then Err(NumEqualVerify, m.stack[..n - 2] + [Export(0)]) else Ok(m.(stack := m.stack[..n - 2]))
        else Ok(m.(stack := m.stack[..n - 2] + [Export(y.value)]))
  }

  function DoWithin(env: Env, m: State): (r: Result<State>) {
    var n := |m.stack|;
    if n < 3 then Err(InvalidStack, m.stack) else
      var a, lo, hi := Number(env, m.stack[n - 3], 4), Number(env, m.stack[n - 2], 4), Number(env, m.stack[n - 1], 4);
      if a.None? || lo.None? || hi.None? then Err(UnknownError, m.stack)
      else Ok(m.(stack := m.stack[..n - 3] + [Boolean(lo.value <= a.value < hi.value)]))
  }

  // ----- conditionals

  function CountFalse(s: seq<bool>): (n: nat)
    ensures n <= |s|
  {
    if s == [] then 0 else CountFalse(s[..|s| - 1]) + if s[|s| - 1] then 0 else 1
  }

  lemma {:induction false} NoneFalse(s: seq<bool>)
    ensures CountFalse(s) == 0 <==> forall i :: 0 <= i < |s| ==> s[i]
  {
    if s != [] {
      NoneFalse(s[..|s| - 1]);
    }
  }

  function DoIf(env: Env, m: State, v: byte): (r: Result<State>) {
    if m.negate != 0 then Ok(m.(conds := m.conds + [false], negate := m.negate + 1))
    else if |m.stack| < 1 then Err(Unbalanced, m.stack)
    else
      var n := |m.stack| - 1;
      var x := m.stack[n];
      if env.minimalIf && !(x == [] || x == [1]) then Err(MinimalIf, m.stack)
      else
        var val := Truth(x) != (v == 0x64);
        Ok(m.(stack := m.stack[..n], conds := m.conds + [val], negate := m.negate + if val then 0 else 1))
  }

  function DoElse(m: State): (r: Result<State>) {
    if m.conds == [] then Err(Unbalanced, m.stack) else
      var k := |m.conds| - 1;
      Ok(m.(conds := m.conds[k := !m.conds[k]], negate := m.negate + if m.conds[k] then 1 else -1))
  }

  function DoEndif(m: State): (r: Result<State>) {
    if m.conds == [] then Err(Unbalanced, m.stack) else
      var k := |m.conds| - 1;
      Ok(m.(conds := m.conds[..k], negate := m.negate - if m.conds[k] then 0 else 1))
  }

  // ----- other stack operations

  function DoVerify(m: State): (r: Result<State>) {
    var n := |m.stack|;
    if n == 0 then Err(InvalidStack, m.stack)
    else if !Truth(m.stack[n - 1]) then Err(Verify, m.stack)
    else Ok(m.(stack := m.stack[..n - 1]))
  }

  function DoToAlt(m: State): (r: Result<State>) {
    var n := |m.stack|;
    if n == 0 then Err(InvalidStack, m.stack) else Ok(m.(stack := m.stack[..n - 1], alt := m.alt + [m.stack[n - 1]]))
  }

  function DoFromAlt(m: State): (r: Result<State>) {
    var n := |m.alt|;
    if n == 0 then Err(InvalidAltStack, m.stack) else Ok(m.(alt := m.alt[..n - 1], stack := m.stack + [m.alt[n - 1]]))
  }

  function DoIfdup(m: State): (r: Result<State>) {
    var n := |m.stack|;
    if n == 0 then Err(InvalidStack, m.stack)
    else if Truth(m.stack[n - 1]) then Ok(m.(stack := m.stack + [m.stack[n - 1]]))
    else Ok(m)
  }

  function DoSize(m: State): (r: Result<State>) {
    var n := |m.stack|;
    if n < 1 then Err(InvalidStack, m.stack) else Ok(m.(stack := m.stack + [Export(|m.stack[n - 1]|)]))
  }

  /** PICK copies, ROLL moves, the item at the given depth. */
  function DoPick(env: Env, m: State, roll: bool): (r: Result<State>) {
    var n := |m.stack|;
    if n < 2 then Err(InvalidStack, m.stack) else
      var d := Number(env, m.stack[n - 1], 4);
      if d.None? then Err(UnknownError, m.stack) else
        var k, s := Saturated(d.value), m.stack[..n - 1];
        if k < 0 || k >= |s| then Err(InvalidStack, s)
        else Ok(m.(stack := PickedItems(s, k, roll)))
  }

  function PickedItems(s: Items, k: nat, roll: bool): (r: Items)
    requires k < |s|
  {
    var at := |s| - 1 - k;
    if roll then s[..at] + s[at + 1..] + [s[at]] else s + [s[at]]
  }

  function DoEqual(m: State, v: byte): (r: Result<State>) {
    var n := |m.stack|;
    if n < 2 then Err(InvalidStack, m.stack) else
      var same := m.stack[n - 2] == m.stack[n - 1];
      if v == 0x88 then
        if same then Ok(m.(stack := m.stack[..n - 2])) else Err(EqualVerify, m.stack[..n - 2] + [Boolean(false)])
      else Ok(m.(stack := m.stack[..n - 2] + [Boolean(same)]))
  }

  function DoHash(env: Env, m: State, v: byte): (r: Result<State>) {
    var n := |m.stack|;
    if n == 0 then Err(InvalidStack, m.stack) else Ok(m.(stack := m.stack[..n - 1] + [env.hash(v, m.stack[n - 1])]))
  }

  function DoLock(env: Env, m: State, on: bool, met: int -> bool): (r: Result<State>) {
    var n := |m.stack|;
    if !on then if env.discourageNops then Err(DiscourageNops, m.stack) else Ok(m)
    else if !env.hasTx then Err(UnknownError, m.stack)
    else if n == 0 then Err(InvalidStack, m.stack)
    else
      var t := Number(env, m.stack[n - 1], 5);
      if t.None? then Err(UnknownError, m.stack)
      else if t.value < 0 then Err(NegativeLocktime, m.stack)
      else if !met(t.value) then Err(UnsatisfiedLocktime, m.stack)
      else Ok(m)
  }

  // ----- signatures

  /** The script that is signed: in version 0 the signatures are cut out of it. */
  function Subscript(env: Env, script: seq<byte>, sigs: Items): (s: seq<byte>)
    decreases |sigs|
  {
    if !env.legacy || sigs == [] then script
    else
      var n := |sigs| - 1;
      Deleted(Subscript(env, script, sigs[..n]), PushOf(sigs[n]))
  }

  lemma SubscriptNone(env: Env, script: seq<byte>)
    ensures Subscript(env, script, []) == script
  {}

  lemma SubscriptOne(env: Env, script: seq<byte>, sig: Item)
    ensures Subscript(env, script, [sig]) == if env.legacy then Deleted(script, PushOf(sig)) else script
  {
    hide Deleted;
    assert [sig][..0] == [];
    SubscriptNone(env, script);
  }

  lemma SubscriptNext(env: Env, script: seq<byte>, sigs: Items, j: nat)
    requires j < |sigs|
    ensures Subscript(env, script, sigs[..j + 1]) ==
            var s := Subscript(env, script, sigs[..j]); if env.legacy then Deleted(s, PushOf(sigs[j])) else s
  {
    hide Deleted;
    assert sigs[..j + 1][..j] == sigs[..j];
  }

  predicate Verifies(env: Env, sub: seq<byte>, sig: Item, key: Item) {
    sig != [] && env.verify(sub, sig, key)
  }

  function Verifier(env: Env, sub: seq<byte>): (f: (Item, Item) -> bool) {
    (sig, key) => Verifies(env, sub, sig, key)
  }

  function DoCheckSig(env: Env, m: State, v: byte): (r: Result<State>)
  {
    var n := |m.stack|;
    if !env.hasTx then Err(UnknownError, m.stack)
    else if n < 2 then Err(InvalidStack, m.stack)
    else
      var sig, key := m.stack[n - 2], m.stack[n - 1];
      var sub := Subscript(env, m.begin, [sig]);
      if env.refuse(sig, key).Some? then Err(env.refuse(sig, key).value, m.stack)
      else
        var ok := Verifies(env, sub, sig, key);
        if !ok && env.nullFail && sig != [] then Err(NullFail, m.stack)
        else if v == 0xad then
          if ok then Ok(m.(stack := m.stack[..n - 2])) else Err(CheckSigVerify, m.stack[..n - 2] + [Boolean(false)])
        else Ok(m.(stack := m.stack[..n - 2] + [Boolean(ok)]))
  }

  /** The keys, last pushed first. */
  function Keys(s: Items, n: nat): (keys: Items)
    requires n + 1 <= |s|
  {
    seq(n, i requires 0 <= i < n => s[|s| - 2 - i])
  }

  /** The signatures, last pushed first. */
  function Sigs(s: Items, n: nat, m: nat): (sigs: Items)
    requires n + m + 2 <= |s|
  {
    seq(m, i requires 0 <= i < m => s[|s| - n - 3 - i])
  }

  function DoMultisig(env: Env, m: State, v: byte): (r: Result<State>)
  {
    if !env.hasTx then Err(UnknownError, m.stack)
    else if |m.stack| < 1 then Err(InvalidStack, m.stack)
    else
      var n := Number(env, m.stack[|m.stack| - 1], 4);
      if n.None? then Err(UnknownError, m.stack)
      else if Saturated(n.value) < 0 || Saturated(n.value) > MAX_KEYS then Err(PubkeyCount, m.stack)
      else if m.opcount + Saturated(n.value) > MAX_OPS then Err(OpCount, m.stack)
      else DoMultisigKeys(env, m.(opcount := m.opcount + Saturated(n.value)), v, Saturated(n.value))
  }

  function DoMultisigKeys(env: Env, m: State, v: byte, n: nat): (r: Result<State>)
  {
    var len := |m.stack|;
    if len < n + 2 then Err(InvalidStack, m.stack)
    else
      var k := Number(env, m.stack[len - n - 2], 4);
      if k.None? then Err(UnknownError, m.stack)
      else if Saturated(k.value) < 0 || Saturated(k.value) > n then Err(SigCount, m.stack)
      else if len < n + Saturated(k.value) + 3 then Err(InvalidStack, m.stack)
      else DoMultisigSigs(env, m, v, n, Saturated(k.value))
  }

  /** How many empty items come first. */
  function FirstFull(s: Items): (i: nat)
    ensures i <= |s| && (forall j :: 0 <= j < i ==> s[j] == []) && (i < |s| ==> s[i] != [])
  {
    if s == [] || s[0] != [] then 0 else 1 + FirstFull(s[1..])
  }

  function DoMultisigSigs(env: Env, m: State, v: byte, n: nat, k: nat): (r: Result<State>)
    requires n + k + 3 <= |m.stack|
  {
    var len := |m.stack|;
    var sigs, keys := Sigs(m.stack, n, k), Keys(m.stack, n);
    var sub := Subscript(env, m.begin, sigs);
    match Scan(sigs, keys, Verifier(env, sub), env.refuse)
    case Refused(e) => Err(e, m.stack)
    case Decided(ok) =>
      if !ok && env.nullFail && FirstFull(sigs) < k then Err(NullFail, m.stack[..len - n - 2 - FirstFull(sigs)])
      else if env.nullDummy && m.stack[len - n - k - 3] != [] then Err(NullDummy, m.stack[..len - n - k - 2])
      else if v == 0xaf then
        if ok then Ok(m.(stack := m.stack[..len - n - k - 3])) else Err(CheckMultisigVerify, m.stack[..len - n - k - 3] + [Boolean(false)])
      else Ok(m.(stack := m.stack[..len - n - k - 3] + [Boolean(ok)]))
  }

  // ----- one opcode

  function DoMisc(env: Env, m: State, v: byte): (r: Result<State>)
  {
    if v == 0x4f then Ok(m.(stack := m.stack + [Export(-1)]))
    else if 0x51 <= v <= 0x60 then Ok(m.(stack := m.stack + [Export(v - 0x50)]))
    else if v == 0x61 then Ok(m)
    else if v == 0xb1 then DoLock(env, m, env.cltv, env.locktime)
    else if v == 0xb2 then DoLock(env, m, env.csv, env.sequence)
    else if v == 0xb0 || 0xb3 <= v <= 0xb9 then if env.discourageNops then Err(DiscourageNops, m.stack) else Ok(m)
    else if v == 0x63 || v == 0x64 then DoIf(env, m, v)
    else if v == 0x67 then DoElse(m)
    else if v == 0x68 then DoEndif(m)
    else if v == 0x69 then DoVerify(m)
    else if v == 0x6a then Err(OpReturn, m.stack)
    else if v == 0x6b then DoToAlt(m)
    else if v == 0x6c then DoFromAlt(m)
    else if v == 0x73 then DoIfdup(m)
    else if v == 0x74 then Ok(m.(stack := m.stack + [Export(|m.stack|)]))
    else if v == 0x79 || v == 0x7a then DoPick(env, m, v == 0x7a)
    else if v == 0x82 then DoSize(m)
    else if v == 0x87 || v == 0x88 then DoEqual(m, v)
    else if v == 0xa5 then DoWithin(env, m)
    else if 0xa6 <= v <= 0xaa then DoHash(env, m, v)
    else if v == 0xab then Ok(m.(begin := m.rest))
    else if v == 0xac || v == 0xad then DoCheckSig(env, m, v)
    else if v == 0xae || v == 0xaf then DoMultisig(env, m, v)
    else Err(BadOpcode, m.stack)
  }

  function Exec(env: Env, m: State, v: byte): (r: Result<State>)
  {
    if Shuffle(v).Some? then DoShuffle(m, Shuffle(v).value)
    else if Unary(v, 0).Some? then DoUnary(env, m, v)
    else if Binary(v, 0, 0).Some? then DoBinary(env, m, v)
    else DoMisc(env, m, v)
  }

  predicate IsDisabled(v: byte) {
    0x7e <= v <= 0x81 || 0x83 <= v <= 0x86 || v == 0x8d || v == 0x8e || 0x95 <= v <= 0x99
  }

  predicate IsBranch(v: byte) {
    0x63 <= v <= 0x68
  }

  predicate MinimalPush(op: Opcode) {
    if op.value > PUSHDATA4 then true
    else if |op.data| == 1 && (op.data[0] == 0x81 || 1 <= op.data[0] <= 16) then false
    else if |op.data| <= 0x4b then op.value == |op.data|
    else if |op.data| <= 0xff then op.value == PUSHDATA1
    else if |op.data| <= 0xffff then op.value == PUSHDATA2
    else op.value == PUSHDATA4
  }

  function Checked(r: Result<State>): (r': Result<State>) {
    if r.Ok? && |r.value.stack| + |r.value.alt| > MAX_STACK then Err(StackSize, r.value.stack) else r
  }

  function Counted(v: byte, opcount: nat): (n: nat) {
    if v > 0x60 then opcount + 1 else opcount
  }

  /** One turn of the loop. */
  function Next(env: Env, m: State): (r: Result<State>)
  {
    var p := ParseOpcode(m.rest);
    if p.None? then Err(BadOpcode, m.stack)
    else
      var op, n := p.value.value, Counted(p.value.value.value, m.opcount);
      if |op.data| > MAX_PUSH then Err(PushSize, m.stack)
      else if op.value > 0x60 && n > MAX_OPS then Err(OpCount, m.stack)
      else if IsDisabled(op.value) then Err(DisabledOpcode, m.stack)
      else
        var m1 := m.(rest := p.value.rest, opcount := n);
        if m.negate != 0 && !IsBranch(op.value) then Checked(Ok(m1))
        else if op.value <= PUSHDATA4 then
          if env.minimal && !MinimalPush(op) then Err(MinimalData, m.stack)
          else Checked(Ok(m1.(stack := m1.stack + [op.data])))
        else Checked(Exec(env, m1, op.value))
  }

  // ----- what every step keeps

  predicate AllShort(s: Items) {
    forall i :: 0 <= i < |s| ==> |s[i]| <= MAX_PUSH
  }

  /** The counter is the number of false conditions. */
  predicate CondSound(m: State) {
    m.negate == CountFalse(m.conds)
  }

  /** No item is longer than a push may be. */
  predicate ShortSound(m: State) {
    AllShort(m.stack) && AllShort(m.alt)
  }

  predicate Fits(m: State) {
    |m.stack| + |m.alt| <= MAX_STACK
  }

  /** Steps that leave a permitted stack keep the counter right and the items short, read nothing
      further, and never lower the op count nor raise it past its limit. */
  ghost predicate Keeps(m: State, r: Result<State>) {
    r.Ok? && Fits(r.value) ==>
      && (CondSound(m) ==> CondSound(r.value)) && (ShortSound(m) ==> ShortSound(r.value))
      && r.value.rest == m.rest && m.opcount <= r.value.opcount
      && (m.opcount <= MAX_OPS ==> r.value.opcount <= MAX_OPS)
  }

  /** Numbers of up to four bytes give results of up to five. */
  lemma ShortResults(env: Env, v: byte, x: Item, y: Item)
    requires Number(env, x, 4).Some? && Number(env, y, 4).Some?
    ensures var a, b := Number(env, x, 4).value, Number(env, y, 4).value;
            && (Unary(v, a).Some? ==> |Export(Unary(v, a).value)| <= 5)
            && (Binary(v, a, b).Some? ==> |Export(Binary(v, a, b).value)| <= 5)
            && Saturated(a) == a
  {
    hide Import, Export;
    ImportBound(x, 4);
    ImportBound(y, 4);
    Halves();
    hide Half;
    var a, b := Import(x), Import(y);
    if Unary(v, a).Some? { ExportFits(Unary(v, a).value, 5); }
    if Binary(v, a, b).Some? { ExportFits(Binary(v, a, b).value, 5); }
  }

  lemma ShuffleKeeps(m: State, p: Pattern)
    requires ValidPattern(p)
    ensures Keeps(m, DoShuffle(m, p))
  {
    hide CountFalse;
  }

  lemma UnaryKeeps(env: Env, m: State, v: byte)
    ensures Keeps(m, DoUnary(env, m, v))
  {
    hide CountFalse, Export, Unary, Number;
    var r := DoUnary(env, m, v);
    if r.Ok? {
      var x := m.stack[|m.stack| - 1];
      ShortResults(env, v, x, x);
    }
  }

  lemma BinaryKeeps(env: Env, m: State, v: byte)
    ensures Keeps(m, DoBinary(env, m, v))
  {
    hide CountFalse, Export, Binary, Number;
    var r := DoBinary(env, m, v);
    if r.Ok? {
      ShortResults(env, v, m.stack[|m.stack| - 2], m.stack[|m.stack| - 1]);
    }
  }

  lemma CountSnoc(s: seq<bool>, b: bool)
    ensures CountFalse(s + [b]) == CountFalse(s) + if b then 0 else 1
  {
    assert (s + [b])[..|s|] == s;
  }

  lemma CountLast(s: seq<bool>)
    requires s != []
    ensures var k := |s| - 1;
            && CountFalse(s) == CountFalse(s[..k]) + (if s[k] then 0 else 1)
            && CountFalse(s[k := !s[k]]) == CountFalse(s[..k]) + if s[k] then 1 else 0
  {
    var k := |s| - 1;
    assert s[k := !s[k]][..k] == s[..k];
  }

  lemma IfKeeps(env: Env, m: State, v: byte)
    ensures Keeps(m, DoIf(env, m, v)) && Keeps(m, DoElse(m)) && Keeps(m, DoEndif(m))
  {
    hide Truth, CountFalse;
    CountSnoc(m.conds, true);
    CountSnoc(m.conds, false);
    if m.conds != [] { CountLast(m.conds); }
  }

  lemma SmallNumber(n: int)
    requires -1 <= n <= 0xffff
    ensures |Export(n)| <= 4
  {
    Halves();
    hide Half, Export;
    ExportFits(n, 4);
  }

  lemma SigsKeep(env: Env, m: State, v: byte)
    ensures Keeps(m, DoMultisig(env, m, v)) && Keeps(m, DoCheckSig(env, m, v))
  {
    hide CountFalse, Number, Scan, Subscript, Sigs, Keys, Verifies, Verifier;
  }

  lemma PushKeeps(m: State, x: Item)
    requires Fits(m.(stack := m.stack + [x])) ==> ShortSound(m) ==> |x| <= MAX_PUSH
    ensures Keeps(m, Ok(m.(stack := m.stack + [x])))
  {
    hide CountFalse;
  }

  lemma NumberKeeps(m: State, n: int)
    requires Fits(m) && ShortSound(m) ==> -1 <= n <= 0xffff
    ensures Keeps(m, Ok(m.(stack := m.stack + [Export(n)])))
  {
    hide CountFalse, Export;
    if Fits(m) && ShortSound(m) { SmallNumber(n); }
    PushKeeps(m, Export(n));
  }

  lemma SizeKeeps(m: State)
    ensures Keeps(m, DoSize(m))
  {
    hide CountFalse, Export;
    if |m.stack| > 0 { NumberKeeps(m, |m.stack[|m.stack| - 1]|); }
  }

  lemma MovesKeep(env: Env, m: State, v: byte)
    ensures Keeps(m, DoVerify(m)) && Keeps(m, DoToAlt(m)) && Keeps(m, DoFromAlt(m)) && Keeps(m, DoIfdup(m))
    ensures Keeps(m, DoEqual(m, v)) && Keeps(m, DoHash(env, m, v))
  {
    hide CountFalse, Truth;
  }

  lemma PickedShort(s: Items, k: nat, roll: bool)
    requires k < |s| && AllShort(s)
    ensures AllShort(PickedItems(s, k, roll))
  {
    var r := PickedItems(s, k, roll);
    forall i | 0 <= i < |r| ensures r[i] in s {}
  }

  lemma PicksKeep(env: Env, m: State, v: byte)
    ensures Keeps(m, DoPick(env, m, v == 0x7a)) && Keeps(m, DoWithin(env, m))
    ensures Keeps(m, DoLock(env, m, env.cltv, env.locktime)) && Keeps(m, DoLock(env, m, env.csv, env.sequence))
  {
    hide CountFalse, Number, PickedItems;
    var n := |m.stack|;
    if n >= 2 && Number(env, m.stack[n - 1], 4).Some? && AllShort(m.stack) {
      var s, k := m.stack[..n - 1], Saturated(Number(env, m.stack[n - 1], 4).value);
      if 0 <= k < |s| { PickedShort(s, k, v == 0x7a); }
    }
  }

  lemma PlainKeeps(m: State)
    ensures Keeps(m, Ok(m)) && Keeps(m, Ok(m.(begin := m.rest)))
  {}

  lemma MiscKeeps(env: Env, m: State, v: byte)
    ensures Keeps(m, DoMisc(env, m, v))
  {
    hide Keeps, Export, DoLock, DoIf, DoElse, DoEndif, DoVerify, DoToAlt, DoFromAlt, DoIfdup, DoPick, DoSize,
      DoEqual, DoWithin, DoHash, DoCheckSig, DoMultisig;
    SigsKeep(env, m, v);
    IfKeeps(env, m, v);
    SizeKeeps(m);
    MovesKeep(env, m, v);
    PicksKeep(env, m, v);
    PlainKeeps(m);
    NumberKeeps(m, -1);
    NumberKeeps(m, |m.stack|);
    NumberKeeps(m, if 0x51 <= v <= 0x60 then v - 0x50 else 0);
    ErrorsKeep(m);
  }

  lemma ErrorsKeep(m: State)
    ensures forall e, left :: Keeps(m, Err(e, left))
  {}

  lemma ExecKeeps(env: Env, m: State, v: byte)
    ensures Keeps(m, Exec(env, m, v))
  {
    hide DoShuffle, DoUnary, DoBinary, DoMisc, Keeps;
    if Shuffle(v).Some? {
      ShuffleKeeps(m, Shuffle(v).value);
    } else if Unary(v, 0).Some? {
      UnaryKeeps(env, m, v);
    } else if Binary(v, 0, 0).Some? {
      BinaryKeeps(env, m, v);
    } else {
      MiscKeeps(env, m, v);
    }
  }

  /** Every completed step: the stacks fit, the op count is within its limit, part of the script has
      been read, the counter still counts the false conditions, and items stay short. */
  lemma NextKeeps(env: Env, m: State)
    requires Next(env, m).Ok? && m.opcount <= MAX_OPS
    ensures var m' := Next(env, m).value;
            && Fits(m') && m'.opcount <= MAX_OPS && m.opcount <= m'.opcount && |m'.rest| < |m.rest|
            && (CondSound(m) ==> CondSound(m')) && (ShortSound(m) ==> ShortSound(m'))
  {
    hide Exec, ParseOpcode, CountFalse, MinimalPush;
    var p := ParseOpcode(m.rest).value;
    var m1 := m.(rest := p.rest, opcount := Counted(p.value.value, m.opcount));
    ExecKeeps(env, m1, p.value.value);
    PushKeeps(m1, p.value.data);
  }

  // ----- runs

  /** The state after `k` turns of the loop. */
  function Steps(env: Env, m: State, k: nat): (r: Result<State>) {
    if k == 0 then Ok(m)
    else
      var r := Steps(env, m, k - 1);
      if r.Err? then r else Next(env, r.value)
  }

  function Start(script: seq<byte>, stack: Items): (m: State) {
    State(stack, [], [], 0, 0, script, script)
  }

  /** Every state of every run keeps the limits and the meaning of the counter. */
  lemma {:induction false} RunKeeps(env: Env, script: seq<byte>, stack: Items, k: nat)
    requires Steps(env, Start(script, stack), k).Ok?
    ensures var m := Steps(env, Start(script, stack), k).value;
            && CondSound(m) && m.opcount <= MAX_OPS && |m.rest| + k <= |script|
            && (k > 0 ==> Fits(m)) && (AllShort(stack) ==> ShortSound(m))
  {
    hide Next;
    if k > 0 {
      RunKeeps(env, script, stack, k - 1);
      NextKeeps(env, Steps(env, Start(script, stack), k - 1).value);
    }
  }

  function Run(env: Env, m: State): (r: Result<State>)
    decreases |m.rest|
  {
    if m.rest == [] then if m.conds != [] then Err(Unbalanced, m.stack) else Ok(m)
    else
      var r := Next(env, m);
      if r.Err? then r
      else
        NextReads(env, m);
        Run(env, r.value)
  }

  lemma NextReads(env: Env, m: State)
    requires Next(env, m).Ok?
    ensures |Next(env, m).value.rest| < |m.rest|
  {
    hide Exec, ParseOpcode;
    var p := ParseOpcode(m.rest).value;
    var m1 := m.(rest := p.rest, opcount := Counted(p.value.value, m.opcount));
    ExecKeeps(env, m1, p.value.value);
    hide CondSound, ShortSound, MinimalPush;
  }

  lemma RunStep(env: Env, m: State)
    requires m.rest != []
    ensures Run(env, m) == var r := Next(env, m); if r.Err? then r else Run(env, r.value)
    ensures Next(env, m).Ok? ==> |Next(env, m).value.rest| < |m.rest|
  {
    hide Next;
    if Next(env, m).Ok? { NextReads(env, m); }
  }

  lemma RunEnd(env: Env, m: State)
    requires m.rest == []
    ensures Run(env, m) == if m.conds != [] then Err(Unbalanced, m.stack) else Ok(m)
  {}

  /** A run that goes through is some number of turns. */
  lemma {:induction false} RunIsSteps(env: Env, m: State)
    requires Run(env, m).Ok?
    ensures exists k: nat :: k <= |m.rest| && Steps(env, m, k) == Run(env, m)
    ensures Run(env, m).value.rest == [] && Run(env, m).value.conds == []
    decreases |m.rest|
  {
    hide Next;
    if m.rest == [] {
      assert Steps(env, m, 0) == Run(env, m);
    } else {
      NextReads(env, m);
      var m' := Next(env, m).value;
      RunIsSteps(env, m');
      var k: nat :| k <= |m'.rest| && Steps(env, m', k) == Run(env, m');
      StepsFront(env, m, k);
      assert Steps(env, m, k + 1) == Run(env, m);
    }
  }

  /** Where a run ends: the conditions are closed with the counter at zero, the op count within its limit,
      items still short, and the stacks within theirs unless there was nothing to run. */
  lemma ExecutedKeeps(env: Env, script: seq<byte>, stack: Items)
    requires Executed(env, script, stack).Ok?
    ensures var m := Executed(env, script, stack).value;
            && m.rest == [] && m.conds == [] && m.negate == 0 && m.opcount <= MAX_OPS
            && (script != [] ==> Fits(m)) && (AllShort(stack) ==> ShortSound(m))
  {
    hide Run, Steps;
    var m := Start(script, stack);
    RunIsSteps(env, m);
    var k: nat :| k <= |m.rest| && Steps(env, m, k) == Run(env, m);
    RunKeeps(env, script, stack, k);
    if k == 0 { StepsNone(env, m); }
  }

  lemma StepsNone(env: Env, m: State)
    ensures Steps(env, m, 0) == Ok(m)
  {}

  function Executed(env: Env, script: seq<byte>, stack: Items): (r: Result<State>) {
    if |script| > MAX_SCRIPT_SIZE then Err(ScriptSize, stack) else Run(env, Start(script, stack))
  }

  // ----- conditionals

  /** Code runs exactly when every condition is true: below a false one, an opcode that is not a branch
      changes nothing but the op count. */
  lemma SkippedStep(env: Env, m: State)
    requires CondSound(m) && Next(env, m).Ok? && ParseOpcode(m.rest).Some?
    requires !IsBranch(ParseOpcode(m.rest).value.value.value) && exists i :: 0 <= i < |m.conds| && !m.conds[i]
    ensures var p := ParseOpcode(m.rest).value;
            Next(env, m).value == m.(rest := p.rest, opcount := Counted(p.value.value, m.opcount))
  {
    hide Exec, ParseOpcode;
    NoneFalse(m.conds);
  }

  lemma ExecutedStep(env: Env, m: State)
    requires CondSound(m) && Next(env, m).Ok? && ParseOpcode(m.rest).Some?
    requires forall i :: 0 <= i < |m.conds| ==> m.conds[i]
    ensures var p := ParseOpcode(m.rest).value;
            var m1 := m.(rest := p.rest, opcount := Counted(p.value.value, m.opcount));
            if p.value.value <= PUSHDATA4 then Next(env, m).value == m1.(stack := m.stack + [p.value.data])
            else Exec(env, m1, p.value.value) == Next(env, m)
  {
    hide Exec, ParseOpcode;
    NoneFalse(m.conds);
  }

  /** How deep the conditionals of some opcodes leave us; `None` where they touch an outer one. */
  function Depth(ops: seq<Opcode>, d: nat): (r: Option<nat>) {
    if ops == [] then Some(d)
    else if ops[0].value == 0x63 || ops[0].value == 0x64 then Depth(ops[1..], d + 1)
    else if ops[0].value == 0x67 then if d == 0 then None else Depth(ops[1..], d)
    else if ops[0].value == 0x68 then if d == 0 then None else Depth(ops[1..], d - 1)
    else Depth(ops[1..], d)
  }

  /** `m'` differs from `m` by what skipping can change: conditions above the first `b`, and counts. */
  ghost predicate Skipped(m: State, m': State, b: nat, d: nat) {
    && m'.stack == m.stack && m'.alt == m.alt && m'.begin == m.begin
    && b <= |m.conds| && |m'.conds| == b + d && m'.conds[..b] == m.conds[..b]
    && (exists i :: 0 <= i < b && !m.conds[i])
    && CondSound(m')
  }

  lemma SkipOne(env: Env, m: State, m': State, b: nat, d: nat, op: Opcode, rest: seq<byte>, e: nat)
    requires Skipped(m, m', b, d) && Next(env, m').Ok? && ParseOpcode(m'.rest) == Some(Parsed(op, rest))
    requires e == if op.value == 0x63 || op.value == 0x64 then d + 1 else if op.value == 0x68 then d - 1 else d
    requires op.value == 0x67 || op.value == 0x68 ==> d > 0
    ensures Skipped(m, Next(env, m').value, b, e) && Next(env, m').value.rest == rest
  {
    hide ParseOpcode, Truth, Number;
    assert m'.negate != 0 by {
      var i :| 0 <= i < b && !m.conds[i];
      assert !m'.conds[..b][i];
      NoneFalse(m'.conds);
    }
    var m1 := m'.(rest := rest, opcount := Counted(op.value, m'.opcount));
    IfKeeps(env, m1, op.value);
    hide CountFalse;
    if IsBranch(op.value) {
      BranchExec(env, m1, op.value);
    }
    hide Exec;
  }

  lemma BranchExec(env: Env, m: State, v: byte)
    requires IsBranch(v)
    ensures Exec(env, m, v) == if v == 0x63 || v == 0x64 then DoIf(env, m, v) else if v == 0x67 then DoElse(m)
                               else if v == 0x68 then DoEndif(m) else Err(BadOpcode, m.stack)
  {}

  lemma {:induction false} StepsFront(env: Env, m: State, k: nat)
    ensures Steps(env, m, k + 1) == var r := Next(env, m); if r.Err? then r else Steps(env, r.value, k)
  {
    hide Next;
    if k > 0 {
      StepsFront(env, m, k - 1);
    } else {
      assert Steps(env, m, 0) == Ok(m);
      assert Steps(env, m, 1) == Next(env, m);
    }
  }

  /** Below a false condition a whole block of opcodes, nested conditionals included, is passed over
      without effect. */
  lemma {:induction false} SkipBlock(env: Env, m: State, m': State, b: nat, d: nat, ops: seq<Opcode>, rest: seq<byte>)
    requires Skipped(m, m', b, d) && AllWellFormed(ops) && Depth(ops, d).Some? && m'.rest == WrittenAll(ops) + rest
    requires Steps(env, m', |ops|).Ok?
    ensures Skipped(m, Steps(env, m', |ops|).value, b, Depth(ops, d).value) && Steps(env, m', |ops|).value.rest == rest
    decreases |ops|
  {
    hide Next, Skipped, Written, WellFormed, ParseOpcode;
    if ops == [] {
      assert [] + rest == rest;
      assert Steps(env, m', 0) == Ok(m');
    } else {
      var op, ops' := ops[0], ops[1..];
      assert m'.rest == Written(op) + (WrittenAll(ops') + rest);
      ParseUndoesWrite(op, WrittenAll(ops') + rest);
      StepsFront(env, m', |ops| - 1);
      var e := if op.value == 0x63 || op.value == 0x64 then d + 1 else if op.value == 0x68 then d - 1 else d;
      SkipOne(env, m, m', b, d, op, WrittenAll(ops') + rest, e);
      SkipBlock(env, m, Next(env, m').value, b, e, ops', rest);
    }
  }

  ghost predicate Balanced(ops: seq<Opcode>) {
    AllWellFormed(ops) && Depth(ops, 0) == Some(0)
  }

  lemma SkipBalanced(env: Env, m: State, ops: seq<Opcode>, rest: seq<byte>)
    requires CondSound(m) && Balanced(ops) && m.rest == WrittenAll(ops) + rest
    requires (exists i :: 0 <= i < |m.conds| && !m.conds[i]) && Steps(env, m, |ops|).Ok?
    ensures Steps(env, m, |ops|).value == m.(rest := rest, opcount := Steps(env, m, |ops|).value.opcount)
  {
    hide Steps, Depth, WrittenAll, AllWellFormed, CountFalse;
    var b := |m.conds|;
    assert m.conds[..b] == m.conds;
    SkipBlock(env, m, m, b, 0, ops, rest);
    var m' := Steps(env, m, |ops|).value;
    assert m'.conds[..b] == m'.conds;
  }

  lemma {:induction false} StepsAdd(env: Env, m: State, j: nat, k: nat)
    ensures Steps(env, m, j + k) == var r := Steps(env, m, j); if r.Err? then r else Steps(env, r.value, k)
  {
    hide Next;
    if k > 0 { StepsAdd(env, m, j, k - 1); }
  }

  lemma ParseBare(v: byte, t: seq<byte>)
    requires v > PUSHDATA4
    ensures ParseOpcode([v] + t) == Some(Parsed(Opcode(v, []), t))
  {
    assert ([v] + t)[1..] == t;
  }

  lemma RunningBranch(env: Env, m: State, v: byte, t: seq<byte>)
    requires IsBranch(v) && m.rest == [v] + t && Next(env, m).Ok?
    ensures Next(env, m) == Exec(env, m.(rest := t, opcount := m.opcount + 1), v)
  {
    ParseBare(v, t);
    hide ParseOpcode, Exec;
  }

  /** IF on a false item, or NOTIF on a true one: the THEN part has no effect, and the ELSE part is run
      next. */
  lemma ThenSkipped(env: Env, m: State, v: byte, ops: seq<Opcode>, t: seq<byte>)
    requires v in {0x63, 0x64} && CondSound(m) && m.negate == 0 && |m.stack| > 0 && Balanced(ops)
    requires Truth(m.stack[|m.stack| - 1]) == (v == 0x64)
    requires m.rest == [v] + (WrittenAll(ops) + ([0x67] + t)) && Steps(env, m, |ops| + 2).Ok?
    ensures var m' := Steps(env, m, |ops| + 2).value;
            m' == m.(stack := m.stack[..|m.stack| - 1], conds := m.conds + [true], rest := t, opcount := m'.opcount)
  {
    hide Steps, Next, Exec, WrittenAll, Truth, CountFalse, Balanced;
    var n := |ops|;
    StepsFront(env, m, n + 1);
    var m1 := Next(env, m).value;
    RunningBranch(env, m, v, WrittenAll(ops) + ([0x67] + t));
    BranchExec(env, m.(rest := WrittenAll(ops) + ([0x67] + t), opcount := m.opcount + 1), v);
    StepsAdd(env, m1, n, 1);
    IfKeeps(env, m.(rest := WrittenAll(ops) + ([0x67] + t), opcount := m.opcount + 1), v);
    NextFits(env, m);
    assert !m1.conds[|m.conds|];
    SkipBalanced(env, m1, ops, [0x67] + t);
    var m2 := Steps(env, m1, n).value;
    StepsOne(env, m2);
    RunningBranch(env, m2, 0x67, t);
    BranchExec(env, m2.(rest := t, opcount := m2.opcount + 1), 0x67);
    assert m2.conds[|m.conds| := true] == m.conds + [true];
  }

  /** ELSE after a THEN part that ran: the ELSE part has no effect, and ENDIF closes the conditional. */
  lemma ElseSkipped(env: Env, m: State, ops: seq<Opcode>, t: seq<byte>)
    requires CondSound(m) && m.negate == 0 && |m.conds| > 0 && Balanced(ops)
    requires m.rest == [0x67] + (WrittenAll(ops) + ([0x68] + t)) && Steps(env, m, |ops| + 2).Ok?
    ensures var m' := Steps(env, m, |ops| + 2).value;
            m' == m.(conds := m.conds[..|m.conds| - 1], rest := t, opcount := m'.opcount)
  {
    NoneFalse(m.conds);
    hide Steps, Next, Exec, WrittenAll, CountFalse, Balanced;
    var n, k := |ops|, |m.conds| - 1;
    StepsFront(env, m, n + 1);
    var m1 := Next(env, m).value;
    RunningBranch(env, m, 0x67, WrittenAll(ops) + ([0x68] + t));
    BranchExec(env, m.(rest := WrittenAll(ops) + ([0x68] + t), opcount := m.opcount + 1), 0x67);
    StepsAdd(env, m1, n, 1);
    IfKeeps(env, m.(rest := WrittenAll(ops) + ([0x68] + t), opcount := m.opcount + 1), 0x67);
    NextFits(env, m);
    assert !m1.conds[k];
    SkipBalanced(env, m1, ops, [0x68] + t);
    var m2 := Steps(env, m1, n).value;
    StepsOne(env, m2);
    RunningBranch(env, m2, 0x68, t);
    BranchExec(env, m2.(rest := t, opcount := m2.opcount + 1), 0x68);
    assert m2.conds[..k] == m.conds[..k];
  }

  lemma StepsOne(env: Env, m: State)
    ensures Steps(env, m, 1) == Next(env, m)
  {
    hide Next;
    assert Steps(env, m, 0) == Ok(m);
  }

  lemma NextFits(env: Env, m: State)
    requires Next(env, m).Ok?
    ensures Fits(Next(env, m).value)
  {
    hide Exec, ParseOpcode;
  }

  // ----- laws of the stack operations

  function Chosen(w: Items, out: seq<nat>): (r: Items)
    requires forall i :: 0 <= i < |out| ==> out[i] < |w|
    ensures |r| == |out| && forall i :: 0 <= i < |out| ==> r[i] == w[out[i]]
  {
    seq(|out|, i requires 0 <= i < |out| => w[out[i]])
  }

  /** Only the top of the stack matters. */
  lemma OnTop(base: Items, w: Items, p: Pattern)
    requires |w| == p.arity && ValidPattern(p)
    ensures Shuffled(base + w, p) == base + Chosen(w, p.out)
  {
    var s := base + w;
    assert s[..|s| - p.arity] == base;
  }

  function Shuffling(v: byte, s: Items): (r: Items)
    requires Shuffle(v).Some? && Shuffle(v).value.arity <= |s|
  {
    Shuffled(s, Shuffle(v).value)
  }

  /** The stack effects, written out; the top is on the right. */
  lemma Effects1(base: Items, a: Item)
    ensures Shuffling(0x75, base + [a]) == base
    ensures Shuffling(0x76, base + [a]) == base + [a, a]
  {
    hide Shuffled;
    OnTop(base, [a], Shuffle(0x75).value);
    OnTop(base, [a], Shuffle(0x76).value);
    assert base + [] == base;
  }

  lemma Effects2(base: Items, a: Item, b: Item)
    ensures Shuffling(0x7c, base + [a, b]) == base + [b, a]
    ensures Shuffling(0x78, base + [a, b]) == base + [a, b, a]
    ensures Shuffling(0x7d, base + [a, b]) == base + [b, a, b]
    ensures Shuffling(0x77, base + [a, b]) == base + [b]
    ensures Shuffling(0x6d, base + [a, b]) == base
    ensures Shuffling(0x6e, base + [a, b]) == base + [a, b, a, b]
  {
    hide Shuffled;
    var w := [a, b];
    OnTop(base, w, Shuffle(0x7c).value);
    OnTop(base, w, Shuffle(0x78).value);
    OnTop(base, w, Shuffle(0x7d).value);
    OnTop(base, w, Shuffle(0x77).value);
    OnTop(base, w, Shuffle(0x6d).value);
    OnTop(base, w, Shuffle(0x6e).value);
    assert base + [] == base;
  }

  lemma Effects3(base: Items, a: Item, b: Item, c: Item)
    ensures Shuffling(0x7b, base + [a, b, c]) == base + [b, c, a]
    ensures Shuffling(0x6f, base + [a, b, c]) == base + [a, b, c, a, b, c]
  {
    hide Shuffled;
    OnTop(base, [a, b, c], Shuffle(0x7b).value);
    OnTop(base, [a, b, c], Shuffle(0x6f).value);
  }

  lemma Effects4(base: Items, a: Item, b: Item, c: Item, d: Item)
    ensures Shuffling(0x72, base + [a, b, c, d]) == base + [c, d, a, b]
    ensures Shuffling(0x70, base + [a, b, c, d]) == base + [a, b, c, d, a, b]
  {
    hide Shuffled;
    OnTop(base, [a, b, c, d], Shuffle(0x72).value);
    OnTop(base, [a, b, c, d], Shuffle(0x70).value);
  }

  lemma Effects6(base: Items, a: Item, b: Item, c: Item, d: Item, e: Item, f: Item)
    ensures Shuffling(0x71, base + [a, b, c, d, e, f]) == base + [c, d, e, f, a, b]
  {
    hide Shuffled;
    OnTop(base, [a, b, c, d, e, f], Shuffle(0x71).value);
  }

  /** How many items below the first shuffle the second one reaches down to. */
  function Reach(p: Pattern, q: Pattern): (e: nat) {
    if q.arity <= |p.out| then 0 else q.arity - |p.out|
  }

  /** Where item `i` of what the first shuffle leaves comes from. */
  function Origin(p: Pattern, e: nat, i: nat): (k: nat)
    requires i < e + |p.out|
  {
    if i < e then i else e + p.out[i - e]
  }

  /** Two shuffles as one. */
  function Compose(p: Pattern, q: Pattern): (r: Pattern)
    requires ValidPattern(q)
  {
    var e := Reach(p, q);
    var kept := e + |p.out| - q.arity;
    Pattern(p.arity + e, seq(kept, i requires 0 <= i < kept => Origin(p, e, i))
                         + seq(|q.out|, j requires 0 <= j < |q.out| => Origin(p, e, kept + q.out[j])))
  }

  lemma ComposeValid(p: Pattern, q: Pattern)
    requires ValidPattern(p) && ValidPattern(q)
    ensures ValidPattern(Compose(p, q))
  {}

  /** Item `i` above the first `low` ones after a shuffle. */
  lemma ShuffledAt(s: Items, p: Pattern, i: nat)
    requires ValidPattern(p) && p.arity <= |s|
    ensures var low := |s| - p.arity;
            && |Shuffled(s, p)| == low + |p.out|
            && (i < low ==> Shuffled(s, p)[i] == s[i])
            && (low <= i < low + |p.out| ==> Shuffled(s, p)[i] == s[low + p.out[i - low]])
  {}

  lemma ComposeAt(p: Pattern, q: Pattern, i: nat)
    requires ValidPattern(q)
    ensures var e := Reach(p, q); var kept := e + |p.out| - q.arity;
            && Compose(p, q).arity == p.arity + e && |Compose(p, q).out| == kept + |q.out|
            && (i < kept ==> Compose(p, q).out[i] == Origin(p, e, i))
            && (kept <= i < kept + |q.out| ==> Compose(p, q).out[i] == Origin(p, e, kept + q.out[i - kept]))
  {}

  /** Where an item of the middle stack comes from. */
  lemma MiddleAt(s: Items, p: Pattern, e: nat, i: nat)
    requires ValidPattern(p) && p.arity + e <= |s| && i < e + |p.out|
    ensures var low := |s| - p.arity - e;
            |Shuffled(s, p)| == low + e + |p.out| && Shuffled(s, p)[low + i] == s[low + Origin(p, e, i)]
  {
    ShuffledAt(s, p, |s| - p.arity - e + i);
    hide Shuffled;
  }

  /** One shuffle after another is the composed one. */
  lemma ShuffleTwice(s: Items, p: Pattern, q: Pattern)
    requires ValidPattern(p) && ValidPattern(q) && Compose(p, q).arity <= |s|
    ensures p.arity <= |s| && q.arity <= |Shuffled(s, p)| && ValidPattern(Compose(p, q))
    ensures Shuffled(Shuffled(s, p), q) == Shuffled(s, Compose(p, q))
  {
    ComposeValid(p, q);
    hide Shuffled, Compose, Origin;
    ComposeAt(p, q, 0);
    ShuffledAt(s, p, 0);
    var e, c, t := Reach(p, q), Compose(p, q), Shuffled(s, p);
    var low, kept := |s| - c.arity, e + |p.out| - q.arity;
    ShuffledAt(t, q, 0);
    ShuffledAt(s, c, 0);
    forall i | 0 <= i < |Shuffled(s, c)| ensures Shuffled(t, q)[i] == Shuffled(s, c)[i] {
      SameItem(s, p, q, i);
    }
  }

  lemma SameItem(s: Items, p: Pattern, q: Pattern, i: nat)
    requires ValidPattern(p) && ValidPattern(q) && ValidPattern(Compose(p, q))
    requires Compose(p, q).arity <= |s| && p.arity <= |s| && q.arity <= |Shuffled(s, p)|
    requires i < |Shuffled(s, Compose(p, q))| && i < |Shuffled(Shuffled(s, p), q)|
    ensures Shuffled(Shuffled(s, p), q)[i] == Shuffled(s, Compose(p, q))[i]
  {
    hide Shuffled, Compose, Origin;
    ComposeAt(p, q, 0);
    var e, c, t := Reach(p, q), Compose(p, q), Shuffled(s, p);
    var low, kept := |s| - c.arity, e + |p.out| - q.arity;
    ShuffledAt(s, p, i);
    ShuffledAt(t, q, i);
    ShuffledAt(s, c, i);
    if i >= low {
      ComposeAt(p, q, i - low);
      MiddleAt(s, p, e, if i < low + kept then i - low else kept + q.out[i - low - kept]);
    }
  }

  /** A list of shuffles, run one after another; `None` where one finds too few items. */
  function ShuffleAll(s: Items, ps: seq<Pattern>): (r: Option<Items>)
    requires forall i :: 0 <= i < |ps| ==> ValidPattern(ps[i])
  {
    if ps == [] then Some(s) else
      var r := ShuffleAll(s, ps[..|ps| - 1]);
      var p := ps[|ps| - 1];
      if r.None? || |r.value| < p.arity then None else Some(Shuffled(r.value, p))
  }

  function ComposeAll(ps: seq<Pattern>): (p: Pattern)
    requires forall i :: 0 <= i < |ps| ==> ValidPattern(ps[i])
  {
    if ps == [] then Pattern(0, []) else Compose(ComposeAll(ps[..|ps| - 1]), ps[|ps| - 1])
  }

  /** Any list of shuffles is one shuffle, and goes through exactly when the stack has the items that one
      needs. */
  lemma {:induction false} ShufflesCompose(s: Items, ps: seq<Pattern>)
    requires forall i :: 0 <= i < |ps| ==> ValidPattern(ps[i])
    ensures ValidPattern(ComposeAll(ps))
    ensures ShuffleAll(s, ps) == if |s| < ComposeAll(ps).arity then None else Some(Shuffled(s, ComposeAll(ps)))
    decreases |ps|
  {
    if ps == [] {
      assert s[..|s|] == s;
      assert Shuffled(s, Pattern(0, [])) == s;
    } else {
      var ps', q := ps[..|ps| - 1], ps[|ps| - 1];
      ShufflesCompose(s, ps');
      var p := ComposeAll(ps');
      ComposeValid(p, q);
      if |s| >= Compose(p, q).arity {
        ShuffleTwice(s, p, q);
      }
    }
  }

  /** What PICK and ROLL do at a depth. */
  function AtDepth(k: nat, roll: bool): (p: Pattern)
    ensures ValidPattern(p)
  {
    Pattern(k + 1, seq(if roll then k else k + 1, i requires 0 <= i => if roll then i + 1 else i) + [0])
  }

  /** PICK and ROLL are shuffles too, one for each depth, depths beyond the stack included. */
  lemma PickIsShuffle(env: Env, m: State, d: Item, roll: bool)
    requires Number(env, d, 4).Some? && Number(env, d, 4).value >= 0 && m.stack != []
    ensures DoPick(env, m.(stack := m.stack + [d]), roll) == DoShuffle(m, AtDepth(Number(env, d, 4).value, roll))
  {
    ShortResults(env, 0, d, d);
    hide Number, PickedItems, Shuffled;
    var s, k := m.stack, Number(env, d, 4).value;
    assert (s + [d])[..|s|] == s;
    if k < |s| { PickedShuffled(s, k, roll); }
  }

  lemma PickedShuffled(s: Items, k: nat, roll: bool)
    requires k < |s|
    ensures PickedItems(s, k, roll) == Shuffled(s, AtDepth(k, roll))
  {
    var x, y := PickedItems(s, k, roll), Shuffled(s, AtDepth(k, roll));
    assert |x| == |y|;
    assert forall i :: 0 <= i < |x| ==> x[i] == y[i];
  }

  // ----- signatures

  /** CHECKMULTISIG, when it goes through: it consumes `n + k + 3` items, and pushes true exactly when
      some order-preserving assignment of all signatures to different keys verifies. */
  lemma MultisigExact(env: Env, m: State)
    requires DoMultisig(env, m, 0xae).Ok?
    ensures var n, m' := Import(m.stack[|m.stack| - 1]), DoMultisig(env, m, 0xae).value;
            && 0 <= n <= MAX_KEYS && n + 2 <= |m.stack| && m'.opcount == m.opcount + n
            && var k := Import(m.stack[|m.stack| - n - 2]);
               && 0 <= k <= n && n + k + 3 <= |m.stack|
               && var sigs := Sigs(m.stack, n, k);
                  var ok := Verifier(env, Subscript(env, m.begin, sigs));
                  m'.stack == m.stack[..|m.stack| - n - k - 3] + [Boolean(Assignable(sigs, Keys(m.stack, n), ok))]
  {
    hide Scan, Subscript, Verifier, Import, Number, Assignable, DoMultisigSigs, Sigs, Keys;
    var n := SmallCount(env, m.stack[|m.stack| - 1]);
    var m1 := m.(opcount := m.opcount + n);
    assert DoMultisig(env, m, 0xae) == DoMultisigKeys(env, m1, 0xae, n);
    var k := SmallCount(env, m.stack[|m.stack| - n - 2]);
    assert DoMultisigKeys(env, m1, 0xae, n) == DoMultisigSigs(env, m1, 0xae, n, k);
    MultisigDecides(env, m1, n, k);
  }

  /** The counts are read and in range, and the stack holds what they announce. */
  ghost predicate Announced(env: Env, m: State, n: nat, k: nat) {
    && env.hasTx && |m.stack| >= 1 && Number(env, m.stack[|m.stack| - 1], 4) == Some(n)
    && n <= MAX_KEYS && m.opcount + n <= MAX_OPS && n + k + 3 <= |m.stack| && k <= n
    && Number(env, m.stack[|m.stack| - n - 2], 4) == Some(k)
  }

  lemma AnnouncedRuns(env: Env, m: State, v: byte, n: nat, k: nat)
    requires Announced(env, m, n, k)
    ensures DoMultisig(env, m, v) == DoMultisigSigs(env, m.(opcount := m.opcount + n), v, n, k)
  {
    hide Import, DoMultisigSigs;
    var x := SmallCount(env, m.stack[|m.stack| - 1]);
    var y := SmallCount(env, m.stack[|m.stack| - n - 2]);
  }

  /** CHECKMULTISIGVERIFY goes through exactly when no pair is refused, an assignment exists and the dummy
      passes its rule; it then consumes `n + k + 3` items and leaves nothing. */
  lemma MultisigVerifyExact(env: Env, m: State, n: nat, k: nat)
    requires Announced(env, m, n, k)
    ensures var sigs, keys := Sigs(m.stack, n, k), Keys(m.stack, n);
            var ok := Verifier(env, Subscript(env, m.begin, sigs));
            var r, rest := DoMultisig(env, m, 0xaf), m.stack[..|m.stack| - n - k - 3];
            && (r.Ok? <==> && Scan(sigs, keys, ok, env.refuse).Decided? && Assignable(sigs, keys, ok)
                           && (env.nullDummy ==> m.stack[|m.stack| - n - k - 3] == []))
            && (r.Ok? ==> r.value == m.(opcount := m.opcount + n, stack := rest))
  {
    hide Scan, Subscript, Verifier, Assignable, Sigs, Keys, Number, DoMultisig;
    AnnouncedRuns(env, m, 0xaf, n, k);
    var sigs, keys := Sigs(m.stack, n, k), Keys(m.stack, n);
    var ok := Verifier(env, Subscript(env, m.begin, sigs));
    if Scan(sigs, keys, ok, env.refuse).Decided? {
      ScanComplete(sigs, keys, ok, env.refuse);
    }
  }

  lemma MultisigDecides(env: Env, m: State, n: nat, k: nat)
    requires n + k + 3 <= |m.stack| && DoMultisigSigs(env, m, 0xae, n, k).Ok?
    ensures var sigs := Sigs(m.stack, n, k);
            var ok := Verifier(env, Subscript(env, m.begin, sigs));
            DoMultisigSigs(env, m, 0xae, n, k).value ==
              m.(stack := m.stack[..|m.stack| - n - k - 3] + [Boolean(Assignable(sigs, Keys(m.stack, n), ok))])
  {
    hide Scan, Subscript, Verifier, Assignable, Sigs, Keys;
    var sigs := Sigs(m.stack, n, k);
    ScanComplete(sigs, Keys(m.stack, n), Verifier(env, Subscript(env, m.begin, sigs)), env.refuse);
  }

  /** Four bytes need no saturation. */
  lemma SmallCount(env: Env, x: Item) returns (n: int)
    requires Number(env, x, 4).Some?
    ensures n == Import(x) == Saturated(Number(env, x, 4).value)
  {
    ImportBound(x, 4);
    Halves();
    hide Half, Import;
    n := Import(x);
  }
}
