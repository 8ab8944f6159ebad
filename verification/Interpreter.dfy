/** The interpreter: the loop over the opcodes, working on its stacks step by step, does what the
    machine says. */
module Interpreter {
  import opened Wire
  import opened ScriptNum
  import opened Opcodes
  import opened Multisig
  import opened ScriptStack
  import opened Machine

  // ----- stack shuffles, by the primitives

  method ShuffleOne(stack: Stack, v: byte)
    requires v in {0x75, 0x76} && |stack.items| >= 1
    modifies stack
    ensures stack.items == Shuffling(v, old(stack.items))
  {
    hide Shuffled;
    ghost var s := stack.items;
    ghost var base, a := s[..|s| - 1], s[|s| - 1];
    assert s == base + [a];
    Effects1(base, a);
    if v == 0x75 {
      stack.Drop();
    } else {
      var val := stack.Get(-1);
      stack.Push(val);
      assert stack.items == base + [a, a];
    }
  }

  method ShuffleTwo(stack: Stack, v: byte)
    requires v in {0x6d, 0x6e, 0x77, 0x78, 0x7c, 0x7d} && |stack.items| >= 2
    modifies stack
    ensures stack.items == Shuffling(v, old(stack.items))
  {
    hide Shuffling;
    ghost var s := stack.items;
    ghost var n := |s|;
    ghost var base, a, b := s[..n - 2], s[n - 2], s[n - 1];
    assert s == base + [a, b];
    Effects2(base, a, b);
    if v == 0x6d {
      stack.Drop();
      stack.Drop();
    } else if v == 0x6e {
      var v1 := stack.Get(-2);
      var v2 := stack.Get(-1);
      stack.Push(v1);
      stack.Push(v2);
      assert stack.items == base + [a, b, a, b];
    } else if v == 0x77 {
      var val := stack.Remove(-2);
      assert stack.items == base + [b];
    } else if v == 0x78 {
      var val := stack.Get(-2);
      stack.Push(val);
      assert stack.items == base + [a, b, a];
    } else if v == 0x7c {
      stack.Swap(-2, -1);
      assert stack.items == base + [b, a];
    } else {
      var val := stack.Get(-1);
      stack.Insert(-2, val);
      assert stack.items == base + [b, a, b];
    }
  }

  method ShuffleThree(stack: Stack, v: byte)
    requires v in {0x6f, 0x7b} && |stack.items| >= 3
    modifies stack
    ensures stack.items == Shuffling(v, old(stack.items))
  {
    hide Shuffling;
    ghost var s := stack.items;
    ghost var n := |s|;
    ghost var base, a, b, c := s[..n - 3], s[n - 3], s[n - 2], s[n - 1];
    assert s == base + [a, b, c];
    Effects3(base, a, b, c);
    if v == 0x6f {
      var v1 := stack.Get(-3);
      var v2 := stack.Get(-2);
      var v3 := stack.Get(-1);
      stack.Push(v1);
      stack.Push(v2);
      stack.Push(v3);
      assert stack.items == base + [a, b, c, a, b, c];
    } else {
      stack.Swap(-3, -2);
      assert stack.items == base + [b, a, c];
      stack.Swap(-2, -1);
      assert stack.items == base + [b, c, a];
    }
  }

  method ShuffleMore(stack: Stack, v: byte)
    requires v in {0x70, 0x72} && |stack.items| >= 4
    modifies stack
    ensures stack.items == Shuffling(v, old(stack.items))
  {
    hide Shuffling;
    ghost var s := stack.items;
    ghost var n := |s|;
    ghost var base, a, b, c, d := s[..n - 4], s[n - 4], s[n - 3], s[n - 2], s[n - 1];
    assert s == base + [a, b, c, d];
    Effects4(base, a, b, c, d);
    if v == 0x70 {
      var v1 := stack.Get(-4);
      var v2 := stack.Get(-3);
      stack.Push(v1);
      stack.Push(v2);
      assert stack.items == base + [a, b, c, d, a, b];
    } else {
      stack.Swap(-4, -2);
      assert stack.items == base + [c, b, a, d];
      stack.Swap(-3, -1);
      assert stack.items == base + [c, d, a, b];
    }
  }

  method RotateSix(stack: Stack)
    requires |stack.items| >= 6
    modifies stack
    ensures stack.items == Shuffling(0x71, old(stack.items))
  {
    hide Shuffling;
    ghost var s := stack.items;
    ghost var n := |s|;
    ghost var base, a, b, c, d, e, f := s[..n - 6], s[n - 6], s[n - 5], s[n - 4], s[n - 3], s[n - 2], s[n - 1];
    assert s == base + [a, b, c, d, e, f];
    Effects6(base, a, b, c, d, e, f);
    var v1 := stack.Get(-6);
    var v2 := stack.Get(-5);
    stack.Erase(-6, -4);
    assert stack.items == base + [c, d, e, f];
    stack.Push(v1);
    stack.Push(v2);
    assert stack.items == base + [c, d, e, f, a, b];
  }

  method RunShuffle(stack: Stack, v: byte) returns (ok: bool)
    requires Shuffle(v).Some?
    modifies stack
    ensures ok == (|old(stack.items)| >= Shuffle(v).value.arity)
    ensures if ok then stack.items == Shuffling(v, old(stack.items)) else stack.items == old(stack.items)
  {
    hide Shuffling;
    var n := Shuffle(v).value.arity;
    if |stack.items| < n {
      return false;
    }
    if n == 1 {
      ShuffleOne(stack, v);
    } else if n == 2 {
      ShuffleTwo(stack, v);
    } else if n == 3 {
      ShuffleThree(stack, v);
    } else if n == 4 {
      ShuffleMore(stack, v);
    } else {
      RotateSix(stack);
    }
    ok := true;
  }

  /** PICK and ROLL at a depth. */
  method PickItem(stack: Stack, k: nat, roll: bool)
    requires k < |stack.items|
    modifies stack
    ensures stack.items == PickedItems(old(stack.items), k, roll)
  {
    if roll {
      var x := stack.Remove(-1 - k);
      stack.Push(x);
    } else {
      var x := stack.Get(-1 - k);
      stack.Push(x);
    }
  }

  // ----- numbers

  /** `btc_stack_get_num`. */
  method GetNum(env: Env, stack: Stack, index: int, limit: nat) returns (n: Option<int>)
    requires InRange(stack.items, index)
    ensures n == Number(env, stack.items[Place(stack.items, index)], limit)
  {
    var x := stack.Get(index);
    if |x| > limit {
      return None;
    }
    if env.minimal && !IsMinimal(x) {
      return None;
    }
    var z := ImportLoop(x);
    n := Some(z);
  }

  /** `btc_stack_get_int`. */
  method GetInt(env: Env, stack: Stack, index: int, limit: nat) returns (n: Option<int>)
    requires InRange(stack.items, index)
    ensures var x := Number(env, stack.items[Place(stack.items, index)], limit);
            n == if x.None? then None else Some(Saturated(x.value))
  {
    hide Number;
    var z := GetNum(env, stack, index, limit);
    if z.None? {
      return None;
    }
    n := Some(Saturated(z.value));
  }

  method PushNum(stack: Stack, n: int)
    modifies stack
    ensures stack.items == old(stack.items) + [Export(n)]
  {
    var x := ExportLoop(n);
    stack.Push(x);
  }

  /** What a step came to, against what the machine says. */
  ghost predicate Agrees(err: Option<Error>, spec: Result<State>, now: State) {
    match spec
    case Ok(m) => err == None && now == m
    case Err(e, left) => err == Some(e) && now.stack == left
  }

  class Interp {
    const env: Env
    const stack: Stack
    const alt: Stack
    const reader: Cursor
    const subscript: Script
    var conds: seq<bool>
    var opcount: nat
    var negate: int
    var begin: seq<byte>

    ghost predicate Valid()
      reads reader
    {
      stack != alt && reader.Valid()
    }

    ghost function Snapshot(): (m: State)
      requires Valid()
      reads this, stack, alt, reader
    {
      State(stack.items, alt.items, conds, opcount, negate, reader.Rest(), begin)
    }

    constructor (e: Env, script: seq<byte>, s: Stack)
      ensures Valid() && env == e && stack == s && fresh(alt) && fresh(reader) && fresh(subscript)
      ensures Snapshot() == Start(script, s.items)
    {
      env, stack := e, s;
      alt := new Stack([]);
      reader := new Cursor(script);
      subscript := new Script([]);
      conds, opcount, negate, begin := [], 0, 0, script;
    }

    method DoShuffleOp(v: byte) returns (err: Option<Error>)
      requires Valid() && Shuffle(v).Some?
      modifies stack
      ensures Valid() && Agrees(err, DoShuffle(old(Snapshot()), Shuffle(v).value), Snapshot())
    {
      hide Shuffle, Shuffled;
      var ok := RunShuffle(stack, v);
      err := if ok then None else Some(InvalidStack);
    }

    method DoUnaryOp(v: byte) returns (err: Option<Error>)
      requires Valid() && Unary(v, 0).Some?
      modifies stack
      ensures Valid() && Agrees(err, DoUnary(env, old(Snapshot()), v), Snapshot())
    {
      hide Number, Export;
      if |stack.items| < 1 {
        return Some(InvalidStack);
      }
      var num := GetNum(env, stack, -1, 4);
      if num.None? {
        return Some(UnknownError);
      }
      var n := num.value;
      if v == 0x8b {
        n := n + 1;
      } else if v == 0x8c {
        n := n - 1;
      } else if v == 0x8f {
        n := -n;
      } else if v == 0x90 {
        if n < 0 {
          n := -n;
        }
      } else if v == 0x91 {
        n := if n == 0 then 1 else 0;
      } else {
        n := if n != 0 then 1 else 0;
      }
      stack.Drop();
      PushNum(stack, n);
      err := None;
    }

    method DoBinaryOp(v: byte) returns (err: Option<Error>)
      requires Valid() && Binary(v, 0, 0).Some?
      modifies stack
      ensures Valid() && Agrees(err, DoBinary(env, old(Snapshot()), v), Snapshot())
    {
      hide Number, Export, Import, Truth, Binary;
      if |stack.items| < 2 {
        return Some(InvalidStack);
      }
      var n1 := GetNum(env, stack, -2, 4);
      if n1.None? {
        return Some(UnknownError);
      }
      var n2 := GetNum(env, stack, -1, 4);
      if n2.None? {
        return Some(UnknownError);
      }
      var num := Compute(v, n1.value, n2.value);
      ghost var base := stack.items[..|stack.items| - 2];
      stack.Drop();
      stack.Drop();
      assert stack.items == base;
      PushNum(stack, num);
      if v == 0x9d {
        var x := stack.Get(-1);
        var b := GetBool(x);
        TruthIsNonzero(x);
        ImportUndoesExport(num);
        if !b {
          return Some(NumEqualVerify);
        }
        stack.Drop();
        assert stack.items == base;
      }
      err := None;
    }

    method Compute(v: byte, n1: int, n2: int) returns (num: int)
      requires Binary(v, 0, 0).Some?
      ensures Binary(v, n1, n2) == Some(num)
    {
      if v == 0x93 {
        num := n1 + n2;
      } else if v == 0x94 {
        num := n1 - n2;
      } else if v == 0x9a {
        num := if n1 != 0 && n2 != 0 then 1 else 0;
      } else if v == 0x9b {
        num := if n1 != 0 || n2 != 0 then 1 else 0;
      } else if v == 0x9c || v == 0x9d {
        num := if n1 == n2 then 1 else 0;
      } else if v == 0x9e {
        num := if n1 != n2 then 1 else 0;
      } else if v == 0x9f {
        num := if n1 < n2 then 1 else 0;
      } else if v == 0xa0 {
        num := if n1 > n2 then 1 else 0;
      } else if v == 0xa1 {
        num := if n1 <= n2 then 1 else 0;
      } else if v == 0xa2 {
        num := if n1 >= n2 then 1 else 0;
      } else if v == 0xa3 {
        num := if n1 < n2 then n1 else n2;
      } else {
        num := if n1 > n2 then n1 else n2;
      }
    }

    method DoWithinOp() returns (err: Option<Error>)
      requires Valid()
      modifies stack
      ensures Valid() && Agrees(err, DoWithin(env, old(Snapshot())), Snapshot())
    {
      hide Number;
      if |stack.items| < 3 {
        return Some(InvalidStack);
      }
      var n1 := GetNum(env, stack, -3, 4);
      if n1.None? {
        return Some(UnknownError);
      }
      var n2 := GetNum(env, stack, -2, 4);
      if n2.None? {
        return Some(UnknownError);
      }
      var n3 := GetNum(env, stack, -1, 4);
      if n3.None? {
        return Some(UnknownError);
      }
      ghost var base := stack.items[..|stack.items| - 3];
      stack.Drop();
      stack.Drop();
      stack.Drop();
      assert stack.items == base;
      stack.Push(Boolean(n2.value <= n1.value && n1.value < n3.value));
      err := None;
    }

    method DoIfOp(v: byte) returns (err: Option<Error>)
      requires Valid()
      modifies this, stack
      ensures Valid() && Agrees(err, DoIf(env, old(Snapshot()), v), Snapshot())
    {
      hide Truth;
      var val := false;
      if negate == 0 {
        if |stack.items| < 1 {
          return Some(Unbalanced);
        }
        if env.minimalIf {
          var item := stack.Get(-1);
          if |item| > 1 {
            return Some(MinimalIf);
          }
          if |item| == 1 && item[0] != 1 {
            return Some(MinimalIf);
          }
          assert item == [] || item == [1];
        }
        var x := stack.Get(-1);
        val := GetBool(x);
        if v == 0x64 {
          val := !val;
        }
        stack.Drop();
      }
      conds := conds + [val];
      if !val {
        negate := negate + 1;
      }
      err := None;
    }

    method DoElseOp() returns (err: Option<Error>)
      requires Valid()
      modifies this
      ensures Valid() && Agrees(err, DoElse(old(Snapshot())), Snapshot())
    {
      if |conds| == 0 {
        return Some(Unbalanced);
      }
      var k := |conds| - 1;
      conds := conds[k := !conds[k]];
      if !conds[k] {
        negate := negate + 1;
      } else {
        negate := negate - 1;
      }
      err := None;
    }

    method DoEndifOp() returns (err: Option<Error>)
      requires Valid()
      modifies this
      ensures Valid() && Agrees(err, DoEndif(old(Snapshot())), Snapshot())
    {
      if |conds| == 0 {
        return Some(Unbalanced);
      }
      var top := conds[|conds| - 1];
      conds := conds[..|conds| - 1];
      if !top {
        negate := negate - 1;
      }
      err := None;
    }

    method DoVerifyOp() returns (err: Option<Error>)
      requires Valid()
      modifies stack
      ensures Valid() && Agrees(err, DoVerify(old(Snapshot())), Snapshot())
    {
      hide Truth;
      if |stack.items| == 0 {
        return Some(InvalidStack);
      }
      var x := stack.Get(-1);
      var b := GetBool(x);
      if !b {
        return Some(Verify);
      }
      stack.Drop();
      err := None;
    }

    method DoAltOp(to: bool) returns (err: Option<Error>)
      requires Valid()
      modifies stack, alt
      ensures Valid() && Agrees(err, if to then DoToAlt(old(Snapshot())) else DoFromAlt(old(Snapshot())), Snapshot())
    {
      if to {
        if |stack.items| == 0 {
          return Some(InvalidStack);
        }
        var x := stack.Pop();
        alt.Push(x);
        assert stack.items == old(stack.items)[..|old(stack.items)| - 1];
      } else {
        if |alt.items| == 0 {
          return Some(InvalidAltStack);
        }
        var x := alt.Pop();
        stack.Push(x);
        assert alt.items == old(alt.items)[..|old(alt.items)| - 1];
      }
      err := None;
    }

    method DoIfdupOp() returns (err: Option<Error>)
      requires Valid()
      modifies stack
      ensures Valid() && Agrees(err, DoIfdup(old(Snapshot())), Snapshot())
    {
      hide Truth;
      if |stack.items| == 0 {
        return Some(InvalidStack);
      }
      var x := stack.Get(-1);
      var b := GetBool(x);
      if b {
        stack.Push(x);
      }
      err := None;
    }

    method DoSizeOp() returns (err: Option<Error>)
      requires Valid()
      modifies stack
      ensures Valid() && Agrees(err, DoSize(old(Snapshot())), Snapshot())
    {
      hide Export;
      if |stack.items| < 1 {
        return Some(InvalidStack);
      }
      var x := stack.Get(-1);
      PushNum(stack, |x|);
      err := None;
    }

    method DoPickOp(roll: bool) returns (err: Option<Error>)
      requires Valid()
      modifies stack
      ensures Valid() && Agrees(err, DoPick(env, old(Snapshot()), roll), Snapshot())
    {
      hide Number, PickedItems;
      if |stack.items| < 2 {
        return Some(InvalidStack);
      }
      var num := GetInt(env, stack, -1, 4);
      if num.None? {
        return Some(UnknownError);
      }
      stack.Drop();
      if num.value < 0 || num.value >= |stack.items| {
        return Some(InvalidStack);
      }
      PickItem(stack, num.value, roll);
      err := None;
    }

    method DoEqualOp(v: byte) returns (err: Option<Error>)
      requires Valid()
      modifies stack
      ensures Valid() && Agrees(err, DoEqual(old(Snapshot()), v), Snapshot())
    {
      if |stack.items| < 2 {
        return Some(InvalidStack);
      }
      var v1 := stack.Get(-2);
      var v2 := stack.Get(-1);
      var res := v1 == v2;
      ghost var base := stack.items[..|stack.items| - 2];
      stack.Drop();
      stack.Drop();
      assert stack.items == base;
      stack.Push(Boolean(res));
      if v == 0x88 {
        if !res {
          return Some(EqualVerify);
        }
        stack.Drop();
        assert stack.items == base;
      }
      err := None;
    }

    method DoHashOp(v: byte) returns (err: Option<Error>)
      requires Valid()
      modifies stack
      ensures Valid() && Agrees(err, DoHash(env, old(Snapshot()), v), Snapshot())
    {
      if |stack.items| == 0 {
        return Some(InvalidStack);
      }
      var x := stack.Get(-1);
      var h := env.hash(v, x);
      stack.Drop();
      stack.Push(h);
      err := None;
    }

    method DoLockOp(on: bool, met: int -> bool) returns (err: Option<Error>)
      requires Valid()
      ensures Agrees(err, DoLock(env, Snapshot(), on, met), Snapshot())
    {
      hide Number;
      if !on {
        return if env.discourageNops then Some(DiscourageNops) else None;
      }
      if !env.hasTx {
        return Some(UnknownError);
      }
      if |stack.items| == 0 {
        return Some(InvalidStack);
      }
      var t := GetNum(env, stack, -1, 5);
      if t.None? {
        return Some(UnknownError);
      }
      if t.value < 0 {
        return Some(NegativeLocktime);
      }
      if !met(t.value) {
        return Some(UnsatisfiedLocktime);
      }
      err := None;
    }

    method CutSignature(sig: Item)
      modifies subscript
      ensures subscript.data == Subscript(env, begin, [sig])
    {
      hide Deleted, PushOf, Count, Ops, Subscript;
      SubscriptOne(env, begin, sig);
      subscript.data := begin;
      if env.legacy {
        var found := subscript.FindAndDelete(sig);
      }
    }

    method DoCheckSigOp(v: byte) returns (err: Option<Error>)
      requires Valid()
      modifies stack, subscript
      ensures Valid() && Agrees(err, DoCheckSig(env, old(Snapshot()), v), Snapshot())
    {
      hide Subscript;
      if !env.hasTx {
        return Some(UnknownError);
      }
      if |stack.items| < 2 {
        return Some(InvalidStack);
      }
      var sig := stack.Get(-2);
      var key := stack.Get(-1);
      CutSignature(sig);
      var refused := env.refuse(sig, key);
      if refused.Some? {
        return refused;
      }
      var res := false;
      if |sig| > 0 {
        res := env.verify(subscript.data, sig, key);
      }
      if !res && env.nullFail {
        if |sig| != 0 {
          return Some(NullFail);
        }
      }
      ghost var base := stack.items[..|stack.items| - 2];
      stack.Drop();
      stack.Drop();
      assert stack.items == base;
      stack.Push(Boolean(res));
      if v == 0xad {
        if !res {
          return Some(CheckSigVerify);
        }
        stack.Drop();
        assert stack.items == base;
      }
      err := None;
    }

    /** The signed script of a multisig: all signatures cut out, one after the other. */
    method CutSignatures(isig: nat, m: nat, ghost n: nat)
      requires isig == n + 3 && n + m + 3 <= |stack.items|
      modifies subscript
      ensures subscript.data == Subscript(env, begin, Sigs(stack.items, n, m))
    {
      hide Deleted, PushOf, Count, Ops, Subscript;
      subscript.data := begin;
      ghost var sigs := Sigs(stack.items, n, m);
      SubscriptNone(env, begin);
      assert sigs[..0] == [];
      var j := 0;
      while j < m
        invariant 0 <= j <= m && subscript.data == Subscript(env, begin, sigs[..j])
      {
        var sig := stack.Get(0 - isig - j);
        assert sig == sigs[j];
        SubscriptNext(env, begin, sigs, j);
        if env.legacy {
          var found := subscript.FindAndDelete(sig);
        }
        j := j + 1;
      }
      assert sigs[..m] == sigs;
    }

    /** The scan; every index it reads is in range. */
    method ScanStack(n0: nat, m0: nat) returns (r: Outcome<Error>)
      requires m0 <= n0 && n0 + m0 + 3 <= |stack.items|
      ensures r == Scan(Sigs(stack.items, n0, m0), Keys(stack.items, n0), Verifier(env, subscript.data), env.refuse)
    {
      hide Scan, Verifier;
      ghost var sigs, keys, ok := Sigs(stack.items, n0, m0), Keys(stack.items, n0), Verifier(env, subscript.data);
      var n, m, ikey, isig := n0, m0, 2, n0 + 3;
      var res := true;
      assert sigs[0..] == sigs && keys[0..] == keys;
      while res && m > 0
        invariant 0 <= m <= m0 && 0 <= n <= n0 && ikey == 2 + (n0 - n) && isig == n0 + 3 + (m0 - m)
        invariant res == (m <= n)
        invariant Scan(sigs[m0 - m..], keys[n0 - n..], ok, env.refuse) == Scan(sigs, keys, ok, env.refuse)
        decreases n
      {
        var sig := stack.Get(-isig);
        var key := stack.Get(-ikey);
        assert sig == sigs[m0 - m] && key == keys[n0 - n];
        ScanTurn(sigs, keys, m0 - m, n0 - n, ok, env.refuse);
        var refused := env.refuse(sig, key);
        if refused.Some? {
          return Refused(refused.value);
        }
        VerifierIs(env, subscript.data, sig, key);
        if |sig| > 0 {
          if env.verify(subscript.data, sig, key) {
            isig := isig + 1;
            m := m - 1;
          }
        }
        ikey := ikey + 1;
        n := n - 1;
        if m > n {
          res := false;
        }
      }
      ScanDone(sigs, keys, m0 - m, n0 - n, ok, env.refuse);
      r := Decided(res);
    }

    /** Everything but the dummy is dropped; failing signatures must be empty where that is asked. */
    method DropAll(n: nat, m: nat, res: bool) returns (err: Option<Error>)
      requires n + m + 3 <= |stack.items|
      modifies stack
      ensures var s := old(stack.items); var first := FirstFull(Sigs(s, n, m));
              if !res && env.nullFail && first < m then err == Some(NullFail) && stack.items == s[..|s| - n - 2 - first]
              else err == None && stack.items == s[..|s| - n - m - 2]
    {
      hide FirstFull;
      ghost var s := stack.items;
      ghost var sigs := Sigs(s, n, m);
      var i, okey := n + m + 3, n + 2;
      while i > 1
        invariant 1 <= i <= n + m + 3 && stack.items == s[..|s| - (n + m + 3 - i)]
        invariant okey == if i > m + 1 then i - m - 1 else 0
        invariant !res && env.nullFail && i <= m + 1 ==> forall j :: 0 <= j < m + 1 - i ==> sigs[j] == []
      {
        if !res && env.nullFail {
          if okey == 0 {
            var x := stack.Get(-1);
            assert x == sigs[m + 1 - i];
            if |x| != 0 {
              FirstFullIs(sigs, m + 1 - i);
              return Some(NullFail);
            }
          }
        }
        if okey > 0 {
          okey := okey - 1;
        }
        stack.Drop();
        i := i - 1;
      }
      if !res && env.nullFail {
        FirstFullIs(sigs, m);
      }
      err := None;
    }

    method DoMultisigOp(v: byte) returns (err: Option<Error>)
      requires Valid()
      modifies this`opcount, stack, subscript
      ensures Valid() && Agrees(err, DoMultisig(env, old(Snapshot()), v), Snapshot())
    {
      hide Number, DoMultisigSigs;
      if !env.hasTx {
        return Some(UnknownError);
      }
      var i := 1;
      if |stack.items| < i {
        return Some(InvalidStack);
      }
      var n := GetInt(env, stack, -i, 4);
      if n.None? {
        return Some(UnknownError);
      }
      if n.value < 0 || n.value > MAX_KEYS {
        return Some(PubkeyCount);
      }
      opcount := opcount + n.value;
      if opcount > MAX_OPS {
        return Some(OpCount);
      }
      i := i + 1;
      i := i + n.value;
      if |stack.items| < i {
        return Some(InvalidStack);
      }
      var m := GetInt(env, stack, -i, 4);
      if m.None? {
        return Some(UnknownError);
      }
      if m.value < 0 || m.value > n.value {
        return Some(SigCount);
      }
      i := i + 1;
      i := i + m.value;
      if |stack.items| < i {
        return Some(InvalidStack);
      }
      err := FinishMultisig(v, n.value, m.value);
    }

    method FinishMultisig(v: byte, n: nat, m: nat) returns (err: Option<Error>)
      requires Valid() && m <= n && n + m + 3 <= |stack.items|
      modifies stack, subscript
      ensures Valid() && Agrees(err, DoMultisigSigs(env, old(Snapshot()), v, n, m), Snapshot())
    {
      hide Scan, Verifier, Subscript, Sigs, Keys, FirstFull;
      ghost var s := stack.items;
      CutSignatures(n + 3, m, n);
      var scan := ScanStack(n, m);
      if scan.Refused? {
        return Some(scan.error);
      }
      var res := scan.verified;
      err := DropAll(n, m, res);
      if err.Some? {
        return;
      }
      if env.nullDummy {
        var dummy := stack.Get(-1);
        if |dummy| != 0 {
          return Some(NullDummy);
        }
      }
      ghost var base := s[..|s| - n - m - 3];
      stack.Drop();
      assert stack.items == base;
      stack.Push(Boolean(res));
      if v == 0xaf {
        if !res {
          return Some(CheckMultisigVerify);
        }
        stack.Drop();
        assert stack.items == base;
      }
    }

    method DoPlainOp(v: byte) returns (err: Option<Error>)
      requires Valid() && (v == 0x4f || 0x51 <= v <= 0x61 || v == 0x74 || v == 0xab || v == 0x6a || v == 0xb0 || 0xb3 <= v <= 0xb9)
      modifies this`begin, stack
      ensures Valid() && Agrees(err, DoMisc(env, old(Snapshot()), v), Snapshot())
    {
      hide Export;
      if v == 0x4f {
        PushNum(stack, -1);
      } else if 0x51 <= v <= 0x60 {
        PushNum(stack, v as int - 0x50);
      } else if v == 0x74 {
        PushNum(stack, |stack.items|);
      } else if v == 0xab {
        begin := reader.data[reader.pos..];
      } else if v == 0x6a {
        return Some(OpReturn);
      } else if v != 0x61 {
        if env.discourageNops {
          return Some(DiscourageNops);
        }
      }
      err := None;
    }

    method DoMiscOp(v: byte) returns (err: Option<Error>)
      requires Valid()
      modifies this, stack, alt, subscript
      ensures Valid() && Agrees(err, DoMisc(env, old(Snapshot()), v), Snapshot())
    {
      hide DoLock, DoIf, DoElse, DoEndif, DoVerify, DoToAlt, DoFromAlt, DoIfdup, DoPick, DoSize, DoEqual, DoWithin,
        DoHash, DoCheckSig, DoMultisig, Export;
      if v == 0x4f || 0x51 <= v <= 0x61 || v == 0x74 || v == 0xab || v == 0x6a || v == 0xb0 || 0xb3 <= v <= 0xb9 {
        err := DoPlainOp(v);
      } else if v == 0xb1 {
        err := DoLockOp(env.cltv, env.locktime);
      } else if v == 0xb2 {
        err := DoLockOp(env.csv, env.sequence);
      } else if v == 0x63 || v == 0x64 {
        err := DoIfOp(v);
      } else if v == 0x67 {
        err := DoElseOp();
      } else if v == 0x68 {
        err := DoEndifOp();
      } else if v == 0x69 {
        err := DoVerifyOp();
      } else if v == 0x6b || v == 0x6c {
        err := DoAltOp(v == 0x6b);
      } else if v == 0x73 {
        err := DoIfdupOp();
      } else if v == 0x79 || v == 0x7a {
        err := DoPickOp(v == 0x7a);
      } else if v == 0x82 {
        err := DoSizeOp();
      } else if v == 0x87 || v == 0x88 {
        err := DoEqualOp(v);
      } else if v == 0xa5 {
        err := DoWithinOp();
      } else if 0xa6 <= v <= 0xaa {
        err := DoHashOp(v);
      } else if v == 0xac || v == 0xad {
        err := DoCheckSigOp(v);
      } else if v == 0xae || v == 0xaf {
        err := DoMultisigOp(v);
      } else {
        err := Some(BadOpcode);
      }
    }

    method DoExec(v: byte) returns (err: Option<Error>)
      requires Valid()
      modifies this, stack, alt, subscript
      ensures Valid() && Agrees(err, Exec(env, old(Snapshot()), v), Snapshot())
    {
      hide DoShuffle, DoUnary, DoBinary, DoMisc, Shuffle, Unary, Binary;
      if Shuffle(v).Some? {
        err := DoShuffleOp(v);
      } else if Unary(v, 0).Some? {
        err := DoUnaryOp(v);
      } else if Binary(v, 0, 0).Some? {
        err := DoBinaryOp(v);
      } else {
        err := DoMiscOp(v);
      }
    }

    /** One turn of the loop. */
    method Turn() returns (err: Option<Error>)
      requires Valid()
      modifies this, stack, alt, subscript, reader
      ensures Valid() && Agrees(err, Next(env, old(Snapshot())), Snapshot())
    {
      hide Exec, ParseOpcode, MinimalPush, IsDisabled;
      var read := ReadOpcode(reader);
      if read.None? {
        return Some(BadOpcode);
      }
      var op := read.value;
      if |op.data| > MAX_PUSH {
        return Some(PushSize);
      }
      if op.value > 0x60 {
        opcount := opcount + 1;
        if opcount > MAX_OPS {
          return Some(OpCount);
        }
      }
      if IsDisabled(op.value) {
        return Some(DisabledOpcode);
      }
      if negate != 0 && !IsBranch(op.value) {
        return if |stack.items| + |alt.items| > MAX_STACK then Some(StackSize) else None;
      }
      if op.value <= PUSHDATA4 {
        if env.minimal && !MinimalPush(op) {
          return Some(MinimalData);
        }
        stack.Push(op.data);
      } else {
        err := DoExec(op.value);
        if err.Some? {
          return;
        }
      }
      err := if |stack.items| + |alt.items| > MAX_STACK then Some(StackSize) else None;
    }

    method Loop() returns (err: Option<Error>)
      requires Valid()
      modifies this, stack, alt, subscript, reader
      ensures Valid() && Agrees(err, Run(env, old(Snapshot())), Snapshot())
    {
      hide Next, Run;
      while reader.pos < |reader.data|
        invariant Valid() && Run(env, Snapshot()) == Run(env, old(Snapshot()))
        decreases |reader.Rest()|
      {
        ghost var m := Snapshot();
        RunStep(env, m);
        err := Turn();
        if err.Some? {
          return;
        }
      }
      RunEnd(env, Snapshot());
      if |conds| != 0 {
        return Some(Unbalanced);
      }
      err := None;
    }
  }

  /** `btc_script_execute`. */
  method Execute(env: Env, script: seq<byte>, stack: Stack) returns (err: Option<Error>)
    modifies stack
    ensures match Executed(env, script, old(stack.items))
            case Ok(m) => err == None && stack.items == m.stack
            case Err(e, left) => err == Some(e) && stack.items == left
    ensures err == None && script != [] ==> |stack.items| <= MAX_STACK
    ensures err == None && AllShort(old(stack.items)) ==> AllShort(stack.items)
  {
    hide Run, Start;
    if |script| > MAX_SCRIPT_SIZE {
      return Some(ScriptSize);
    }
    ghost var spec := Run(env, Start(script, stack.items));
    var it := new Interp(env, script, stack);
    err := it.Loop();
    assert Agrees(err, spec, it.Snapshot());
    if err == None {
      ExecutedKeeps(env, script, old(stack.items));
    }
  }

  // ----- steps of the proofs

  lemma FirstFullIs(s: Items, k: nat)
    requires k <= |s| && (forall j :: 0 <= j < k ==> s[j] == []) && (k < |s| ==> s[k] != [])
    ensures FirstFull(s) == k
  {
    if k > 0 { FirstFullIs(s[1..], k - 1); }
  }

  lemma ScanTurn(sigs: Items, keys: Items, a: nat, b: nat, ok: (Item, Item) -> bool, refuse: (Item, Item) -> Option<Error>)
    requires a < |sigs| && b < |keys| && |sigs| - a <= |keys| - b
    ensures Scan(sigs[a..], keys[b..], ok, refuse) ==
            if refuse(sigs[a], keys[b]).Some? then Refused(refuse(sigs[a], keys[b]).value)
            else Scan(sigs[if ok(sigs[a], keys[b]) then a + 1 else a..], keys[b + 1..], ok, refuse)
  {
    assert sigs[a..][1..] == sigs[a + 1..] && keys[b..][1..] == keys[b + 1..];
  }

  lemma ScanDone(sigs: Items, keys: Items, a: nat, b: nat, ok: (Item, Item) -> bool, refuse: (Item, Item) -> Option<Error>)
    requires a <= |sigs| && b <= |keys|
    ensures a == |sigs| ==> Scan(sigs[a..], keys[b..], ok, refuse) == Decided(true)
    ensures a < |sigs| && |sigs| - a > |keys| - b ==> Scan(sigs[a..], keys[b..], ok, refuse) == Decided(false)
  {}

  lemma VerifierIs(env: Env, sub: seq<byte>, sig: Item, key: Item)
    ensures Verifier(env, sub)(sig, key) == (|sig| > 0 && env.verify(sub, sig, key))
  {}
}
