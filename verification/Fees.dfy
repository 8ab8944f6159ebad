/** Fees, dust, and subtracting a fee from the outputs of a transaction. */
module Fees {
  import opened Arith
  import opened Wire
  import opened Consensus

  const MIN_RELAY: nat := 1000

  // ----- fees

  function GetFee(rate: nat, size: nat): (fee: nat) {
    if size == 0 then 0 else
      MulMono(0, size, rate);
      var fee := rate * size / 1000;
      if fee == 0 && rate > 0 then rate else fee
  }

  function RoundFee(rate: nat, size: nat): (fee: nat) {
    if size == 0 then 0 else
      MulMono(0, (size + 999) / 1000, rate);
      var fee := rate * ((size + 999) / 1000);
      if fee == 0 && rate > 0 then rate else fee
  }

  function ClampFee(fee: int): (r: nat)
    ensures 1000 <= r <= COIN / 10
    ensures r == fee || (fee < 1000 && r == 1000) || (fee > COIN / 10 && r == COIN / 10)
  {
    if fee < 1000 then 1000 else if fee > COIN / 10 then COIN / 10 else fee
  }

  function FeeAt(round: bool, rate: nat, size: nat): (fee: nat) {
    ClampFee(if round then RoundFee(rate, size) else GetFee(rate, size))
  }

  /** The bare fee is not monotone in the size: a fee that rounds down to nothing becomes the rate. */
  lemma GetFeeNotMonotone()
    ensures GetFee(500, 1) > GetFee(500, 2)
  {}

  ghost predicate GetFeeMonotone(rate: nat) {
    forall size: nat, size': nat :: size <= size' ==> GetFee(rate, size) <= GetFee(rate, size')
  }

  lemma GetFeeGrows(rate: nat, size: nat, size': nat)
    requires (rate <= 1 || rate >= 1000) && size <= size'
    ensures GetFee(rate, size) <= GetFee(rate, size')
  {
    if 0 < size && 0 < rate {
      MulMono(size, size', rate);
      DivMono(rate * size, rate * size', 1000);
      if rate >= 1000 {
        MulMono2(1000, rate, 1, size);
        DivMono(1000, rate * size, 1000);
      }
    }
  }

  /** Where it falls: one unit costs the rate, but enough units to make up a thousand cost one. */
  lemma GetFeeFalls(rate: nat) returns (size: nat)
    requires 1 < rate < 1000
    ensures 1 <= size && GetFee(rate, 1) > GetFee(rate, size)
  {
    size := (1000 + rate - 1) / rate;
    var n := 1000 + rate - 1;
    assert n == size * rate + n % rate;
    assert 1000 <= rate * size < 2000;
  }

  /** The bare fee is monotone in the size exactly for rates of at most one or at least a thousand. */
  lemma GetFeeMonotoneExactly(rate: nat)
    ensures GetFeeMonotone(rate) <==> rate <= 1 || rate >= 1000
  {
    hide GetFee;
    if rate <= 1 || rate >= 1000 {
      forall size: nat, size': nat | size <= size' ensures GetFee(rate, size) <= GetFee(rate, size') {
        GetFeeGrows(rate, size, size');
      }
    } else {
      var size := GetFeeFalls(rate);
      assert GetFee(rate, 1) > GetFee(rate, size);
    }
  }

  lemma DivMono(x: nat, y: nat, d: nat)
    requires x <= y && d > 0
    ensures x / d <= y / d
  {
    var q, q' := x / d, y / d;
    assert q * d <= x && y < q' * d + d == (q' + 1) * d;
    MulCancelLess(q, q' + 1, d);
  }

  /** The exception only concerns fees the clamp raises to 1000 anyway. */
  lemma ClampedGetFee(rate: nat, size: nat)
    ensures rate * size >= 0 && ClampFee(GetFee(rate, size)) == ClampFee(rate * size / 1000)
  {
    MulMono(0, size, rate);
    if size == 0 {
      assert rate * size == 0;
    } else if rate * size / 1000 == 0 {
      MulMono(1, size, rate);
    }
  }

  lemma ClampedRoundFee(rate: nat, size: nat)
    ensures rate * ((size + 999) / 1000) >= 0 && RoundFee(rate, size) == rate * ((size + 999) / 1000)
  {
    var k := (size + 999) / 1000;
    MulMono(0, k, rate);
    if size > 0 { MulMono(1, k, rate); }
  }

  lemma ClampMono(x: int, y: int)
    requires x <= y
    ensures ClampFee(x) <= ClampFee(y)
  {}

  /** A clamped fee never falls as the transaction grows. */
  lemma FeeMonotone(round: bool, rate: nat, size: nat, size': nat)
    requires size <= size'
    ensures FeeAt(round, rate, size) <= FeeAt(round, rate, size')
  {
    if round {
      ClampedRoundFee(rate, size);
      ClampedRoundFee(rate, size');
      DivMono(size + 999, size' + 999, 1000);
      var k, k' := (size + 999) / 1000, (size' + 999) / 1000;
      MulMono(k, k', rate);
      ClampMono(rate * k, rate * k');
    } else {
      ClampedGetFee(rate, size);
      ClampedGetFee(rate, size');
      MulMono(size, size', rate);
      DivMono(rate * size, rate * size', 1000);
      ClampMono(rate * size / 1000, rate * size' / 1000);
    }
  }

  /** The fee of a size: the rate for a thousand, in proportion and rounded down, or for every thousand
      begun; but no less than 1000 and no more than a tenth of a coin. */
  lemma FeeExact(round: bool, rate: nat, size: nat)
    ensures var fee := FeeAt(round, rate, size);
            && 1000 <= fee <= 10_000_000
            && (1000 < fee ==> if round then exists k: nat :: 1000 * k < size + 1000 && fee <= rate * k else 1000 * fee <= rate * size)
            && (fee < 10_000_000 ==> if round then forall k: nat :: 1000 * k < size + 1000 ==> rate * k <= fee
                                     else rate * size < 1000 * (fee + 1))
  {
    var fee := FeeAt(round, rate, size);
    if round {
      ClampedRoundFee(rate, size);
      var n := (size + 999) / 1000;
      assert 1000 * n < size + 1000;
      forall k: nat | 1000 * k < size + 1000 ensures rate * k <= rate * n {
        MulMono(k, n, rate);
      }
    } else {
      ClampedGetFee(rate, size);
    }
  }

  // ----- outputs

  /** What dust depends on: how long a script is, and whether it is unspendable or a witness program. */
  datatype Script = Script(length: nat, unspendable: bool, program: bool)

  datatype Output = Output(value: int, script: Script)

  function OutputSize(s: Script): (n: nat) {
    8 + CompactSize(s.length) + s.length
  }

  function DustThreshold(s: Script): (t: nat) {
    if s.unspendable then 0
    else 3 * GetFee(MIN_RELAY, OutputSize(s) + if s.program then 32 + 4 + 1 + 107 / 4 + 4 else 32 + 4 + 1 + 107 + 4)
  }

  /** Dust: three times the size of the output and of an input that spends it, a witness program's input
      being smaller; 546 for a key hash, 540 for a script hash, 294 and 330 for their witness forms. */
  lemma DustExact(s: Script)
    ensures DustThreshold(s) == if s.unspendable then 0 else 3 * (OutputSize(s) + if s.program then 67 else 148)
    ensures DustThreshold(Script(25, false, false)) == 546 && DustThreshold(Script(23, false, false)) == 540
    ensures DustThreshold(Script(22, false, true)) == 294 && DustThreshold(Script(34, false, true)) == 330
  {
    forall n: nat ensures GetFee(MIN_RELAY, n) == n {}
    hide GetFee;
  }

  function Total(outs: seq<Output>): (v: int) {
    if outs == [] then 0 else Total(outs[..|outs| - 1]) + outs[|outs| - 1].value
  }

  lemma TotalSnoc(outs: seq<Output>, o: Output)
    ensures Total(outs + [o]) == Total(outs) + o.value
  {
    assert (outs + [o])[..|outs|] == outs;
  }

  lemma {:induction false} TotalUpdate(outs: seq<Output>, i: nat, o: Output)
    requires i < |outs|
    ensures Total(outs[i := o]) == Total(outs) - outs[i].value + o.value
    decreases |outs|
  {
    var n := |outs| - 1;
    if i == n {
      assert outs[i := o][..n] == outs[..n];
    } else {
      TotalUpdate(outs[..n], i, o);
      assert outs[i := o][..n] == outs[..n][i := o];
    }
  }

  function Payers(outs: seq<Output>): (n: nat)
    ensures n <= |outs|
  {
    if outs == [] then 0 else Payers(outs[..|outs| - 1]) + if outs[|outs| - 1].script.unspendable then 0 else 1
  }

  lemma PayersSnoc(outs: seq<Output>, i: nat)
    requires i < |outs|
    ensures Payers(outs[..i + 1]) == Payers(outs[..i]) + if outs[i].script.unspendable then 0 else 1
  {
    assert outs[..i + 1][..i] == outs[..i];
  }

  function Lower(o: Output, amount: int): (r: Output) {
    o.(value := o.value - amount)
  }

  predicate Affords(o: Output, amount: int) {
    !o.script.unspendable && o.value >= amount + DustThreshold(o.script)
  }

  /** The first `k` outputs, less an even share. */
  function Shared(outs: seq<Output>, share: int, k: nat): (r: seq<Output>)
    requires k <= |outs|
    ensures |r| == |outs|
  {
    seq(|outs|, i requires 0 <= i < |outs| =>
      if i < k && !outs[i].script.unspendable then Lower(outs[i], share) else outs[i])
  }

  lemma SharedStep(outs: seq<Output>, share: int, k: nat)
    requires k < |outs|
    ensures Shared(outs, share, k + 1) ==
            if outs[k].script.unspendable then Shared(outs, share, k) else Shared(outs, share, k)[k := Lower(outs[k], share)]
  {}

  lemma {:induction false} SharedTotal(outs: seq<Output>, share: int, k: nat)
    requires k <= |outs|
    ensures Total(Shared(outs, share, k)) == Total(outs) - Paid(share, Payers(outs[..k]))
    decreases k
  {
    hide Total, Payers, Paid, Shared;
    if k == 0 {
      NoPayers(outs);
      NothingShared(outs, share);
    } else {
      SharedTotal(outs, share, k - 1);
      SharedStep(outs, share, k - 1);
      SharedRest(outs, share, k - 1);
      PayersSnoc(outs, k - 1);
      TotalUpdate(Shared(outs, share, k - 1), k - 1, Lower(outs[k - 1], share));
      PaidMore(share, Payers(outs[..k - 1]));
    }
  }

  function Paid(share: int, n: nat): (v: int) {
    share * n
  }

  lemma PaidMore(share: int, n: nat)
    ensures Paid(share, n + 1) == Paid(share, n) + share && Paid(share, 0) == 0
  {}

  lemma NothingShared(outs: seq<Output>, share: int)
    ensures Shared(outs, share, 0) == outs && Paid(share, 0) == 0
  {}

  lemma SharedRest(outs: seq<Output>, share: int, k: nat)
    requires k < |outs|
    ensures Shared(outs, share, k)[k] == outs[k]
  {}

  predicate PayersAfford(outs: seq<Output>, share: int) {
    forall i :: 0 <= i < |outs| && !outs[i].script.unspendable ==> Affords(outs[i], share)
  }

  predicate SomeAffords(outs: seq<Output>, left: int) {
    exists i :: 0 <= i < |outs| && Affords(outs[i], left)
  }

  /** The first output that can pay the remainder. */
  predicate FirstAffords(outs: seq<Output>, left: int, k: int) {
    0 <= k < |outs| && Affords(outs[k], left) && forall i :: 0 <= i < k ==> !Affords(outs[i], left)
  }

  /** When a fee can be subtracted: every payer affords the share, and one then affords the rest. */
  predicate CanSubtract(outs: seq<Output>, fee: nat) {
    var n := Payers(outs);
    && n > 0 && PayersAfford(outs, fee / n)
    && SomeAffords(Shared(outs, fee / n, |outs|), fee % n)
  }

  /** What is left: shares gone everywhere, the rest from the first output that affords it. */
  ghost predicate Subtracted(outs: seq<Output>, share: int, left: int, after: seq<Output>) {
    var mid := Shared(outs, share, |outs|);
    exists k :: FirstAffords(mid, left, k) && after == mid[k := Lower(mid[k], left)]
  }

  lemma SubtractedTotal(outs: seq<Output>, share: int, left: int, after: seq<Output>)
    requires Subtracted(outs, share, left, after)
    ensures Total(after) == Total(outs) - Paid(share, Payers(outs)) - left
  {
    hide DustThreshold, Total, Payers, Paid, Shared;
    var mid := Shared(outs, share, |outs|);
    var k :| FirstAffords(mid, left, k) && after == mid[k := Lower(mid[k], left)];
    SharedTotal(outs, share, |outs|);
    assert outs[..|outs|] == outs;
    TotalUpdate(mid, k, Lower(mid[k], left));
  }

  /** Exactly the fee is removed; scripts and unspendable outputs are left alone, and every other
      output stays at or above its dust threshold. */
  lemma SubtractsExactly(outs: seq<Output>, fee: nat, after: seq<Output>)
    requires CanSubtract(outs, fee) && Subtracted(outs, fee / Payers(outs), fee % Payers(outs), after)
    ensures Total(after) == Total(outs) - fee && |after| == |outs|
    ensures forall i :: 0 <= i < |outs| ==> after[i].script == outs[i].script
    ensures forall i :: 0 <= i < |outs| && outs[i].script.unspendable ==> after[i] == outs[i]
    ensures forall i :: 0 <= i < |outs| && !outs[i].script.unspendable ==> after[i].value >= DustThreshold(outs[i].script)
  {
    hide DustThreshold, Total, Payers;
    var n := Payers(outs);
    SubtractedTotal(outs, fee / n, fee % n, after);
    Division(fee, n);
  }

  lemma Division(x: nat, n: nat)
    requires n > 0
    ensures x == x / n * n + x % n && x / n * n == n * (x / n) && x % n >= 0
  {}

  class Tx<!Outpoint> {
    var inputs: seq<Outpoint>
    var outputs: seq<Output>

    constructor (ins: seq<Outpoint>, outs: seq<Output>)
      ensures inputs == ins && outputs == outs
    {
      inputs, outputs := ins, outs;
    }

    /** `subtract_pos`. */
    method SubtractAt(index: nat, fee: nat) returns (ok: bool)
      modifies this`outputs
      ensures ok <==> index < |old(outputs)| && old(outputs)[index].value >= fee + DustThreshold(old(outputs)[index].script)
      ensures !ok ==> outputs == old(outputs)
      ensures ok ==> outputs == old(outputs)[index := Lower(old(outputs)[index], fee)]
      ensures ok ==> Total(outputs) == Total(old(outputs)) - fee
    {
      if index >= |outputs| {
        return false;
      }
      var o := outputs[index];
      if o.value < fee + DustThreshold(o.script) {
        return false;
      }
      TotalUpdate(outputs, index, Lower(o, fee));
      outputs := outputs[index := Lower(o, fee)];
      ok := true;
    }

    /** `subtract_fee`: even shares first, then the remainder from one output. */
    method SubtractEvenly(fee: nat) returns (ok: bool)
      modifies this`outputs
      ensures ok == CanSubtract(old(outputs), fee)
      ensures ok ==> Subtracted(old(outputs), fee / Payers(old(outputs)), fee % Payers(old(outputs)), outputs)
    {
      hide DustThreshold, Payers;
      ghost var was := outputs;
      var n := CountPayers();
      if n == 0 {
        return false;
      }
      Division(fee, n);
      var share, left := fee / n, fee % n;
      var even := TakeShares(share);
      if !even {
        return false;
      }
      ghost var mid := outputs;
      var i := 0;
      while i < |outputs|
        invariant 0 <= i <= |outputs| && outputs == mid
        invariant forall j :: 0 <= j < i ==> !Affords(mid[j], left)
      {
        if outputs[i].script.unspendable {
          i := i + 1;
          continue;
        }
        if outputs[i].value >= left + DustThreshold(outputs[i].script) {
          assert Affords(mid[i], left) && FirstAffords(mid, left, i);
          outputs := outputs[i := Lower(outputs[i], left)];
          return true;
        }
        i := i + 1;
      }
      ok := false;
    }

    method CountPayers() returns (n: nat)
      ensures n == Payers(outputs)
    {
      hide Payers;
      var i := 0;
      n := 0;
      NoPayers(outputs);
      while i < |outputs|
        invariant 0 <= i <= |outputs| && n == Payers(outputs[..i])
      {
        PayersSnoc(outputs, i);
        if !outputs[i].script.unspendable {
          n := n + 1;
        }
        i := i + 1;
      }
      assert outputs[..i] == outputs;
    }

    method TakeShares(share: nat) returns (ok: bool)
      modifies this`outputs
      ensures ok == PayersAfford(old(outputs), share)
      ensures ok ==> outputs == Shared(old(outputs), share, |old(outputs)|)
    {
      hide DustThreshold;
      ghost var was := outputs;
      var i := 0;
      assert Shared(was, share, 0) == was;
      while i < |outputs|
        invariant 0 <= i <= |outputs| == |was| && outputs == Shared(was, share, i)
        invariant forall j :: 0 <= j < i && !was[j].script.unspendable ==> Affords(was[j], share)
      {
        SharedStep(was, share, i);
        assert outputs[i] == was[i];
        if outputs[i].script.unspendable {
          i := i + 1;
          continue;
        }
        if outputs[i].value < share + DustThreshold(outputs[i].script) {
          assert !Affords(was[i], share);
          return false;
        }
        outputs := outputs[i := Lower(outputs[i], share)];
        i := i + 1;
      }
      ok := true;
    }
  }

  lemma NoPayers(outs: seq<Output>)
    ensures Payers(outs[..0]) == 0
  {
    assert outs[..0] == [];
  }
}
