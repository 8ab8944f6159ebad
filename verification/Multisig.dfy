/** The m-of-n signature scan: keys are tried in order, each at most once. */
module Multisig {
  import opened Wire

  ghost predicate Ascending(f: seq<int>) {
    forall i, j :: 0 <= i < j < |f| ==> f[i] < f[j]
  }

  /** `f` gives every signature a key of its own, in order, that verifies it. */
  ghost predicate Assignment<S, K>(f: seq<int>, sigs: seq<S>, keys: seq<K>, ok: (S, K) -> bool) {
    && |f| == |sigs| && Ascending(f)
    && forall i :: 0 <= i < |f| ==> 0 <= f[i] < |keys| && ok(sigs[i], keys[f[i]])
  }

  ghost predicate Assignable<S, K>(sigs: seq<S>, keys: seq<K>, ok: (S, K) -> bool) {
    exists f :: Assignment(f, sigs, keys, ok)
  }

  /** The scan, when a pair that is tried may be refused. */
  datatype Outcome<E> = Refused(error: E) | Decided(verified: bool)

  function Scan<S, K, E>(sigs: seq<S>, keys: seq<K>, ok: (S, K) -> bool, refuse: (S, K) -> Option<E>): (r: Outcome<E>)
    decreases |keys|
  {
    if sigs == [] then Decided(true)
    else if |sigs| > |keys| then Decided(false)
    else if refuse(sigs[0], keys[0]).Some? then Refused(refuse(sigs[0], keys[0]).value)
    else Scan(if ok(sigs[0], keys[0]) then sigs[1..] else sigs, keys[1..], ok, refuse)
  }

  function Shifted(f: seq<int>, d: int): (g: seq<int>)
    ensures |g| == |f| && forall i :: 0 <= i < |f| ==> g[i] == f[i] + d
  {
    seq(|f|, i requires 0 <= i < |f| => f[i] + d)
  }

  lemma {:induction false} AscendingRoom(f: seq<int>, i: nat)
    requires Ascending(f) && i < |f| && f[0] >= 0
    ensures f[i] >= i
  {
    if i > 0 {
      AscendingRoom(f, i - 1);
      assert f[i - 1] < f[i];
    }
  }

  /** There is no room for more signatures than keys. */
  lemma TooMany<S, K>(f: seq<int>, sigs: seq<S>, keys: seq<K>, ok: (S, K) -> bool)
    requires Assignment(f, sigs, keys, ok)
    ensures |sigs| <= |keys|
  {
    if |f| > 0 {
      AscendingRoom(f, |f| - 1);
      assert f[|f| - 1] < |keys|;
    }
  }

  /** Taking the first key that verifies the first signature loses nothing. */
  lemma TakeFirst<S, K>(f: seq<int>, sigs: seq<S>, keys: seq<K>, ok: (S, K) -> bool)
    requires sigs != [] && keys != [] && Assignment(f, sigs, keys, ok)
    ensures Assignment(Shifted(f[1..], -1), sigs[1..], keys[1..], ok)
  {
    var g := Shifted(f[1..], -1);
    forall i | 0 <= i < |g| ensures 0 <= g[i] < |keys[1..]| && ok(sigs[1..][i], keys[1..][g[i]]) {
      assert f[0] < f[i + 1] && ok(sigs[i + 1], keys[f[i + 1]]);
    }
  }

  lemma LeaveFirst<S, K>(f: seq<int>, sigs: seq<S>, keys: seq<K>, ok: (S, K) -> bool)
    requires sigs != [] && keys != [] && Assignment(f, sigs, keys, ok) && !ok(sigs[0], keys[0])
    ensures Assignment(Shifted(f, -1), sigs, keys[1..], ok)
  {
    assert ok(sigs[0], keys[f[0]]);
    var h := Shifted(f, -1);
    forall i | 0 <= i < |h| ensures 0 <= h[i] < |keys[1..]| && ok(sigs[i], keys[1..][h[i]]) {
      if i > 0 { assert f[0] < f[i]; }
      assert ok(sigs[i], keys[f[i]]);
    }
  }

  lemma PutBack<S, K>(f: seq<int>, sigs: seq<S>, keys: seq<K>, ok: (S, K) -> bool)
    requires sigs != [] && keys != [] && ok(sigs[0], keys[0]) && Assignment(f, sigs[1..], keys[1..], ok)
    ensures Assignment([0] + Shifted(f, 1), sigs, keys, ok)
  {
    var g := [0] + Shifted(f, 1);
    forall i | 0 <= i < |g| ensures 0 <= g[i] < |keys| && ok(sigs[i], keys[g[i]]) {
      if i > 0 { assert ok(sigs[1..][i - 1], keys[1..][f[i - 1]]); }
    }
  }

  lemma PassOver<S, K>(f: seq<int>, sigs: seq<S>, keys: seq<K>, ok: (S, K) -> bool)
    requires keys != [] && Assignment(f, sigs, keys[1..], ok)
    ensures Assignment(Shifted(f, 1), sigs, keys, ok)
  {
    var g := Shifted(f, 1);
    forall i | 0 <= i < |g| ensures 0 <= g[i] < |keys| && ok(sigs[i], keys[g[i]]) {
      assert ok(sigs[i], keys[1..][f[i]]);
    }
  }

  /** The greedy scan is complete: unless it refuses a pair, it succeeds exactly when some
      order-preserving assignment of all signatures to different keys verifies. */
  lemma {:induction false} ScanComplete<S, K, E>(sigs: seq<S>, keys: seq<K>, ok: (S, K) -> bool, refuse: (S, K) -> Option<E>)
    requires Scan(sigs, keys, ok, refuse).Decided?
    ensures Scan(sigs, keys, ok, refuse).verified <==> Assignable(sigs, keys, ok)
    decreases |keys|
  {
    if sigs == [] {
      assert Assignment([], sigs, keys, ok);
    } else if |sigs| > |keys| {
      if f :| Assignment(f, sigs, keys, ok) { TooMany(f, sigs, keys, ok); }
    } else if ok(sigs[0], keys[0]) {
      ScanComplete(sigs[1..], keys[1..], ok, refuse);
      if f :| Assignment(f, sigs, keys, ok) { TakeFirst(f, sigs, keys, ok); }
      if f :| Assignment(f, sigs[1..], keys[1..], ok) { PutBack(f, sigs, keys, ok); }
    } else {
      ScanComplete(sigs, keys[1..], ok, refuse);
      if f :| Assignment(f, sigs, keys, ok) { LeaveFirst(f, sigs, keys, ok); }
      if f :| Assignment(f, sigs, keys[1..], ok) { PassOver(f, sigs, keys, ok); }
    }
  }
}
