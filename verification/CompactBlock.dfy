/** Compact block relay: setting up the slots of a block, filling them from the mempool and from the
    sender's reply, and the whole two-party run. */
module CompactBlock {
  import opened Wire
  import opened TxRequest
  import opened Consensus
  import opened Sequences

  datatype Prefilled<Tx> = Prefilled(tx: Tx, index: nat)

  // ----- slots

  type Slots<Tx> = seq<Option<Tx>>

  function Filled<Tx>(a: Slots<Tx>): (n: nat)
    ensures n <= |a|
  {
    if a == [] then 0 else Filled(a[..|a| - 1]) + if a[|a| - 1].Some? then 1 else 0
  }

  /** The empty slots, in order. */
  function Missing<Tx>(a: Slots<Tx>): (m: seq<nat>)
    ensures |m| + Filled(a) == |a|
  {
    if a == [] then [] else Missing(a[..|a| - 1]) + if a[|a| - 1].Some? then [] else [|a| - 1]
  }

  lemma MissingSnoc<Tx>(a: Slots<Tx>, k: nat)
    requires k < |a|
    ensures Missing(a[..k + 1]) == Missing(a[..k]) + if a[k].Some? then [] else [k]
    ensures Filled(a[..k + 1]) == Filled(a[..k]) + if a[k].Some? then 1 else 0
  {
    assert a[..k + 1][..k] == a[..k];
  }

  lemma {:induction false} MissingExact<Tx>(a: Slots<Tx>)
    ensures Increasing(Missing(a))
    ensures forall i :: 0 <= i < |Missing(a)| ==> Missing(a)[i] < |a| && a[Missing(a)[i]].None?
  {
    if a != [] {
      var n := |a| - 1;
      MissingExact(a[..n]);
      MissingSnoc(a, n);
      assert a[..n + 1] == a;
      hide Missing, Filled;
      var m := Missing(a[..n]);
      forall i | 0 <= i < |Missing(a)| ensures Missing(a)[i] < |a| && a[Missing(a)[i]].None? {
        if i < |m| { assert a[..n][m[i]].None?; }
      }
    }
  }

  lemma {:induction false} MissingPrefix<Tx>(a: Slots<Tx>, k: nat)
    requires k <= |a|
    ensures |Missing(a[..k])| <= |Missing(a)| && Missing(a)[..|Missing(a[..k])|] == Missing(a[..k])
    decreases |a|
  {
    if k == |a| {
      assert a[..k] == a;
    } else {
      var b := a[..|a| - 1];
      MissingPrefix(b, k);
      assert b[..k] == a[..k];
    }
  }

  lemma {:induction false} FilledUpdate<Tx>(a: Slots<Tx>, i: nat, v: Option<Tx>)
    requires i < |a|
    ensures Filled(a[i := v]) == Filled(a) - (if a[i].Some? then 1 else 0) + if v.Some? then 1 else 0
    decreases |a|
  {
    var n := |a| - 1;
    if i == n {
      assert a[i := v][..n] == a[..n];
    } else {
      FilledUpdate(a[..n], i, v);
      assert a[i := v][..n] == a[..n][i := v];
    }
  }

  lemma {:induction false} AllFilled<Tx>(a: Slots<Tx>)
    ensures Filled(a) == |a| <==> forall i :: 0 <= i < |a| ==> a[i].Some?
  {
    if a != [] {
      AllFilled(a[..|a| - 1]);
    }
  }

  function Empty<Tx>(n: nat): (a: Slots<Tx>)
    ensures |a| == n && forall i :: 0 <= i < n ==> a[i] == None
  {
    seq(n, i => None)
  }

  lemma {:induction false} FilledEmpty<Tx>(n: nat)
    ensures Filled(Empty<Tx>(n)) == 0
  {
    if n > 0 {
      FilledEmpty<Tx>(n - 1);
      assert Empty<Tx>(n)[..n - 1] == Empty<Tx>(n - 1);
    }
  }

  // ----- prefilled transactions

  /** The slot of the `k`-th prefilled transaction, counting from one. */
  function Position<Tx>(ptx: seq<Prefilled<Tx>>, k: nat): (p: int)
    requires k <= |ptx|
    ensures p >= k - 1
  {
    if k == 0 then -1 else Position(ptx, k - 1) + ptx[k - 1].index + 1
  }

  lemma {:induction false} PositionsIncrease<Tx>(ptx: seq<Prefilled<Tx>>, j: nat, k: nat)
    requires j < k <= |ptx|
    ensures Position(ptx, j) < Position(ptx, k)
  {
    if j < k - 1 { PositionsIncrease(ptx, j, k - 1); }
  }

  predicate InBounds<Tx>(ptx: seq<Prefilled<Tx>>, ids: nat, k: nat)
    requires k <= |ptx|
  {
    forall j :: 0 <= j < k ==> FitsAt(ptx, ids, j)
  }

  predicate FitsAt<Tx>(ptx: seq<Prefilled<Tx>>, ids: nat, j: nat)
    requires j < |ptx|
  {
    Position(ptx, j + 1) <= 0xffff && Position(ptx, j + 1) <= ids + j
  }

  predicate ValidTotal(total: nat) {
    0 < total <= MAX_BLOCK_SIZE / 10 && total <= (MAX_BLOCK_SIZE - 81) / 60
  }

  /** The messages that are not rejected. */
  predicate Acceptable<Tx>(ptx: seq<Prefilled<Tx>>, ids: seq<nat>) {
    ValidTotal(|ptx| + |ids|) && InBounds(ptx, |ids|, |ptx|)
  }

  /** The slots after the first `k` prefilled transactions. */
  function Placed<Tx>(ptx: seq<Prefilled<Tx>>, ids: nat, k: nat): (a: Slots<Tx>)
    requires k <= |ptx| && InBounds(ptx, ids, k)
    ensures |a| == |ptx| + ids
  {
    if k == 0 then Empty(|ptx| + ids) else
      assert FitsAt(ptx, ids, k - 1);
      Placed(ptx, ids, k - 1)[Position(ptx, k) := Some(ptx[k - 1].tx)]
  }

  ghost predicate AtSlot<Tx>(ptx: seq<Prefilled<Tx>>, k: nat, i: int, j: nat)
    requires k <= |ptx|
  {
    0 <= i < k && Position(ptx, i + 1) == j
  }

  lemma PlacedLast<Tx>(ptx: seq<Prefilled<Tx>>, ids: nat, k: nat)
    requires 0 < k <= |ptx| && InBounds(ptx, ids, k)
    ensures var p := Position(ptx, k);
            && Position(ptx, k - 1) < p && 0 <= p < |ptx| + ids && InBounds(ptx, ids, k - 1)
            && Placed(ptx, ids, k) == Placed(ptx, ids, k - 1)[p := Some(ptx[k - 1].tx)]
  {
    assert FitsAt(ptx, ids, k - 1);
  }

  /** Prefilled transactions stand at their positions ... */
  lemma {:induction false} PlacedHolds<Tx>(ptx: seq<Prefilled<Tx>>, ids: nat, k: nat, i: nat)
    requires i < k <= |ptx| && InBounds(ptx, ids, k)
    ensures SlotHolds(ptx, ids, k, i)
    decreases k
  {
    hide Placed;
    PlacedLast(ptx, ids, k);
    if i < k - 1 {
      PlacedHolds(ptx, ids, k - 1, i);
      PositionsIncrease(ptx, i + 1, k);
    }
  }

  /** ... and nothing else is filled. */
  lemma {:induction false} PlacedExact<Tx>(ptx: seq<Prefilled<Tx>>, ids: nat, k: nat)
    requires k <= |ptx| && InBounds(ptx, ids, k)
    ensures Filled(Placed(ptx, ids, k)) == k
    ensures forall i :: 0 <= i < k ==> SlotHolds(ptx, ids, k, i)
    ensures forall j :: Position(ptx, k) < j < |ptx| + ids ==> Placed(ptx, ids, k)[j] == None
    ensures forall j :: 0 <= j < |ptx| + ids && Placed(ptx, ids, k)[j].Some? ==> exists i :: AtSlot(ptx, k, i, j)
  {
    hide Filled, SlotHolds, Placed;
    if k == 0 {
      PlacedStart(ptx, ids);
      FilledEmpty<Tx>(|ptx| + ids);
    } else {
      PlacedLast(ptx, ids, k);
      PlacedExact(ptx, ids, k - 1);
      var p, a := Position(ptx, k), Placed(ptx, ids, k - 1);
      FilledUpdate(a, p, Some(ptx[k - 1].tx));
      forall i | 0 <= i < k ensures SlotHolds(ptx, ids, k, i) {
        PlacedHolds(ptx, ids, k, i);
      }
      forall j | 0 <= j < |ptx| + ids && Placed(ptx, ids, k)[j].Some? ensures exists i :: AtSlot(ptx, k, i, j) {
        if j == p {
          assert AtSlot(ptx, k, k - 1, j);
        } else {
          var i :| AtSlot(ptx, k - 1, i, j);
          assert AtSlot(ptx, k, i, j);
        }
      }
    }
  }

  ghost predicate SlotHolds<Tx>(ptx: seq<Prefilled<Tx>>, ids: nat, k: nat, i: nat)
    requires i < k <= |ptx| && InBounds(ptx, ids, k)
  {
    var p := Position(ptx, i + 1);
    0 <= p < |ptx| + ids && Placed(ptx, ids, k)[p] == Some(ptx[i].tx)
  }

  /** Slots, first to last, that the indexes of a message describe: each index counts the slots left free
      since the one before. */
  ghost predicate Describes<Tx>(ptx: seq<Prefilled<Tx>>, ps: seq<nat>) {
    && |ps| == |ptx|
    && (|ps| > 0 ==> ptx[0].index == ps[0])
    && (forall i :: 0 < i < |ps| ==> ps[i] == ps[i - 1] + 1 + ptx[i].index)
  }

  /** Those slots, in increasing order, hold the transactions of the message, and all others are free. */
  ghost predicate Laid<Tx>(a: Slots<Tx>, ptx: seq<Prefilled<Tx>>, ps: seq<nat>) {
    && |ps| == |ptx|
    && (forall i, j :: 0 <= i < j < |ps| ==> ps[i] < ps[j])
    && (forall i :: 0 <= i < |ps| ==> ps[i] < |a| && a[ps[i]] == Some(ptx[i].tx))
    && (forall j :: 0 <= j < |a| && j !in ps ==> a[j] == None)
  }

  ghost predicate Below(ps: seq<nat>, total: nat) {
    forall i :: 0 <= i < |ps| ==> ps[i] < total
  }

  lemma {:induction false} DescribedPosition<Tx>(ptx: seq<Prefilled<Tx>>, ps: seq<nat>, i: nat)
    requires Describes(ptx, ps) && i < |ps|
    ensures Position(ptx, i + 1) == ps[i]
  {
    if i > 0 {
      DescribedPosition(ptx, ps, i - 1);
    } else {
      assert Position(ptx, 0) == -1;
    }
  }

  /** Increasing slots below the total leave room for those that follow. */
  lemma {:induction false} RoomAbove<Tx>(ptx: seq<Prefilled<Tx>>, ps: seq<nat>, total: nat, i: nat)
    requires Describes(ptx, ps) && Below(ps, total) && i < |ps|
    ensures ps[i] + (|ps| - i) <= total
    decreases |ps| - i
  {
    if i + 1 < |ps| { RoomAbove(ptx, ps, total, i + 1); }
  }

  function PositionList<Tx>(ptx: seq<Prefilled<Tx>>): (ps: seq<nat>)
    ensures |ps| == |ptx|
    ensures forall i :: 0 <= i < |ptx| ==> ps[i] == Position(ptx, i + 1)
  {
    seq(|ptx|, i requires 0 <= i < |ptx| => Position(ptx, i + 1) as nat)
  }

  /** Every message describes some slots. */
  lemma AlwaysDescribes<Tx>(ptx: seq<Prefilled<Tx>>)
    ensures Describes(ptx, PositionList(ptx))
  {
    if |ptx| > 0 { assert Position(ptx, 0) == -1; }
  }

  /** A message fits exactly when the slots it describes are below the total. */
  lemma FitsExactly<Tx>(ptx: seq<Prefilled<Tx>>, ids: nat, ps: seq<nat>)
    requires Describes(ptx, ps) && |ptx| + ids <= 0x1_0000
    ensures InBounds(ptx, ids, |ptx|) <==> Below(ps, |ptx| + ids)
  {
    hide Position, Describes;
    if Below(ps, |ptx| + ids) {
      forall i | 0 <= i < |ptx| ensures FitsAt(ptx, ids, i) {
        SameLength(ptx, ps);
        DescribedPosition(ptx, ps, i);
        RoomAbove(ptx, ps, |ptx| + ids, i);
      }
    } else {
      var i :| 0 <= i < |ps| && ps[i] >= |ptx| + ids;
      SameLength(ptx, ps);
      DescribedPosition(ptx, ps, i);
      assert !FitsAt(ptx, ids, i);
    }
  }

  lemma SameLength<Tx>(ptx: seq<Prefilled<Tx>>, ps: seq<nat>)
    requires Describes(ptx, ps)
    ensures |ps| == |ptx|
  {}

  /** Setting up lays the transactions in the slots the message describes. */
  lemma PlacedLaid<Tx>(ptx: seq<Prefilled<Tx>>, ids: nat, ps: seq<nat>)
    requires Describes(ptx, ps) && InBounds(ptx, ids, |ptx|)
    ensures Laid(Placed(ptx, ids, |ptx|), ptx, ps)
  {
    hide Position, Describes, Placed, Filled;
    SameLength(ptx, ps);
    var n, a := |ptx|, Placed(ptx, ids, |ptx|);
    PlacedExact(ptx, ids, n);
    forall i | 0 <= i < n ensures Position(ptx, i + 1) == ps[i] {
      DescribedPosition(ptx, ps, i);
    }
    forall i, j | 0 <= i < j < n ensures ps[i] < ps[j] {
      PositionsIncrease(ptx, i + 1, j + 1);
    }
    forall i | 0 <= i < n ensures ps[i] < |a| && a[ps[i]] == Some(ptx[i].tx) {
      assert SlotHolds(ptx, ids, n, i);
    }
    forall j | 0 <= j < |a| && a[j].Some? ensures j in ps {
      var i :| AtSlot(ptx, n, i, j);
      assert ps[i] == j;
    }
  }

  /** The indexes that describe given slots. */
  function Indexed<Tx>(txs: seq<Tx>, ps: seq<nat>): (ptx: seq<Prefilled<Tx>>)
    requires |txs| == |ps| && forall i, j :: 0 <= i < j < |ps| ==> ps[i] < ps[j]
    ensures |ptx| == |txs| && Describes(ptx, ps) && forall i :: 0 <= i < |txs| ==> ptx[i].tx == txs[i]
  {
    seq(|txs|, i requires 0 <= i < |txs| => Prefilled(txs[i], if i == 0 then ps[0] else ps[i] - ps[i - 1] - 1))
  }

  /** For any increasing slots below a permitted total, the message whose indexes are the gaps between them
      is accepted, and each transaction is laid in its slot. */
  lemma GapsAccepted<Tx>(txs: seq<Tx>, ps: seq<nat>, ids: seq<nat>)
    requires |txs| == |ps| && (forall i, j :: 0 <= i < j < |ps| ==> ps[i] < ps[j])
    requires 0 < |txs| + |ids| <= 16665 && forall i :: 0 <= i < |ps| ==> ps[i] < |txs| + |ids|
    ensures var ptx := Indexed(txs, ps);
            Acceptable(ptx, ids) && Laid(Placed(ptx, |ids|, |ptx|), ptx, ps)
  {
    hide Describes, InBounds, Laid, Placed;
    var ptx := Indexed(txs, ps);
    FitsExactly(ptx, |ids|, ps);
    PlacedLaid(ptx, |ids|, ps);
  }

  // ----- the id map

  /** The first `k` short ids lead to the first `k` slots given. */
  ghost predicate Mapped(m: map<nat, nat>, ids: seq<nat>, slots: seq<nat>, k: nat)
    requires k <= |ids| && k <= |slots|
  {
    && (forall i :: 0 <= i < k ==> ids[i] in m && m[ids[i]] == slots[i])
    && (forall id :: id in m ==> id in ids[..k])
  }

  lemma MappedMore(m: map<nat, nat>, ids: seq<nat>, slots: seq<nat>, k: nat)
    requires k < |ids| && k < |slots| && Mapped(m, ids, slots, k) && Distinct(ids[..k])
    ensures ids[k] in m <==> ids[k] in ids[..k]
    ensures ids[k] !in m ==> Mapped(m[ids[k] := slots[k]], ids, slots, k + 1) && Distinct(ids[..k + 1])
    ensures ids[k] in m ==> !Distinct(ids)
  {
    assert ids[..k + 1] == ids[..k] + [ids[k]];
    if ids[k] in m {
      var i :| 0 <= i < k && ids[..k][i] == ids[k];
      assert ids[i] == ids[k];
    }
  }

  // ----- the mempool

  /** The entries with a short id, in order. */
  function Matching<Tx>(entries: seq<Tx>, sid: Tx -> nat, id: nat): (r: seq<Tx>) {
    if entries == [] then [] else
      var t := entries[|entries| - 1];
      Matching(entries[..|entries| - 1], sid, id) + if sid(t) == id then [t] else []
  }

  lemma MatchingNext<Tx>(entries: seq<Tx>, sid: Tx -> nat, id: nat, k: nat)
    requires k < |entries|
    ensures Matching(entries[..k + 1], sid, id) ==
            Matching(entries[..k], sid, id) + if sid(entries[k]) == id then [entries[k]] else []
  {
    assert entries[..k + 1][..k] == entries[..k];
  }

  lemma {:induction false} MatchingIn<Tx>(entries: seq<Tx>, sid: Tx -> nat, id: nat)
    ensures forall i :: 0 <= i < |Matching(entries, sid, id)| ==>
              Matching(entries, sid, id)[i] in entries && sid(Matching(entries, sid, id)[i]) == id
  {
    if entries != [] {
      MatchingIn(entries[..|entries| - 1], sid, id);
    }
  }

  /** Entry `k` is at least the third one with a short id of the block. */
  ghost predicate ThirdAt<Tx>(entries: seq<Tx>, sid: Tx -> nat, m: map<nat, nat>, k: int) {
    0 <= k < |entries| && sid(entries[k]) in m && |Matching(entries[..k], sid, sid(entries[k]))| >= 2
  }

  /** What a slot holds once some entries have been seen: a lone match, never a disputed one. */
  function SlotAfter<Tx>(entries: seq<Tx>, sid: Tx -> nat, id: nat): (v: Option<Tx>) {
    var m := Matching(entries, sid, id);
    if |m| == 1 then Some(m[0]) else None
  }

  ghost predicate SlotSettled<Tx>(a: Slots<Tx>, entries: seq<Tx>, sid: Tx -> nat, m: map<nat, nat>, id: nat)
    requires id in m
  {
    m[id] < |a| && a[m[id]] == SlotAfter(entries, sid, id)
  }

  /** The slots after the entries have been seen: mapped slots are settled, others as they were. */
  ghost predicate Settled<Tx>(a: Slots<Tx>, was: Slots<Tx>, entries: seq<Tx>, sid: Tx -> nat, m: map<nat, nat>) {
    && |a| == |was|
    && (forall id :: id in m ==> SlotSettled(a, entries, sid, m, id))
    && (forall i :: 0 <= i < |a| && i !in m.Values ==> a[i] == was[i])
  }

  ghost predicate OneToOne(m: map<nat, nat>) {
    forall x, y :: x in m && y in m && m[x] == m[y] ==> x == y
  }

  ghost predicate SeenExact<Tx>(seen: set<nat>, entries: seq<Tx>, sid: Tx -> nat, m: map<nat, nat>) {
    forall id :: id in m ==> (m[id] in seen <==> |Matching(entries, sid, id)| > 0)
  }

  /** An entry without a slot changes nothing. */
  lemma SettledSkip<Tx>(a: Slots<Tx>, was: Slots<Tx>, entries: seq<Tx>, sid: Tx -> nat, m: map<nat, nat>, seen: set<nat>, k: nat)
    requires k < |entries| && sid(entries[k]) !in m
    requires Settled(a, was, entries[..k], sid, m) && SeenExact(seen, entries[..k], sid, m)
    ensures Settled(a, was, entries[..k + 1], sid, m) && SeenExact(seen, entries[..k + 1], sid, m)
  {
    hide Matching;
    forall id | id in m
      ensures SlotSettled(a, entries[..k + 1], sid, m, id)
      ensures m[id] in seen <==> |Matching(entries[..k + 1], sid, id)| > 0
    {
      MatchingNext(entries, sid, id, k);
      assert SlotSettled(a, entries[..k], sid, m, id);
    }
  }

  /** A slot is met again while empty exactly at a third match. */
  lemma SettledThird<Tx>(a: Slots<Tx>, was: Slots<Tx>, entries: seq<Tx>, sid: Tx -> nat, m: map<nat, nat>, seen: set<nat>, k: nat)
    requires k < |entries| && sid(entries[k]) in m
    requires Settled(a, was, entries[..k], sid, m) && SeenExact(seen, entries[..k], sid, m)
    ensures var index := m[sid(entries[k])];
            index < |a| && (ThirdAt(entries, sid, m, k) <==> index in seen && a[index].None?)
  {
    hide Matching;
    assert SlotSettled(a, entries[..k], sid, m, sid(entries[k]));
  }

  /** The first match fills the slot, the second one empties it again. */
  lemma SettledMatch<Tx>(a: Slots<Tx>, was: Slots<Tx>, entries: seq<Tx>, sid: Tx -> nat, m: map<nat, nat>, seen: set<nat>, k: nat)
    requires k < |entries| && sid(entries[k]) in m && OneToOne(m) && !ThirdAt(entries, sid, m, k)
    requires Settled(a, was, entries[..k], sid, m) && SeenExact(seen, entries[..k], sid, m)
    ensures var index := m[sid(entries[k])];
            && index < |a|
            && (index in seen <==> a[index].Some?)
            && (index in seen ==> Settled(a[index := None], was, entries[..k + 1], sid, m))
            && (index !in seen ==> Settled(a[index := Some(entries[k])], was, entries[..k + 1], sid, m))
            && SeenExact(seen + {index}, entries[..k + 1], sid, m)
  {
    hide Matching;
    var id0 := sid(entries[k]);
    var index := m[id0];
    assert SlotSettled(a, entries[..k], sid, m, id0);
    MatchingNext(entries, sid, id0, k);
    var b := if index in seen then a[index := None] else a[index := Some(entries[k])];
    forall id | id in m
      ensures SlotSettled(b, entries[..k + 1], sid, m, id)
      ensures m[id] in seen + {index} <==> |Matching(entries[..k + 1], sid, id)| > 0
    {
      MatchingNext(entries, sid, id, k);
      assert SlotSettled(a, entries[..k], sid, m, id);
      assert m[id] == index ==> id == id0;
    }
  }

  /** Some slot is empty once the entries have been seen. */
  ghost predicate Incomplete<Tx>(was: Slots<Tx>, entries: seq<Tx>, sid: Tx -> nat, m: map<nat, nat>) {
    || (exists i :: 0 <= i < |was| && i !in m.Values && was[i].None?)
    || (exists id :: id in m && SlotAfter(entries, sid, id).None?)
  }

  lemma SettledIncomplete<Tx>(a: Slots<Tx>, was: Slots<Tx>, entries: seq<Tx>, sid: Tx -> nat, m: map<nat, nat>)
    requires Settled(a, was, entries, sid, m)
    ensures Filled(a) < |a| <==> Incomplete(was, entries, sid, m)
  {
    hide Matching, Filled;
    AllFilled(a);
    if Incomplete(was, entries, sid, m) {
      if id :| id in m && SlotAfter(entries, sid, id).None? {
        assert SlotSettled(a, entries, sid, m, id);
      }
    } else {
      forall i | 0 <= i < |a| ensures a[i].Some? {
        if i in m.Values {
          var id :| id in m && m[id] == i;
          assert SlotSettled(a, entries, sid, m, id);
        }
      }
    }
  }

  /** The inputs on which the source fails: a third entry with one short id of the block comes up before
      the block is complete. */
  ghost predicate Trips<Tx>(was: Slots<Tx>, entries: seq<Tx>, sid: Tx -> nat, m: map<nat, nat>) {
    exists k :: ThirdAt(entries, sid, m, k) && forall j :: 0 <= j <= k ==> Incomplete(was, entries[..j], sid, m)
  }

  /** Three entries with one short id, and another transaction missing. */
  lemma ThreeTrip()
    ensures Trips<nat>([Some(0), None, None], [1, 2, 3], t => 7, map[7 := 1, 8 := 2])
  {
    var was: Slots<nat>, entries, sid, m := [Some(0), None, None], [1, 2, 3], (t: nat) => 7, map[7 := 1, 8 := 2];
    MatchingNone(sid, m);
    assert entries[..0] == [];
    MatchingNext(entries, sid, 7, 0);
    MatchingNext(entries, sid, 7, 1);
    hide Matching;
    assert ThirdAt(entries, sid, m, 2);
    forall j | 0 <= j <= 2 ensures Incomplete(was, entries[..j], sid, m) {
      OtherId(entries, j);
      assert SlotAfter(entries[..j], sid, 8).None?;
    }
  }

  lemma OtherId(entries: seq<nat>, k: nat)
    requires k <= |entries|
    ensures Matching(entries[..k], t => 7, 8) == []
  {
    if k > 0 {
      OtherId(entries, k - 1);
      MatchingNext(entries, t => 7, 8, k - 1);
    } else {
      assert entries[..0] == [];
    }
  }

  // ----- the reply

  /** The `j`-th missing transaction goes to the `j`-th empty slot. */
  function Completed<Tx>(a: Slots<Tx>, txs: seq<Tx>): (r: Slots<Tx>)
    ensures |r| == |a|
  {
    seq(|a|, i requires 0 <= i < |a| => CompletedAt(a, txs, i))
  }

  function CompletedAt<Tx>(a: Slots<Tx>, txs: seq<Tx>, i: nat): (v: Option<Tx>)
    requires i < |a|
  {
    if a[i].Some? then a[i]
    else if |Missing(a[..i])| < |txs| then Some(txs[|Missing(a[..i])|]) else None
  }

  /** The sender's transactions at the requested indexes, up to the first one out of range. */
  function Picked<Tx>(block: seq<Tx>, indexes: seq<nat>): (txs: seq<Tx>) {
    if indexes == [] || indexes[0] >= |block| then [] else [block[indexes[0]]] + Picked(block, indexes[1..])
  }

  lemma {:induction false} PickedAll<Tx>(block: seq<Tx>, indexes: seq<nat>)
    requires forall i :: 0 <= i < |indexes| ==> indexes[i] < |block|
    ensures |Picked(block, indexes)| == |indexes|
    ensures forall i :: 0 <= i < |indexes| ==> Picked(block, indexes)[i] == block[indexes[i]]
  {
    if indexes != [] { PickedAll(block, indexes[1..]); }
  }

  /** An empty slot is listed after the empty slots before it. */
  lemma MissingAt<Tx>(a: Slots<Tx>, i: nat)
    requires i < |a| && a[i].None?
    ensures var k := |Missing(a[..i])|; k < |Missing(a)| && Missing(a)[k] == i
  {
    MissingSnoc(a, i);
    MissingPrefix(a, i + 1);
    hide Missing;
    var k := |Missing(a[..i])|;
    assert Missing(a)[k] == Missing(a)[..k + 1][k];
  }

  /** Slots that agree with the block, completed with the block's own transactions, are the block. */
  lemma CompletedIsBlock<Tx>(a: Slots<Tx>, block: seq<Tx>, i: nat)
    requires |a| == |block| && (forall j :: 0 <= j < |a| && a[j].Some? ==> a[j].value == block[j]) && i < |a|
    ensures Completed(a, Picked(block, Missing(a)))[i] == Some(block[i])
  {
    hide Missing, Picked, Completed, Increasing;
    MissingExact(a);
    PickedAll(block, Missing(a));
    CompletedCase(a, Picked(block, Missing(a)), i);
    if a[i].None? {
      MissingAt(a, i);
    }
  }

  // ----- the object

  class Compact<!Tx> {
    var ids: seq<nat>
    var ptx: seq<Prefilled<Tx>>
    var avail: Slots<Tx>
    var idMap: map<nat, nat>
    var count: nat

    /** `count` is the number of filled slots, throughout. */
    predicate Valid()
      reads this
    {
      count == Filled(avail)
    }

    function Total(): (n: nat)
      reads this
    {
      |ptx| + |ids|
    }

    constructor ()
      ensures Valid() && ids == [] && ptx == [] && avail == []
    {
      ids, ptx, avail, idMap, count := [], [], [], map[], 0;
    }

    /** `btc_cmpct_set_block`: short ids for all but the first transaction, which is sent along. */
    method SetBlock(block: seq<Tx>, sid: Tx -> nat)
      requires |block| > 0
      modifies this`ids, this`ptx
      ensures ptx == [Prefilled(block[0], 0)]
      ensures |ids| == |block| - 1 && forall i :: 1 <= i < |block| ==> ids[i - 1] == sid(block[i])
    {
      ids := [];
      var i := 1;
      while i < |block|
        invariant 1 <= i <= |block| && |ids| == i - 1
        invariant forall j :: 1 <= j < i ==> ids[j - 1] == sid(block[j])
      {
        ids := ids + [sid(block[i])];
        i := i + 1;
      }
      ptx := [Prefilled(block[0], 0)];
    }

    /** `btc_cmpct_setup`. For any message: -1 exactly when the slots its indexes describe are not all below
        a permitted total; otherwise the transactions are laid in those slots, all others are free, and the
        i-th short id leads to the i-th free slot; 0 exactly when two short ids are the same. */
    method Setup() returns (code: int)
      requires Valid()
      modifies this`avail, this`count, this`idMap
      ensures Valid()
      ensures code == if !Acceptable(ptx, ids) then -1 else if Distinct(ids) then 1 else 0
      ensures code >= 0 ==> avail == Placed(ptx, |ids|, |ptx|) && |Missing(avail)| == |ids|
      ensures code == 1 ==> Mapped(idMap, ids, Missing(avail), |ids|)
      ensures forall ps :: Describes(ptx, ps) ==>
                && (code >= 0 <==> 0 < Total() <= 16665 && Below(ps, Total()))
                && (code >= 0 ==> |avail| == Total() && Laid(avail, ptx, ps))
    {
      hide Position, Describes, Below, Laid, InBounds, Placed, Missing, Filled, Mapped, Distinct;
      var total := |ptx| + |ids|;
      forall ps | Describes(ptx, ps) && total <= 16665
        ensures InBounds(ptx, |ids|, |ptx|) <==> Below(ps, total)
        ensures InBounds(ptx, |ids|, |ptx|) ==> Laid(Placed(ptx, |ids|, |ptx|), ptx, ps)
      {
        FitsExactly(ptx, |ids|, ps);
        if InBounds(ptx, |ids|, |ptx|) { PlacedLaid(ptx, |ids|, ps); }
      }
      if total == 0 {
        return -1;
      }
      if total > MAX_BLOCK_SIZE / 10 {
        return -1;
      }
      if total > (MAX_BLOCK_SIZE - 81) / 60 {
        return -1;
      }
      var ok := Place();
      if !ok {
        return -1;
      }
      var distinct := MapIds();
      code := if distinct then 1 else 0;
    }

    /** The prefilled transactions. */
    method Place() returns (ok: bool)
      modifies this`avail, this`count
      ensures Valid() && ok == InBounds(ptx, |ids|, |ptx|)
      ensures ok ==> avail == Placed(ptx, |ids|, |ptx|) && |Missing(avail)| == |ids|
    {
      hide Filled, Missing, Placed;
      count := 0;
      avail := Empty(|ptx| + |ids|);
      PlacedStart(ptx, |ids|);
      var last, i := -1, 0;
      while i < |ptx|
        invariant 0 <= i <= |ptx| && last == Position(ptx, i) && InBounds(ptx, |ids|, i)
        invariant avail == Placed(ptx, |ids|, i) && count == i
      {
        last := last + ptx[i].index + 1;
        if last < 0 || last > 0xffff {
          assert !FitsAt(ptx, |ids|, i);
          PlacedExact(ptx, |ids|, i);
          return false;
        }
        if last > |ids| + i {
          assert !FitsAt(ptx, |ids|, i);
          PlacedExact(ptx, |ids|, i);
          return false;
        }
        assert FitsAt(ptx, |ids|, i);
        PlacedStep(ptx, |ids|, i);
        avail := avail[last := Some(ptx[i].tx)];
        count := count + 1;
        i := i + 1;
      }
      PlacedExact(ptx, |ids|, |ptx|);
      ok := true;
    }

    /** The short ids; the scan for a free slot never passes the end. */
    method MapIds() returns (ok: bool)
      requires |Missing(avail)| == |ids|
      modifies this`idMap
      ensures ok == Distinct(ids)
      ensures ok ==> Mapped(idMap, ids, Missing(avail), |ids|)
    {
      hide Missing, Filled, Mapped, Distinct;
      var offset, i := 0, 0;
      idMap := map[];
      ghost var free := Missing(avail);
      MapStart(avail, ids);
      while i < |ids|
        invariant 0 <= i <= |ids| && 0 <= offset && i + offset <= |avail|
        invariant Missing(avail[..i + offset]) == free[..i]
        invariant Mapped(idMap, ids, free, i) && Distinct(ids[..i])
      {
        offset := NextFree(i, offset);
        MappedMore(idMap, ids, free, i);
        if ids[i] in idMap {
          return false;
        }
        idMap := idMap[ids[i] := i + offset];
        i := i + 1;
      }
      assert ids[..i] == ids;
      ok := true;
    }

    method NextFree(i: nat, start: nat) returns (offset: nat)
      requires i < |Missing(avail)| && i + start <= |avail| && Missing(avail[..i + start]) == Missing(avail)[..i]
      ensures i + offset < |avail| && Missing(avail)[i] == i + offset
      ensures Missing(avail[..i + offset + 1]) == Missing(avail)[..i + 1]
    {
      hide Missing, Filled;
      offset := start;
      NotPast(avail, i + offset, i);
      while avail[i + offset].Some?
        invariant i + offset < |avail| && Missing(avail[..i + offset]) == Missing(avail)[..i]
        decreases |avail| - offset
      {
        MissingSnoc(avail, i + offset);
        offset := offset + 1;
        NotPast(avail, i + offset, i);
      }
      MissingSnoc(avail, i + offset);
      MissingPrefix(avail, i + offset + 1);
      assert Missing(avail)[i] == Missing(avail)[..i + 1][i];
    }

    /** `btc_cmpct_fill_mempool`, on the entries in the order the map yields them: it stops after some
        prefix of them, all of them unless the block is complete, and has settled every mapped slot.
        `None` where the source releases a slot that is already empty, reading through a null address. */
    method FillMempool(entries: seq<Tx>, sid: Tx -> nat) returns (full: Option<bool>)
      requires Valid() && |avail| == Total()
      requires OneToOne(idMap) && forall id :: id in idMap ==> idMap[id] < |avail| && avail[idMap[id]].None?
      modifies this`avail, this`count
      ensures Valid() && |avail| == Total() && (full.Some? ==> full.value == (Missing(avail) == []))
      ensures full.None? <==> Trips(old(avail), entries, sid, idMap)
      ensures exists k :: 0 <= k <= |entries| && Settled(avail, old(avail), entries[..k], sid, idMap) && (full == Some(false) ==> k == |entries|)
    {
      hide Filled, Missing, Matching, Incomplete, ThirdAt;
      var total := |ptx| + |ids|;
      assert entries[..0] == [];
      MatchingNone(sid, idMap);
      assert Settled(avail, avail, entries[..0], sid, idMap);
      SettledIncomplete(avail, avail, entries[..0], sid, idMap);
      if count == total {
        NoTrip(avail, entries, sid, idMap, 0);
        return Some(true);
      }
      var seen: set<nat>, k := {}, 0;
      while k < |entries|
        invariant 0 <= k <= |entries| && Valid() && |avail| == total && count < total
        invariant Settled(avail, old(avail), entries[..k], sid, idMap) && SeenExact(seen, entries[..k], sid, idMap)
        invariant forall j :: 0 <= j < k ==> !ThirdAt(entries, sid, idMap, j)
        invariant forall j :: 0 <= j <= k ==> Incomplete(old(avail), entries[..j], sid, idMap)
      {
        var id := sid(entries[k]);
        if id !in idMap {
          NotThird(entries, sid, idMap, k);
          SettledSkip(avail, old(avail), entries, sid, idMap, seen, k);
          k := k + 1;
          SettledIncomplete(avail, old(avail), entries[..k], sid, idMap);
          continue;
        }
        var index := idMap[id];
        SettledThird(avail, old(avail), entries, sid, idMap, seen, k);
        if index in seen {
          if avail[index].None? {
            return None;
          }
          SettledMatch(avail, old(avail), entries, sid, idMap, seen, k);
          FilledUpdate(avail, index, None);
          avail := avail[index := None];
          count := count - 1;
          seen := seen + {index};
          k := k + 1;
          SettledIncomplete(avail, old(avail), entries[..k], sid, idMap);
          continue;
        }
        SettledMatch(avail, old(avail), entries, sid, idMap, seen, k);
        seen := seen + {index};
        FilledUpdate(avail, index, Some(entries[k]));
        avail := avail[index := Some(entries[k])];
        count := count + 1;
        k := k + 1;
        SettledIncomplete(avail, old(avail), entries[..k], sid, idMap);
        if count == total {
          NoTrip(old(avail), entries, sid, idMap, k);
          return Some(true);
        }
      }
      NoThirds(entries, sid, idMap);
      full := Some(false);
    }

    /** `btc_cmpct_fill_missing`. */
    method FillMissing(txs: seq<Tx>) returns (ok: bool)
      requires Valid() && |avail| == Total()
      modifies this`avail, this`count
      ensures Valid() && avail == Completed(old(avail), txs)
      ensures ok == (|txs| == |Missing(old(avail))|)
    {
      hide Filled, Missing, Completed, Halfway;
      ghost var was, done := avail, Completed(avail, txs);
      var offset, i := 0, 0;
      HalfwayEnds(was, done);
      while i < |avail|
        invariant 0 <= i <= |avail| == |was| && Valid()
        invariant avail == Halfway(was, done, i) && offset == |Missing(was[..i])| <= |txs|
      {
        MissingSnoc(was, i);
        CompletedNext(was, txs, i);
        if avail[i].Some? {
          i := i + 1;
          continue;
        }
        if offset >= |txs| {
          MissingAt(was, i);
          NothingLeft(was, txs, i);
          return false;
        }
        FilledUpdate(avail, i, Some(txs[offset]));
        avail := avail[i := Some(txs[offset])];
        offset := offset + 1;
        count := count + 1;
        i := i + 1;
      }
      ok := offset == |txs|;
    }

    /** `btc_cmpct_finalize`; `None` where the source aborts. */
    method Finalize() returns (r: Option<seq<Tx>>)
      requires Valid() && |avail| == Total()
      ensures r.Some? <==> forall i :: 0 <= i < |avail| ==> avail[i].Some?
      ensures r.Some? ==> |r.value| == |avail| && forall i :: 0 <= i < |avail| ==> Some(r.value[i]) == avail[i]
    {
      AllFilled(avail);
      if count != |ptx| + |ids| {
        return None;
      }
      var txs: seq<Tx>, i := [], 0;
      while i < |avail|
        invariant 0 <= i <= |avail| && |txs| == i && forall j :: 0 <= j < i ==> Some(txs[j]) == avail[j]
      {
        txs := txs + [avail[i].value];
        i := i + 1;
      }
      r := Some(txs);
    }

    /** `btc_getblocktxn_set_cmpct`. */
    method RequestMissing(hash: seq<byte>) returns (r: Request)
      ensures r == Request(hash, Missing(avail))
    {
      hide Missing;
      var indexes: seq<nat>, i := [], 0;
      assert avail[..0] == [];
      MissingNone<Tx>();
      while i < |avail|
        invariant 0 <= i <= |avail| && indexes == Missing(avail[..i])
      {
        MissingSnoc(avail, i);
        if avail[i].None? {
          indexes := indexes + [i];
        }
        i := i + 1;
      }
      assert avail[..i] == avail;
      r := Request(hash, indexes);
    }
  }

  lemma MapStart<Tx>(a: Slots<Tx>, ids: seq<nat>)
    ensures Missing(a[..0]) == Missing(a)[..0] && Mapped(map[], ids, Missing(a), 0) && Distinct(ids[..0])
  {
    assert a[..0] == [] && ids[..0] == [];
  }

  /** While an empty slot is still ahead, the scan is not at the end. */
  lemma NotPast<Tx>(a: Slots<Tx>, k: nat, i: nat)
    requires k <= |a| && i < |Missing(a)| && Missing(a[..k]) == Missing(a)[..i]
    ensures k < |a|
  {
    hide Missing;
    assert a[..|a|] == a;
  }

  lemma NotThird<Tx>(entries: seq<Tx>, sid: Tx -> nat, m: map<nat, nat>, k: nat)
    requires k < |entries| && sid(entries[k]) !in m
    ensures !ThirdAt(entries, sid, m, k)
  {}

  /** Once the block is complete, what comes later does not matter. */
  lemma NoTrip<Tx>(was: Slots<Tx>, entries: seq<Tx>, sid: Tx -> nat, m: map<nat, nat>, k: nat)
    requires k <= |entries| && !Incomplete(was, entries[..k], sid, m)
    requires forall j :: 0 <= j < k ==> !ThirdAt(entries, sid, m, j)
    ensures !Trips(was, entries, sid, m)
  {}

  lemma NoThirds<Tx>(entries: seq<Tx>, sid: Tx -> nat, m: map<nat, nat>)
    ensures forall k :: ThirdAt(entries, sid, m, k) ==> 0 <= k < |entries|
  {}

  lemma PlacedStart<Tx>(ptx: seq<Prefilled<Tx>>, ids: nat)
    ensures Placed(ptx, ids, 0) == Empty(|ptx| + ids)
  {}

  lemma PlacedStep<Tx>(ptx: seq<Prefilled<Tx>>, ids: nat, k: nat)
    requires k < |ptx| && InBounds(ptx, ids, k) && FitsAt(ptx, ids, k)
    ensures InBounds(ptx, ids, k + 1)
    ensures 0 <= Position(ptx, k + 1) < |ptx| + ids
    ensures Placed(ptx, ids, k + 1) == Placed(ptx, ids, k)[Position(ptx, k + 1) := Some(ptx[k].tx)]
  {}

  lemma MissingNone<Tx>()
    ensures Missing<Tx>([]) == [] && Filled<Tx>([]) == 0
  {}

  lemma MatchingNone<Tx>(sid: Tx -> nat, m: map<nat, nat>)
    ensures forall id :: Matching([], sid, id) == []
  {}

  lemma CompletedCase<Tx>(a: Slots<Tx>, txs: seq<Tx>, i: nat)
    requires i < |a|
    ensures Completed(a, txs)[i] == if a[i].Some? then a[i]
              else if |Missing(a[..i])| < |txs| then Some(txs[|Missing(a[..i])|]) else None
  {}

  function Halfway<Tx>(was: Slots<Tx>, done: Slots<Tx>, i: nat): (a: Slots<Tx>)
    requires i <= |was| == |done|
    ensures |a| == |was|
  {
    done[..i] + was[i..]
  }

  lemma HalfwayEnds<Tx>(was: Slots<Tx>, done: Slots<Tx>)
    requires |was| == |done|
    ensures Halfway(was, done, 0) == was && Halfway(was, done, |was|) == done
    ensures was[..0] == [] && was[..|was|] == was && Missing(was[..0]) == []
  {}

  lemma CompletedNext<Tx>(was: Slots<Tx>, txs: seq<Tx>, i: nat)
    requires i < |was|
    ensures var k := |Missing(was[..i])|;
            var a, b := Halfway(was, Completed(was, txs), i), Halfway(was, Completed(was, txs), i + 1);
            a[i] == was[i] && b == if was[i].Some? then a else if k < |txs| then a[i := Some(txs[k])] else a
  {
    hide Missing, Completed;
    CompletedCase(was, txs, i);
  }

  /** Past the last transaction of the reply, empty slots stay empty. */
  lemma NothingLeft<Tx>(a: Slots<Tx>, txs: seq<Tx>, i: nat)
    requires i <= |a| && |Missing(a[..i])| >= |txs|
    ensures Halfway(a, Completed(a, txs), i) == Completed(a, txs)
  {
    forall j | i <= j < |a| ensures Completed(a, txs)[j] == a[j] {
      MissingPrefix(a[..j], i);
      assert a[..j][..i] == a[..i];
    }
  }

  /** `btc_blocktxn_set_block`. */
  method Reply<Tx>(block: seq<Tx>, req: Request) returns (txs: seq<Tx>)
    ensures txs == Picked(block, req.indexes)
  {
    txs := [];
    var i := 0;
    while i < |req.indexes|
      invariant 0 <= i <= |req.indexes| && txs + Picked(block, req.indexes[i..]) == Picked(block, req.indexes)
    {
      var index := req.indexes[i];
      if index >= |block| {
        break;
      }
      assert req.indexes[i..][1..] == req.indexes[i + 1..];
      txs := txs + [block[index]];
      i := i + 1;
    }
    assert i == |req.indexes| ==> req.indexes[i..] == [];
  }

  // ----- the run

  /** Short ids tell transactions of the block and the mempool apart. */
  ghost predicate NoCollisions<Tx(!new)>(block: seq<Tx>, pool: seq<Tx>, sid: Tx -> nat) {
    forall t, u :: (t in block || t in pool) && (u in block || u in pool) && sid(t) == sid(u) ==> t == u
  }

  /** The slots of a fresh receiver: the first holds the first transaction, the others are free. */
  lemma FreshSlots<Tx>(block: seq<Tx>, ids: nat, a: Slots<Tx>)
    requires |block| > 0 && ids == |block| - 1
    requires InBounds([Prefilled(block[0], 0)], ids, 1) && a == Placed([Prefilled(block[0], 0)], ids, 1)
    ensures |a| == |block| && a[0] == Some(block[0]) && forall i :: 1 <= i < |a| ==> a[i] == None
    ensures Missing(a) == seq(ids, i => i + 1)
  {
    var ptx := [Prefilled(block[0], 0)];
    assert Position(ptx, 0) == -1 && Position(ptx, 1) == 0;
    assert Placed(ptx, ids, 0) == Empty(|ptx| + ids);
    PlacedExact(ptx, ids, 1);
    FreshMissing(a, |a|);
    assert a[..|a|] == a;
  }

  lemma {:induction false} FreshMissing<Tx>(a: Slots<Tx>, k: nat)
    requires 1 <= k <= |a| && a[0].Some? && forall i :: 1 <= i < |a| ==> a[i] == None
    ensures Missing(a[..k]) == seq(k - 1, i => i + 1)
  {
    MissingSnoc(a, k - 1);
    if k > 1 { FreshMissing(a, k - 1); } else { assert a[..0] == []; }
  }

  lemma DistinctIds<Tx(!new)>(block: seq<Tx>, ids: seq<nat>, pool: seq<Tx>, sid: Tx -> nat)
    requires |block| > 0 && Distinct(block) && NoCollisions(block, pool, sid)
    requires |ids| == |block| - 1 && forall i :: 1 <= i < |block| ==> ids[i - 1] == sid(block[i])
    ensures Distinct(ids)
  {
    forall i, j | 0 <= i < j < |ids| ensures ids[i] != ids[j] {
      assert ids[i + 1 - 1] == sid(block[i + 1]) && ids[j + 1 - 1] == sid(block[j + 1]);
      assert block[i + 1] != block[j + 1];
    }
  }

  /** A settled slot holds the block's own transaction. */
  lemma SettledAgrees<Tx(!new)>(block: seq<Tx>, pool: seq<Tx>, sid: Tx -> nat, ids: seq<nat>, m: map<nat, nat>, was: Slots<Tx>, a: Slots<Tx>, k: nat, j: nat)
    requires NoCollisions(block, pool, sid) && k <= |pool| && |ids| == |block| - 1 && |was| == |block|
    requires forall i :: 1 <= i < |block| ==> ids[i - 1] == sid(block[i])
    requires was[0] == Some(block[0]) && forall i :: 1 <= i < |was| ==> was[i] == None
    requires Mapped(m, ids, seq(|ids|, i => i + 1), |ids|)
    requires Settled(a, was, pool[..k], sid, m) && j < |a| && a[j].Some?
    ensures a[j].value == block[j]
  {
    hide Matching;
    if j > 0 {
      var id := ids[j - 1];
      assert id in m && m[id] == j && id == sid(block[j]);
      assert SlotSettled(a, pool[..k], sid, m, id);
      MatchingIn(pool[..k], sid, id);
      assert a[j].value in pool[..k];
    } else {
      assert 0 !in m.Values by {
        forall id | id in m ensures m[id] != 0 {
          assert id in ids[..|ids|];
        }
      }
    }
  }

  /** Without collisions a short id has at most one match. */
  lemma {:induction false} LoneMatches<Tx(!new)>(block: seq<Tx>, pool: seq<Tx>, sid: Tx -> nat, id: nat, k: nat)
    requires NoCollisions(block, pool, sid) && Distinct(pool) && k <= |pool|
    ensures |Matching(pool[..k], sid, id)| <= 1
  {
    hide Matching;
    if k == 0 {
      assert pool[..0] == [];
      MatchingNone(sid, map[]);
    } else {
      LoneMatches(block, pool, sid, id, k - 1);
      MatchingNext(pool, sid, id, k - 1);
      MatchingIn(pool[..k - 1], sid, id);
      var m := Matching(pool[..k - 1], sid, id);
      if |m| == 1 {
        EarlierDiffers(pool, k - 1, m[0]);
      }
    }
  }

  lemma EarlierDiffers<Tx>(pool: seq<Tx>, k: nat, t: Tx)
    requires Distinct(pool) && k < |pool| && t in pool[..k]
    ensures t != pool[k] && t in pool && pool[k] in pool
  {
    var i :| 0 <= i < k && pool[..k][i] == t;
    assert pool[i] == t;
  }

  /** The whole exchange between a sender with the block and a receiver with the mempool. */
  method Relay<Tx(!new)>(block: seq<Tx>, pool: seq<Tx>, sid: Tx -> nat, hash: seq<byte>) returns (r: Option<seq<Tx>>)
    requires 0 < |block| && Distinct(block) && ValidTotal(|block|) && |hash| == 32
    requires Distinct(pool) && NoCollisions(block, pool, sid)
    ensures r == Some(block)
  {
    hide Filled, Missing, Matching, Placed, NoCollisions, Settled, Incomplete, ParseRequest, Written, Mapped, Completed, Picked;
    var sender := new Compact<Tx>();
    sender.SetBlock(block, sid);
    var blk := new Compact<Tx>();
    blk.ids, blk.ptx := sender.ids, sender.ptx;
    DistinctIds(block, blk.ids, pool, sid);
    FirstFits(blk.ptx, |blk.ids|);
    var code := blk.Setup();
    assert code == 1;
    ghost var placed := blk.avail;
    FreshSlots(block, |blk.ids|, blk.avail);
    MappedRange(blk.idMap, blk.ids);
    forall k ensures !ThirdAt(pool, sid, blk.idMap, k) {
      if 0 <= k < |pool| { LoneMatches(block, pool, sid, sid(pool[k]), k); }
    }
    var full := blk.FillMempool(pool, sid);
    assert full.Some?;
    ghost var k :| 0 <= k <= |pool| && Settled(blk.avail, placed, pool[..k], sid, blk.idMap);
    forall j | 0 <= j < |blk.avail| && blk.avail[j].Some? ensures blk.avail[j].value == block[j] {
      SettledAgrees(block, pool, sid, blk.ids, blk.idMap, placed, blk.avail, k, j);
    }
    if !full.value {
      ghost var missing := blk.avail;
      var req := blk.RequestMissing(hash);
      RequestFits(blk.avail);
      var bytes := Write(req);
      RequestRoundTrip(req, []);
      assert Written(req) + [] == bytes;
      var cur := new Cursor(bytes);
      var got := Read(cur);
      assert got == Some(req);
      var txs := Reply(block, got.value);
      forall i | 0 <= i < |block| ensures Completed(missing, txs)[i] == Some(block[i]) {
        CompletedIsBlock(missing, block, i);
      }
      var ok := blk.FillMissing(txs);
    } else {
      AllFilled(blk.avail);
    }
    r := blk.Finalize();
    assert r.value == block;
  }

  lemma FirstFits<Tx>(ptx: seq<Prefilled<Tx>>, ids: nat)
    requires |ptx| == 1 && ptx[0].index == 0
    ensures InBounds(ptx, ids, 1)
  {
    assert Position(ptx, 0) == -1;
    assert FitsAt(ptx, ids, 0);
  }

  lemma MappedRange(m: map<nat, nat>, ids: seq<nat>)
    requires Mapped(m, ids, seq(|ids|, i => i + 1), |ids|)
    ensures OneToOne(m) && forall id :: id in m ==> 1 <= m[id] <= |ids|
  {
    forall id | id in m ensures 1 <= m[id] <= |ids| && ids[m[id] - 1] == id {
      assert id in ids[..|ids|];
      var i :| 0 <= i < |ids| && ids[i] == id;
    }
  }

  lemma RequestFits<Tx>(a: Slots<Tx>)
    requires ValidTotal(|a|)
    ensures Increasing(Missing(a)) && Bounded(Missing(a), MAX_INDEX) && |Missing(a)| <= MAX_SIZE
    ensures Bounded(Missing(a), UINT64_MAX)
  {
    MissingExact(a);
  }
}
