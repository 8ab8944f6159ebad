/** The request for missing transactions: increasing indexes, sent as differences. */
module TxRequest {
  import opened Wire

  datatype Request = Request(hash: seq<byte>, indexes: seq<nat>)

  const MAX_INDEX: nat := 0xffff

  predicate Increasing(s: seq<nat>) {
    forall i, j :: 0 <= i < j < |s| ==> s[i] < s[j]
  }

  predicate Bounded(s: seq<nat>, top: nat) {
    forall i :: 0 <= i < |s| ==> s[i] <= top
  }

  /** The `i`-th number written, with the wrap-around of the source's unsigned subtraction. */
  function Delta(s: seq<nat>, i: nat): (d: nat)
    requires i < |s|
    ensures s[i] <= UINT64_MAX ==> d <= UINT64_MAX
  {
    if i == 0 then s[0] else (s[i] - (s[i - 1] + 1)) % (UINT64_MAX + 1)
  }

  function Sizes(xs: seq<nat>): (s: seq<byte>)
    requires Bounded(xs, UINT64_MAX)
  {
    if xs == [] then [] else Sizes(xs[..|xs| - 1]) + Compact(xs[|xs| - 1])
  }

  function Deltas(s: seq<nat>): (d: seq<nat>)
    ensures |d| == |s| && forall i :: 0 <= i < |s| ==> d[i] == Delta(s, i)
  {
    seq(|s|, i requires 0 <= i < |s| => Delta(s, i))
  }

  function Written(r: Request): (s: seq<byte>)
    requires Bounded(r.indexes, UINT64_MAX) && |r.indexes| <= UINT64_MAX
  {
    r.hash + Compact(|r.indexes|) + Sizes(Deltas(r.indexes))
  }

  /** What is sent for increasing indexes: the first one, and then how many were passed over each time. */
  lemma SentGaps(s: seq<nat>, i: nat)
    requires Increasing(s) && Bounded(s, UINT64_MAX) && i < |s|
    ensures Deltas(s)[i] == if i == 0 then s[0] else s[i] - s[i - 1] - 1
  {
    if i > 0 {
      assert s[i - 1] < s[i];
      NoWrap(s[i] - (s[i - 1] + 1));
    }
  }

  function ParseSizes(count: nat, s: seq<byte>): (r: Option<Parsed<seq<nat>>>)
    ensures r.Some? ==> |r.value.value| == count
  {
    if count == 0 then Some(Parsed([], s)) else
      var x := ParseSize(s);
      if x.None? || x.value.value > MAX_INDEX then None else
        var r := ParseSizes(count - 1, x.value.rest);
        if r.None? then None else Some(Parsed([x.value.value] + r.value.value, r.value.rest))
  }

  /** The differences added up, from the first index that may follow. */
  function Accumulate(xs: seq<nat>, offset: nat): (r: Option<seq<nat>>)
    ensures r.Some? ==> |r.value| == |xs|
  {
    if xs == [] then Some([])
    else if xs[0] + offset > MAX_INDEX then None
    else
      var r := Accumulate(xs[1..], xs[0] + offset + 1);
      if r.None? then None else Some([xs[0] + offset] + r.value)
  }

  function ParseRequest(s: seq<byte>): (r: Option<Parsed<Request>>) {
    if |s| < 32 then None else
      var n := ParseSize(s[32..]);
      if n.None? then None else
        var xs := ParseSizes(n.value.value, n.value.rest);
        if xs.None? then None else
          var idx := Accumulate(xs.value.value, 0);
          if idx.None? then None else Some(Parsed(Request(s[..32], idx.value), xs.value.rest))
  }

  // ----- round trip

  lemma {:induction false} SizesCons(x: nat, xs: seq<nat>)
    requires x <= UINT64_MAX && Bounded(xs, UINT64_MAX)
    ensures Bounded([x] + xs, UINT64_MAX) && Sizes([x] + xs) == Compact(x) + Sizes(xs)
  {
    hide Compact;
    if xs == [] {
      assert ([x] + xs)[..0] == [] && Sizes([]) == [];
    } else {
      SizesCons(x, xs[..|xs| - 1]);
      assert ([x] + xs)[..|xs|] == [x] + xs[..|xs| - 1];
    }
  }

  lemma {:induction false} SizesRoundTrip(xs: seq<nat>, t: seq<byte>)
    requires Bounded(xs, MAX_INDEX)
    ensures ParseSizes(|xs|, Sizes(xs) + t) == Some(Parsed(xs, t))
  {
    hide Compact, ParseCompact, Sizes;
    if xs == [] {
      assert Sizes(xs) == [] by { SizesEmpty(); }
      assert [] + t == t;
    } else {
      SizesRoundTrip(xs[1..], t);
      SizesCons(xs[0], xs[1..]);
      assert [xs[0]] + xs[1..] == xs;
      assert Sizes(xs) + t == Compact(xs[0]) + (Sizes(xs[1..]) + t);
      CompactRoundTrip(xs[0], Sizes(xs[1..]) + t);
    }
  }

  lemma SizesEmpty()
    ensures Sizes([]) == []
  {}

  lemma {:induction false} SizesUnique(count: nat, s: seq<byte>)
    requires ParseSizes(count, s).Some?
    ensures var r := ParseSizes(count, s).value;
            Bounded(r.value, MAX_INDEX) && s == Sizes(r.value) + r.rest
  {
    hide Compact, ParseCompact, Sizes;
    if count == 0 {
      SizesEmpty();
    } else {
      CompactUnique(s);
      var x := ParseSize(s).value;
      SizesUnique(count - 1, x.rest);
      var r := ParseSizes(count - 1, x.rest).value;
      SizesCons(x.value, r.value);
      assert s == Compact(x.value) + (Sizes(r.value) + r.rest);
    }
  }

  function Before(s: seq<nat>, i: nat, offset: nat): (b: nat)
    requires i < |s|
  {
    if i == 0 then offset else s[i - 1] + 1
  }

  /** The differences of a tail that follows `offset - 1`. */
  ghost predicate DifferencesOf(xs: seq<nat>, s: seq<nat>, offset: nat) {
    |xs| == |s| && forall i :: 0 <= i < |s| ==> xs[i] + Before(s, i, offset) == s[i]
  }

  lemma DifferencesTail(xs: seq<nat>, s: seq<nat>, offset: nat)
    requires DifferencesOf(xs, s, offset) && s != []
    ensures DifferencesOf(xs[1..], s[1..], s[0] + 1)
  {
    forall i | 0 <= i < |s[1..]| ensures xs[1..][i] + Before(s[1..], i, s[0] + 1) == s[1..][i] {
      assert xs[i + 1] + Before(s, i + 1, offset) == s[i + 1];
    }
  }

  lemma BoundedCons(s: seq<nat>, top: nat)
    requires s != []
    ensures Bounded(s, top) <==> s[0] <= top && Bounded(s[1..], top)
  {
    if s[0] <= top && Bounded(s[1..], top) {
      forall i | 0 <= i < |s| ensures s[i] <= top {
        if i > 0 { assert s[i] == s[1..][i - 1]; }
      }
    }
  }

  lemma {:induction false} AccumulateDifferences(xs: seq<nat>, s: seq<nat>, offset: nat)
    requires DifferencesOf(xs, s, offset)
    ensures Accumulate(xs, offset) == if Bounded(s, MAX_INDEX) then Some(s) else None
  {
    if xs != [] {
      assert xs[0] + Before(s, 0, offset) == s[0];
      BoundedCons(s, MAX_INDEX);
      DifferencesTail(xs, s, offset);
      hide DifferencesOf, Bounded;
      AccumulateDifferences(xs[1..], s[1..], s[0] + 1);
      assert s == [s[0]] + s[1..];
    }
  }

  lemma {:induction false} AccumulateShape(xs: seq<nat>, offset: nat)
    requires Accumulate(xs, offset).Some?
    ensures var s := Accumulate(xs, offset).value;
            && DifferencesOf(xs, s, offset) && Increasing(s) && Bounded(s, MAX_INDEX)
            && forall i :: 0 <= i < |s| ==> s[i] >= offset
  {
    if xs != [] {
      AccumulateShape(xs[1..], xs[0] + offset + 1);
      var s, r := Accumulate(xs, offset).value, Accumulate(xs[1..], xs[0] + offset + 1).value;
      assert s == [xs[0] + offset] + r;
      forall i | 0 <= i < |s| ensures xs[i] + Before(s, i, offset) == s[i] {
        if i > 0 { assert xs[1..][i - 1] + Before(r, i - 1, xs[0] + offset + 1) == r[i - 1]; }
      }
    }
  }

  lemma IncreasingDeltas(s: seq<nat>)
    requires Increasing(s) && Bounded(s, UINT64_MAX)
    ensures DifferencesOf(Deltas(s), s, 0)
  {
    forall i | 0 <= i < |s| ensures Delta(s, i) + Before(s, i, 0) == s[i] {
      if i > 0 {
        assert s[i - 1] < s[i];
        NoWrap(s[i] - (s[i - 1] + 1));
      }
    }
  }

  lemma NoWrap(x: nat)
    requires x <= UINT64_MAX
    ensures x % (UINT64_MAX + 1) == x
  {}

  lemma DeltasBounded(s: seq<nat>, xs: seq<nat>)
    requires DifferencesOf(xs, s, 0) && Bounded(s, MAX_INDEX)
    ensures Bounded(xs, MAX_INDEX)
  {}

  /** A request for increasing 16-bit indexes survives the wire. */
  lemma RequestRoundTrip(r: Request, t: seq<byte>)
    requires |r.hash| == 32 && Increasing(r.indexes) && Bounded(r.indexes, MAX_INDEX) && |r.indexes| <= MAX_SIZE
    ensures ParseRequest(Written(r) + t) == Some(Parsed(r, t))
  {
    hide Compact, ParseCompact, Sizes, Deltas, Increasing;
    var xs := Deltas(r.indexes);
    IncreasingDeltas(r.indexes);
    DeltasBounded(r.indexes, xs);
    AccumulateDifferences(xs, r.indexes, 0);
    SizesRoundTrip(xs, t);
    var s := Written(r) + t;
    assert s[..32] == r.hash && s[32..] == Compact(|r.indexes|) + (Sizes(xs) + t);
    CompactRoundTrip(|r.indexes|, Sizes(xs) + t);
  }

  /** Whatever is accepted is increasing, and is the one form of its request. */
  lemma RequestUnique(s: seq<byte>)
    requires ParseRequest(s).Some?
    ensures var p := ParseRequest(s).value;
            && Increasing(p.value.indexes) && Bounded(p.value.indexes, MAX_INDEX)
            && |p.value.indexes| <= MAX_SIZE && s == Written(p.value) + p.rest
  {
    hide Compact, ParseCompact, Sizes, Deltas, Increasing, ParseSizes, Accumulate;
    var n := ParseSize(s[32..]).value;
    CompactUnique(s[32..]);
    SizesUnique(n.value, n.rest);
    var xs := ParseSizes(n.value, n.rest).value;
    AccumulateShape(xs.value, 0);
    var p := ParseRequest(s).value;
    DeltasAre(xs.value, p.value.indexes);
    assert s == s[..32] + s[32..];
    assert s == p.value.hash + (Compact(n.value) + (Sizes(xs.value) + p.rest));
  }

  lemma DeltasAre(xs: seq<nat>, s: seq<nat>)
    requires DifferencesOf(xs, s, 0) && Increasing(s) && Bounded(s, MAX_INDEX)
    ensures xs == Deltas(s)
  {
    IncreasingDeltas(s);
    forall i | 0 <= i < |s| ensures xs[i] == Deltas(s)[i] {
      assert xs[i] + Before(s, i, 0) == s[i] && Deltas(s)[i] + Before(s, i, 0) == s[i];
    }
  }

  // ----- the loops

  method Write(r: Request) returns (s: seq<byte>)
    requires Bounded(r.indexes, UINT64_MAX) && |r.indexes| <= UINT64_MAX
    ensures s == Written(r)
  {
    hide Compact;
    s := r.hash + Compact(|r.indexes|);
    ghost var head, xs := s, Deltas(r.indexes);
    var i := 0;
    while i < |r.indexes|
      invariant 0 <= i <= |r.indexes| && s == head + Sizes(xs[..i])
    {
      var index: nat := r.indexes[i];
      if i > 0 {
        index := (index - (r.indexes[i - 1] + 1)) % (UINT64_MAX + 1);
      }
      assert xs[..i + 1][..i] == xs[..i];
      s := s + Compact(index);
      i := i + 1;
    }
    assert xs[..i] == xs;
  }

  lemma {:induction false} ParseSizesMore(read: seq<nat>, k: nat, s: seq<byte>, t: seq<byte>)
    requires ParseSizes(|read|, s) == Some(Parsed(read, t))
    ensures ParseSizes(|read| + k, s) ==
            var r := ParseSizes(k, t); if r.None? then None else Some(Parsed(read + r.value.value, r.value.rest))
    decreases |read|
  {
    hide ParseSize;
    if read == [] {
      assert ParseSizes(0, s) == Some(Parsed([], s));
      var r := ParseSizes(k, t);
      if r.Some? { assert [] + r.value.value == r.value.value; }
    } else {
      var x := ParseSize(s).value;
      var r := ParseSizes(|read| - 1, x.rest).value;
      assert read[1..] == r.value;
      ParseSizesMore(r.value, k, x.rest, t);
      var q := ParseSizes(k, t);
      if q.Some? { assert [x.value] + (r.value + q.value.value) == read + q.value.value; }
    }
  }

  lemma ParseSizesNext(read: seq<nat>, count: nat, s: seq<byte>, t: seq<byte>)
    requires |read| < count && ParseSizes(|read|, s) == Some(Parsed(read, t))
    ensures var x := ParseSize(t);
            if x.None? || x.value.value > MAX_INDEX then ParseSizes(count, s) == None
            else ParseSizes(|read| + 1, s) == Some(Parsed(read + [x.value.value], x.value.rest))
  {
    hide ParseSize;
    ParseSizesMore(read, count - |read|, s, t);
    ParseSizesMore(read, 1, s, t);
    var x := ParseSize(t);
    if x.Some? && x.value.value <= MAX_INDEX {
      assert ParseSizes(0, x.value.rest) == Some(Parsed([], x.value.rest));
      assert [x.value.value] + [] == [x.value.value];
    }
  }

  function Joined(a: seq<nat>, r: Option<seq<nat>>): (j: Option<seq<nat>>) {
    if r.None? then None else Some(a + r.value)
  }

  lemma JoinedAssoc(a: seq<nat>, v: nat, r: Option<seq<nat>>)
    ensures Joined(a, Joined([v], r)) == Joined(a + [v], r)
  {
    if r.Some? { assert a + ([v] + r.value) == (a + [v]) + r.value; }
  }

  /** The second pass has added up the first `i` differences. */
  ghost predicate Accumulated(xs: seq<nat>, s: seq<nat>, i: nat, offset: nat) {
    && |s| == |xs| && i <= |xs| && (forall k :: i <= k < |xs| ==> s[k] == xs[k])
    && Accumulate(xs, 0) == Joined(s[..i], Accumulate(xs[i..], offset))
  }

  lemma AccumulatedStep(xs: seq<nat>, s: seq<nat>, i: nat, offset: nat)
    requires Accumulated(xs, s, i, offset) && i < |xs|
    ensures var v := s[i] + offset;
            if v > MAX_INDEX then Accumulate(xs, 0) == None else Accumulated(xs, s[i := v], i + 1, v + 1)
  {
    hide Accumulate, Joined;
    var v := s[i] + offset;
    assert s[i] == xs[i];
    AccumulateHead(xs, i, offset);
    if v > MAX_INDEX {
      JoinedNone(s[..i]);
    } else {
      assert s[i := v][..i + 1] == s[..i] + [v];
      JoinedAssoc(s[..i], v, Accumulate(xs[i + 1..], v + 1));
    }
  }

  lemma JoinedNone(a: seq<nat>)
    ensures Joined(a, None) == None
  {}

  lemma AccumulateHead(xs: seq<nat>, i: nat, offset: nat)
    requires i < |xs|
    ensures var v := xs[i] + offset;
            Accumulate(xs[i..], offset) == if v > MAX_INDEX then None else Joined([v], Accumulate(xs[i + 1..], v + 1))
  {
    assert xs[i..][1..] == xs[i + 1..];
  }

  method Read(cur: Cursor) returns (r: Option<Request>)
    requires cur.Valid()
    modifies cur
    ensures cur.Valid()
    ensures var p := ParseRequest(old(cur.Rest()));
            if p.None? then r.None? else r == Some(p.value.value) && cur.Rest() == p.value.rest
  {
    hide ParseSize, ParseSizes, Accumulate, Accumulated;
    var hash := cur.RawRead(32);
    if hash.None? {
      return None;
    }
    var count := cur.SizeRead();
    if count.None? {
      return None;
    }
    ghost var start := cur.Rest();
    var indexes: seq<nat> := [];
    ParseSizesStart(start);
    while |indexes| < count.value
      invariant cur.Valid() && |indexes| <= count.value
      invariant ParseSizes(|indexes|, start) == Some(Parsed(indexes, cur.Rest()))
    {
      ParseSizesNext(indexes, count.value, start, cur.Rest());
      var index := cur.SizeRead();
      if index.None? || index.value > 0xffff {
        return None;
      }
      indexes := indexes + [index.value];
    }
    ghost var xs := indexes;
    var i, offset: nat := 0, 0;
    AccumulatedStart(xs);
    ghost var rest := cur.Rest();
    while i < count.value
      invariant cur.Valid() && cur.Rest() == rest
      invariant 0 <= i <= count.value == |indexes| && Accumulated(xs, indexes, i, offset)
    {
      AccumulatedStep(xs, indexes, i, offset);
      var index := indexes[i] + offset;
      if index > 0xffff {
        return None;
      }
      indexes := indexes[i := index];
      offset := index + 1;
      i := i + 1;
    }
    AccumulatedEnd(xs, indexes, offset);
    r := Some(Request(hash.value, indexes));
  }

  lemma ParseSizesStart(s: seq<byte>)
    ensures ParseSizes(0, s) == Some(Parsed([], s))
  {}

  lemma AccumulatedStart(xs: seq<nat>)
    ensures Accumulated(xs, xs, 0, 0)
  {
    assert xs[0..] == xs && xs[..0] == [];
    var r := Accumulate(xs, 0);
    if r.Some? { assert [] + r.value == r.value; }
  }

  lemma AccumulatedEnd(xs: seq<nat>, s: seq<nat>, offset: nat)
    requires |s| == |xs| && Accumulated(xs, s, |xs|, offset)
    ensures Accumulate(xs, 0) == Some(s)
  {
    assert xs[|xs|..] == [] && s[..|xs|] + [] == s;
    assert Accumulate([], offset) == Some([]);
  }
}
