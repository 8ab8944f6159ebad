/** Which merkle block messages are accepted: exactly the writings of partial trees. */
module PartialTree {
  import opened Arith
  import opened Consensus
  import opened MerkleBlock

  /** A tree cut off where nothing below was asked for. A tip is a leaf, flagged when it is a match, or the
      hash of a subtree; the last inner node of a row may be without a right child. */
  datatype Tree<H> = Tip(hash: H, flag: bool) | Pair(left: Tree<H>, right: Tree<H>) | Lone(only: Tree<H>)

  function Root<H>(node: (H, H) -> H, t: Tree<H>): (root: H) {
    match t
    case Tip(h, _) => h
    case Pair(l, r) => node(Root(node, l), Root(node, r))
    case Lone(l) => node(Root(node, l), Root(node, l))
  }

  /** The tree has the shape of the block's tree, and no two siblings have the same hash. */
  ghost predicate Shaped<H>(node: (H, H) -> H, total: nat, t: Tree<H>, height: nat, pos: nat)
    decreases t
  {
    match t
    case Tip(_, flag) => flag ==> height == 0
    case Pair(l, r) =>
      && height > 0 && 2 * pos + 1 < Width(total, height - 1) && Root(node, l) != Root(node, r)
      && Shaped(node, total, l, height - 1, 2 * pos) && Shaped(node, total, r, height - 1, 2 * pos + 1)
    case Lone(l) =>
      height > 0 && 2 * pos + 1 >= Width(total, height - 1) && Shaped(node, total, l, height - 1, 2 * pos)
  }

  /** Inner nodes are flagged, and written before their children. */
  function Over<H>(l: Proof<H>, r: Proof<H>): (p: Proof<H>) {
    Proof([true] + l.bits + r.bits, l.hashes + r.hashes)
  }

  function Written<H>(t: Tree<H>): (p: Proof<H>)
    ensures 1 <= |p.hashes| <= |p.bits|
  {
    match t
    case Tip(h, flag) => Proof([flag], [h])
    case Pair(l, r) => Over(Written(l), Written(r))
    case Lone(l) => Over(Written(l), Proof([], []))
  }

  /** The matches, and where they stand in the block. */
  function Matches<H>(t: Tree<H>): (s: seq<H>) {
    match t
    case Tip(h, flag) => if flag then [h] else []
    case Pair(l, r) => Matches(l) + Matches(r)
    case Lone(l) => Matches(l)
  }

  function Places<H>(t: Tree<H>, pos: nat): (s: seq<nat>) {
    match t
    case Tip(_, flag) => if flag then [pos] else []
    case Pair(l, r) => Places(l, 2 * pos) + Places(r, 2 * pos + 1)
    case Lone(l) => Places(l, 2 * pos)
  }

  /** What reading the tree from the given counters comes to. */
  function Reading<H>(node: (H, H) -> H, t: Tree<H>, pos: nat, bu: nat, hu: nat): (w: Walk<H>) {
    Walked(Root(node, t), bu + |Written(t).bits|, hu + |Written(t).hashes|, Matches(t), Places(t, pos))
  }

  lemma OverWindows<H>(l: Proof<H>, r: Proof<H>, bits: seq<bool>, hashes: seq<H>, bu: nat, hu: nat)
    requires Embedded(l, bits, hashes, bu + 1, hu) && bu < |bits| && bits[bu]
    requires Embedded(r, bits, hashes, bu + 1 + |l.bits|, hu + |l.hashes|)
    ensures Embedded(Over(l, r), bits, hashes, bu, hu)
  {
    var p := Over(l, r);
    var b, c := bu + 1 + |l.bits|, hu + |l.hashes|;
    assert bits[bu..bu + |p.bits|] == [bits[bu]] + bits[bu + 1..b] + bits[b..b + |r.bits|];
    assert hashes[hu..hu + |p.hashes|] == hashes[hu..c] + hashes[c..c + |r.hashes|];
  }

  lemma TipEmbedded<H>(h: H, flag: bool, bits: seq<bool>, hashes: seq<H>, bu: nat, hu: nat)
    ensures Embedded(Proof([flag], [h]), bits, hashes, bu, hu) <==>
            bu < |bits| && hu < |hashes| && bits[bu] == flag && hashes[hu] == h
  {
    if bu < |bits| && hu < |hashes| {
      assert bits[bu..bu + 1] == [bits[bu]] && hashes[hu..hu + 1] == [hashes[hu]];
    }
  }

  lemma NothingEmbedded<H>(bits: seq<bool>, hashes: seq<H>, bu: nat, hu: nat)
    requires bu <= |bits| && hu <= |hashes|
    ensures Embedded(Proof([], []), bits, hashes, bu, hu)
  {}

  lemma EmbeddedEnds<H>(p: Proof<H>, bits: seq<bool>, hashes: seq<H>, bu: nat, hu: nat)
    requires Embedded(p, bits, hashes, bu, hu)
    ensures bu + |p.bits| <= |bits| && hu + |p.hashes| <= |hashes|
  {}

  /** A tree that stands in the message is read. */
  lemma {:induction false} TreeRead<H>(node: (H, H) -> H, total: nat, t: Tree<H>, bits: seq<bool>, hashes: seq<H>,
                                       height: nat, pos: nat, bu: nat, hu: nat)
    requires Shaped(node, total, t, height, pos) && Embedded(Written(t), bits, hashes, bu, hu)
    ensures Traverse(node, total, bits, hashes, height, pos, bu, hu) == Reading(node, t, pos, bu, hu)
    decreases t
  {
    hide Traverse, Width, Embedded;
    match t
    case Tip(h, flag) =>
      TipEmbedded(h, flag, bits, hashes, bu, hu);
      TraverseClosed(node, total, bits, hashes, height, pos, bu, hu);
    case Pair(l, r) =>
      EmbeddedLeft(true, Written(l), Written(r), bits, hashes, bu, hu);
      TraverseOpened(node, total, bits, hashes, height, pos, bu, hu);
      TreeRead(node, total, l, bits, hashes, height - 1, 2 * pos, bu + 1, hu);
      TreeRead(node, total, r, bits, hashes, height - 1, 2 * pos + 1, bu + 1 + |Written(l).bits|, hu + |Written(l).hashes|);
    case Lone(l) =>
      EmbeddedLeft(true, Written(l), Proof([], []), bits, hashes, bu, hu);
      TraverseOpened(node, total, bits, hashes, height, pos, bu, hu);
      TreeRead(node, total, l, bits, hashes, height - 1, 2 * pos, bu + 1, hu);
  }

  /** Whatever is read is a tree that stands in the message. */
  lemma {:induction false} ReadTree<H>(node: (H, H) -> H, total: nat, bits: seq<bool>, hashes: seq<H>,
                                       height: nat, pos: nat, bu: nat, hu: nat) returns (t: Tree<H>)
    requires Traverse(node, total, bits, hashes, height, pos, bu, hu).Walked?
    ensures Shaped(node, total, t, height, pos) && Embedded(Written(t), bits, hashes, bu, hu)
    ensures Traverse(node, total, bits, hashes, height, pos, bu, hu) == Reading(node, t, pos, bu, hu)
    decreases height
  {
    hide Traverse, Width, Embedded;
    if bu >= |bits| || height == 0 || !bits[bu] {
      TraverseClosed(node, total, bits, hashes, height, pos, bu, hu);
      t := Tip(hashes[hu], bits[bu]);
      TipEmbedded(hashes[hu], bits[bu], bits, hashes, bu, hu);
    } else {
      TraverseOpened(node, total, bits, hashes, height, pos, bu, hu);
      var l := ReadTree(node, total, bits, hashes, height - 1, 2 * pos, bu + 1, hu);
      var b, c := bu + 1 + |Written(l).bits|, hu + |Written(l).hashes|;
      if 2 * pos + 1 < Width(total, height - 1) {
        var r := ReadTree(node, total, bits, hashes, height - 1, 2 * pos + 1, b, c);
        t := Pair(l, r);
        OverWindows(Written(l), Written(r), bits, hashes, bu, hu);
      } else {
        t := Lone(l);
        EmbeddedEnds(Written(l), bits, hashes, bu + 1, hu);
        NothingEmbedded(bits, hashes, b, c);
        OverWindows(Written(l), Proof([], []), bits, hashes, bu, hu);
      }
    }
    TreeRead(node, total, t, bits, hashes, height, pos, bu, hu);
  }

  /** There are no more tips than leaves. */
  lemma {:induction false} TipsFit<H>(node: (H, H) -> H, total: nat, t: Tree<H>, height: nat, pos: nat)
    requires Shaped(node, total, t, height, pos) && pos < Width(total, height)
    ensures |Written(t).hashes| <= Last(total, height, pos) - First(height, pos)
    decreases t
  {
    hide Width, First, Last;
    SpanNonempty(total, height, pos);
    match t
    case Tip(_, _) =>
    case Pair(l, r) =>
      ChildSpans(total, height, pos);
      TipsFit(node, total, l, height - 1, 2 * pos);
      TipsFit(node, total, r, height - 1, 2 * pos + 1);
    case Lone(l) =>
      ChildSpans(total, height, pos);
      TipsFit(node, total, l, height - 1, 2 * pos);
  }

  /** The message is the writing of the tree: all its hashes, and its bits with at most seven more to fill
      the last byte. */
  ghost predicate Writes<H>(node: (H, H) -> H, total: nat, t: Tree<H>, hashes: seq<H>, flags: seq<bv8>) {
    && Shaped(node, total, t, HeightFrom(total, 0), 0)
    && Written(t).hashes == hashes
    && |flags| == (|Written(t).bits| + 7) / 8 && AllBits(flags)[..|Written(t).bits|] == Written(t).bits
  }

  /** Accepted messages are exactly the writings of partial trees of a permitted size; extraction yields the
      root, the matches and their places. */
  lemma AcceptedExactly<H(!new)>(node: (H, H) -> H, total: nat, hashes: seq<H>, flags: seq<bv8>)
    ensures var w := Extracted(node, total, hashes, flags);
            && (w.Walked? <==> 0 < total <= 16666 && exists t :: Writes(node, total, t, hashes, flags))
            && (forall t :: w.Walked? && Writes(node, total, t, hashes, flags) ==> w == Reading(node, t, 0, 0, 0))
  {
    hide Traverse, Width, HeightFrom, Shaped, AllBits;
    var w := Extracted(node, total, hashes, flags);
    if w.Walked? {
      var t := ReadTree(node, total, AllBits(flags), hashes, HeightFrom(total, 0), 0, 0, 0);
      assert Writes(node, total, t, hashes, flags);
    }
    forall t | 0 < total <= 16666 && Writes(node, total, t, hashes, flags) ensures w == Reading(node, t, 0, 0, 0) {
      WritingRead(node, total, t, hashes, flags);
    }
  }

  lemma WritingRead<H>(node: (H, H) -> H, total: nat, t: Tree<H>, hashes: seq<H>, flags: seq<bv8>)
    requires 0 < total <= 16666 && Writes(node, total, t, hashes, flags)
    ensures Extracted(node, total, hashes, flags) == Reading(node, t, 0, 0, 0)
  {
    hide Traverse, Width, HeightFrom, Shaped, First, Last, FlagBit;
    var h := HeightFrom(total, 0);
    RootSpan(total, 0);
    TipsFit(node, total, t, h, 0);
    assert Embedded(Written(t), AllBits(flags), hashes, 0, 0);
    TreeRead(node, total, t, AllBits(flags), hashes, h, 0, 0, 0);
  }

  /** Nothing may be left over: an accepted message with one more hash, or one more byte of flags, is
      refused. */
  lemma NothingLeftOver<H(!new)>(node: (H, H) -> H, total: nat, hashes: seq<H>, flags: seq<bv8>, h: H, b: bv8)
    requires Extracted(node, total, hashes, flags).Walked?
    ensures Extracted(node, total, hashes + [h], flags).Fail? && Extracted(node, total, hashes, flags + [b]).Fail?
  {
    hide Traverse, Width, HeightFrom, Shaped, FlagBit;
    var top := HeightFrom(total, 0);
    var t := ReadTree(node, total, AllBits(flags), hashes, top, 0, 0, 0);
    var bits, p := AllBits(flags), Written(t);
    assert Embedded(p, bits, hashes + [h], 0, 0) by {
      assert (hashes + [h])[0..0 + |p.hashes|] == hashes[0..0 + |p.hashes|];
    }
    TreeRead(node, total, t, bits, hashes + [h], top, 0, 0, 0);
    var more := AllBits(flags + [b]);
    assert Embedded(p, more, hashes, 0, 0) by {
      SamePrefix(flags, b);
      assert more[0..0 + |p.bits|] == bits[0..0 + |p.bits|];
    }
    TreeRead(node, total, t, more, hashes, top, 0, 0, 0);
  }

  lemma SamePrefix(flags: seq<bv8>, b: bv8)
    ensures AllBits(flags + [b])[..8 * |flags|] == AllBits(flags)
  {
    hide FlagAt;
    forall p | 0 <= p < 8 * |flags| ensures FlagBit(flags + [b], p) == FlagBit(flags, p) {
      assert (flags + [b])[p / 8] == flags[p / 8];
    }
  }

  // ----- the proof that is built

  lemma {:induction false} PlacesWithin<H>(node: (H, H) -> H, total: nat, t: Tree<H>, height: nat, pos: nat)
    requires Shaped(node, total, t, height, pos) && pos < Width(total, height)
    ensures forall i :: i in Places(t, pos) ==> First(height, pos) <= i < Last(total, height, pos)
    decreases t
  {
    hide Width, First, Last;
    SpanNonempty(total, height, pos);
    match t
    case Tip(_, _) =>
      if height == 0 { LeafSpan(total, pos); }
    case Pair(l, r) =>
      ChildSpans(total, height, pos);
      PlacesWithin(node, total, l, height - 1, 2 * pos);
      PlacesWithin(node, total, r, height - 1, 2 * pos + 1);
    case Lone(l) =>
      ChildSpans(total, height, pos);
      PlacesWithin(node, total, l, height - 1, 2 * pos);
  }

  /** The tree reports every wanted leaf from `lo` up to `hi`. */
  ghost predicate Reports<H>(t: Tree<H>, pos: nat, matches: seq<bool>, lo: nat, hi: nat)
    requires hi <= |matches|
  {
    forall i :: lo <= i < hi && matches[i] ==> i in Places(t, pos)
  }

  lemma ReportsSplit<H>(l: Tree<H>, r: Tree<H>, pos: nat, p: nat, q: nat, matches: seq<bool>, lo: nat, mid: nat, hi: nat)
    requires p == 2 * pos && q == 2 * pos + 1
    requires lo <= mid <= hi <= |matches| && Reports(Pair(l, r), pos, matches, lo, hi)
    requires (forall i :: i in Places(l, p) ==> i < mid) && (forall i :: i in Places(r, q) ==> mid <= i)
    ensures Reports(l, p, matches, lo, mid) && Reports(r, q, matches, mid, hi)
  {
    forall i | lo <= i < hi && matches[i] ensures i in Places(l, p) || i in Places(r, q) {
      assert i in Places(Pair(l, r), pos);
    }
  }

  /** No partial tree that reports the wanted leaves is written shorter than what the prover builds. */
  lemma {:induction false} SmallestSubtree<H>(node: (H, H) -> H, leaves: seq<H>, matches: seq<bool>, t: Tree<H>,
                                              other: (H, H) -> H, height: nat, pos: nat)
    requires |matches| == |leaves| && pos < Width(|leaves|, height) && Shaped(other, |leaves|, t, height, pos)
    requires Last(|leaves|, height, pos) <= |matches|
    requires Reports(t, pos, matches, First(height, pos), Last(|leaves|, height, pos))
    ensures var proof := Build(node, leaves, matches, height, pos);
            |proof.bits| <= |Written(t).bits| && |proof.hashes| <= |Written(t).hashes|
    decreases height
  {
    hide Width, First, Last, Build;
    var total := |leaves|;
    SpanNonempty(total, height, pos);
    var lo, hi := First(height, pos), Last(total, height, pos);
    if height == 0 || !AnyMatch(matches, lo, hi) {
      BuildClosed(node, leaves, matches, height, pos);
    } else {
      ChildSpans(total, height, pos);
      BuildOpened(node, leaves, matches, height, pos);
      var k :| lo <= k < hi && matches[k];
      assert k in Places(t, pos);
      if t.Pair? {
        PlacesWithin(other, total, t.left, height - 1, 2 * pos);
        PlacesWithin(other, total, t.right, height - 1, 2 * pos + 1);
        ReportsSplit(t.left, t.right, pos, 2 * pos, 2 * pos + 1, matches, lo, First(height - 1, 2 * pos + 1), hi);
        SmallestSubtree(node, leaves, matches, t.left, other, height - 1, 2 * pos);
        SmallestSubtree(node, leaves, matches, t.right, other, height - 1, 2 * pos + 1);
      } else {
        SmallestSubtree(node, leaves, matches, t.only, other, height - 1, 2 * pos);
      }
    }
  }

  /** The message sent for a block is the shortest accepted one that reports all its matches. */
  lemma SmallestProof<H(!new)>(node: (H, H) -> H, leaves: seq<H>, matches: seq<bool>, hashes: seq<H>, flags: seq<bv8>)
    requires |matches| == |leaves| > 0
    requires var w := Extracted(node, |leaves|, hashes, flags);
             w.Walked? && forall i :: 0 <= i < |leaves| && matches[i] ==> i in w.indices
    ensures Width(|leaves|, HeightFrom(|leaves|, 0)) == 1
    ensures var proof := Build(node, leaves, matches, HeightFrom(|leaves|, 0), 0);
            |proof.hashes| <= |hashes| && (|proof.bits| + 7) / 8 <= |flags|
  {
    hide Width, First, Last, Build, Traverse, HeightFrom, Shaped, AllBits;
    var total := |leaves|;
    RootSpan(total, 0);
    var t := ReadTree(node, total, AllBits(flags), hashes, HeightFrom(total, 0), 0, 0, 0);
    SmallestSubtree(node, leaves, matches, t, node, HeightFrom(total, 0), 0);
  }
}
