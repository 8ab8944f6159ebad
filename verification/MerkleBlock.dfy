/** Partial merkle trees: what `tree_build` sends and what `tree_traverse` accepts.
    Hashing two children into their parent is an arbitrary function `node`. */
module MerkleBlock {
  import opened Arith
  import opened Consensus
  import opened Sequences

  // ----- the shape of the tree

  /** `tree_width`: the number of nodes at a height. */
  function Width(total: nat, height: nat): (w: nat) {
    (total + Pow(2, height) - 1) / Pow(2, height)
  }

  /** Node `pos` exists exactly when its first leaf does. */
  lemma WidthMeaning(total: nat, height: nat, pos: nat)
    ensures pos < Width(total, height) <==> pos * Pow(2, height) < total
  {
    var p := Pow(2, height);
    DivBelow(total + p - 1, p, pos);
    assert (pos + 1) * p == pos * p + p;
  }

  lemma DivBelow(n: int, p: int, k: int)
    requires p >= 1
    ensures k < n / p <==> (k + 1) * p <= n
  {
    var q, r := n / p, n % p;
    assert n == q * p + r;
    if k < q { MulMono(k + 1, q, p); } else { MulMono(q + 1, k + 1, p); assert (q + 1) * p == q * p + p; }
  }

  lemma ChildWidth(total: nat, height: nat, pos: nat)
    requires height > 0 && pos < Width(total, height)
    ensures 2 * pos < Width(total, height - 1)
  {
    hide Width;
    WidthMeaning(total, height, pos);
    WidthMeaning(total, height - 1, 2 * pos);
    HalfSpan(height, pos);
  }

  /** A node spans the leaves of its two children. */
  lemma HalfSpan(height: nat, pos: nat)
    requires height > 0
    ensures (2 * pos) * Pow(2, height - 1) == pos * Pow(2, height)
    ensures (2 * pos + 2) * Pow(2, height - 1) == (pos + 1) * Pow(2, height)
  {
    var p := Pow(2, height - 1);
    assert Pow(2, height) == 2 * p;
    assert (2 * pos) * p == pos * (2 * p);
    assert (2 * pos + 2) * p == (pos + 1) * (2 * p);
  }

  /** The leaves below a node: `[First, Last)`. */
  function First(height: nat, pos: nat): nat {
    pos * Pow(2, height)
  }

  function Last(total: nat, height: nat, pos: nat): nat {
    var end := (pos + 1) * Pow(2, height);
    if end < total then end else total
  }

  lemma LeafSpan(total: nat, pos: nat)
    requires pos < Width(total, 0)
    ensures pos < total && First(0, pos) == pos && Last(total, 0, pos) == pos + 1
  {
    WidthMeaning(total, 0, pos);
  }

  /** How the children of a node share its leaves. */
  lemma ChildSpans(total: nat, height: nat, pos: nat)
    requires height > 0 && pos < Width(total, height)
    ensures 2 * pos < Width(total, height - 1)
    ensures First(height - 1, 2 * pos) == First(height, pos) < Last(total, height - 1, 2 * pos) <= total
    ensures 2 * pos + 1 < Width(total, height - 1) ==>
      && Last(total, height - 1, 2 * pos) == First(height - 1, 2 * pos + 1) < Last(total, height, pos) <= total
      && Last(total, height - 1, 2 * pos + 1) == Last(total, height, pos)
    ensures 2 * pos + 1 >= Width(total, height - 1) ==> Last(total, height - 1, 2 * pos) == Last(total, height, pos)
  {
    hide Width, Pow;
    ChildWidth(total, height, pos);
    HalfSpan(height, pos);
    WidthMeaning(total, height - 1, 2 * pos);
    WidthMeaning(total, height - 1, 2 * pos + 1);
    var p := Pow(2, height - 1);
    assert (2 * pos + 1) * p == (2 * pos) * p + p && (2 * pos + 2) * p == (2 * pos + 1) * p + p;
  }

  lemma SpanNonempty(total: nat, height: nat, pos: nat)
    requires pos < Width(total, height)
    ensures First(height, pos) < Last(total, height, pos) <= total
  {
    hide Width, Pow;
    WidthMeaning(total, height, pos);
    assert (pos + 1) * Pow(2, height) == pos * Pow(2, height) + Pow(2, height);
  }

  // ----- the full tree

  /** `tree_hash`: an odd node at the end of a row is paired with itself. */
  function TreeHash<H>(node: (H, H) -> H, leaves: seq<H>, height: nat, pos: nat): (root: H)
    requires pos < Width(|leaves|, height)
    decreases height
  {
    if height == 0 then
      LeafSpan(|leaves|, pos);
      leaves[pos]
    else
      ChildWidth(|leaves|, height, pos);
      var left := TreeHash(node, leaves, height - 1, 2 * pos);
      var right := if 2 * pos + 1 < Width(|leaves|, height - 1)
                   then TreeHash(node, leaves, height - 1, 2 * pos + 1) else left;
      node(left, right)
  }

  lemma InnerHash<H>(node: (H, H) -> H, leaves: seq<H>, height: nat, pos: nat)
    requires height > 0 && pos < Width(|leaves|, height)
    ensures 2 * pos < Width(|leaves|, height - 1)
    ensures var left := TreeHash(node, leaves, height - 1, 2 * pos);
            TreeHash(node, leaves, height, pos) ==
            if 2 * pos + 1 < Width(|leaves|, height - 1)
            then node(left, TreeHash(node, leaves, height - 1, 2 * pos + 1)) else node(left, left)
  {
    ChildWidth(|leaves|, height, pos);
  }

  ghost predicate Injective<H(!new)>(node: (H, H) -> H) {
    forall a, b, c, d :: node(a, b) == node(c, d) ==> a == c && b == d
  }

  /** Equal subtrees of one height start with equal leaves. */
  lemma {:induction false} FirstLeaf<H(!new)>(node: (H, H) -> H, leaves: seq<H>, height: nat, p: nat, q: nat)
    requires Injective(node) && p < Width(|leaves|, height) && q < Width(|leaves|, height)
    requires TreeHash(node, leaves, height, p) == TreeHash(node, leaves, height, q)
    ensures First(height, p) < |leaves| && First(height, q) < |leaves|
    ensures leaves[First(height, p)] == leaves[First(height, q)]
    decreases height
  {
    hide Width, First;
    if height == 0 {
      LeafSpan(|leaves|, p);
      LeafSpan(|leaves|, q);
    } else {
      ChildSpans(|leaves|, height, p);
      ChildSpans(|leaves|, height, q);
      FirstLeaf(node, leaves, height - 1, 2 * p, 2 * q);
    }
  }

  /** Two siblings of a tree of distinct leaves differ, so the verifier's duplicate check passes. */
  lemma SiblingsDiffer<H(!new)>(node: (H, H) -> H, leaves: seq<H>, height: nat, pos: nat)
    requires Injective(node) && Distinct(leaves) && height > 0 && pos < Width(|leaves|, height)
    requires 2 * pos + 1 < Width(|leaves|, height - 1)
    ensures 2 * pos < Width(|leaves|, height - 1)
    ensures TreeHash(node, leaves, height - 1, 2 * pos) != TreeHash(node, leaves, height - 1, 2 * pos + 1)
  {
    hide Width, First, Last, TreeHash;
    ChildSpans(|leaves|, height, pos);
    if TreeHash(node, leaves, height - 1, 2 * pos) == TreeHash(node, leaves, height - 1, 2 * pos + 1) {
      FirstLeaf(node, leaves, height - 1, 2 * pos, 2 * pos + 1);
    }
  }

  // ----- the prover

  datatype Proof<H> = Proof(bits: seq<bool>, hashes: seq<H>)

  predicate AnyMatch(matches: seq<bool>, lo: nat, hi: nat)
    requires lo <= hi <= |matches|
  {
    exists i :: lo <= i < hi && matches[i]
  }

  /** What `tree_build` emits for a subtree. */
  ghost function Build<H>(node: (H, H) -> H, leaves: seq<H>, matches: seq<bool>, height: nat, pos: nat): (proof: Proof<H>)
    requires |matches| == |leaves| && pos < Width(|leaves|, height)
    decreases height
  {
    SpanNonempty(|leaves|, height, pos);
    var parent := AnyMatch(matches, First(height, pos), Last(|leaves|, height, pos));
    if height == 0 || !parent then
      Proof([parent], [TreeHash(node, leaves, height, pos)])
    else
      ChildWidth(|leaves|, height, pos);
      var left := Build(node, leaves, matches, height - 1, 2 * pos);
      if 2 * pos + 1 < Width(|leaves|, height - 1) then
        var right := Build(node, leaves, matches, height - 1, 2 * pos + 1);
        Proof([parent] + left.bits + right.bits, left.hashes + right.hashes)
      else
        Proof([parent] + left.bits, left.hashes)
  }

  /** A subtree without matches, or a single leaf, is sent as one hash. */
  lemma BuildClosed<H>(node: (H, H) -> H, leaves: seq<H>, matches: seq<bool>, height: nat, pos: nat)
    requires |matches| == |leaves| && pos < Width(|leaves|, height)
    requires First(height, pos) <= Last(|leaves|, height, pos) <= |leaves|
    requires height == 0 || !AnyMatch(matches, First(height, pos), Last(|leaves|, height, pos))
    ensures Build(node, leaves, matches, height, pos)
         == Proof([AnyMatch(matches, First(height, pos), Last(|leaves|, height, pos))],
                  [TreeHash(node, leaves, height, pos)])
  {}

  lemma BuildOpened<H>(node: (H, H) -> H, leaves: seq<H>, matches: seq<bool>, height: nat, pos: nat)
    requires |matches| == |leaves| && pos < Width(|leaves|, height) && height > 0
    requires First(height, pos) <= Last(|leaves|, height, pos) <= |leaves|
    requires AnyMatch(matches, First(height, pos), Last(|leaves|, height, pos))
    ensures 2 * pos < Width(|leaves|, height - 1)
    ensures var left := Build(node, leaves, matches, height - 1, 2 * pos);
            Build(node, leaves, matches, height, pos) ==
            if 2 * pos + 1 < Width(|leaves|, height - 1) then
              var right := Build(node, leaves, matches, height - 1, 2 * pos + 1);
              Proof([true] + left.bits + right.bits, left.hashes + right.hashes)
            else Proof([true] + left.bits, left.hashes)
  {
    ChildWidth(|leaves|, height, pos);
  }

  /** A subtree's proof has at most one hash per leaf, and at least as many bits as hashes. */
  lemma {:induction false} BuildSize<H>(node: (H, H) -> H, leaves: seq<H>, matches: seq<bool>, height: nat, pos: nat)
    requires |matches| == |leaves| && pos < Width(|leaves|, height)
    ensures var proof := Build(node, leaves, matches, height, pos);
            1 <= |proof.hashes| <= Last(|leaves|, height, pos) - First(height, pos)
            && |proof.hashes| <= |proof.bits|
    decreases height
  {
    hide Width, First, Last, TreeHash, AnyMatch;
    SpanNonempty(|leaves|, height, pos);
    if height > 0 {
      ChildSpans(|leaves|, height, pos);
      BuildSize(node, leaves, matches, height - 1, 2 * pos);
      if 2 * pos + 1 < Width(|leaves|, height - 1) {
        BuildSize(node, leaves, matches, height - 1, 2 * pos + 1);
      }
    }
  }

  // ----- the verifier

  datatype Walk<H> = Fail | Walked(root: H, bitsUsed: nat, hashUsed: nat, matches: seq<H>, indices: seq<nat>)

  /** Two subtrees joined; the verifier refuses a right child equal to the left one. */
  function Join<H(==)>(node: (H, H) -> H, left: Walk<H>, right: Walk<H>): (w: Walk<H>) {
    if left.Fail? || right.Fail? || right.root == left.root then Fail
    else Walked(node(left.root, right.root), right.bitsUsed, right.hashUsed,
                left.matches + right.matches, left.indices + right.indices)
  }

  /** `tree_traverse` on a sequence of bits, from the counters `bu` and `hu`. */
  function Traverse<H(==)>(node: (H, H) -> H, total: nat, bits: seq<bool>, hashes: seq<H>,
                           height: nat, pos: nat, bu: nat, hu: nat): (w: Walk<H>)
    decreases height
  {
    if bu >= |bits| then Fail
    else if height == 0 || !bits[bu] then
      if hu >= |hashes| then Fail
      else if height == 0 && bits[bu] then Walked(hashes[hu], bu + 1, hu + 1, [hashes[hu]], [pos])
      else Walked(hashes[hu], bu + 1, hu + 1, [], [])
    else
      var left := Traverse(node, total, bits, hashes, height - 1, 2 * pos, bu + 1, hu);
      if left.Fail? then Fail
      else if 2 * pos + 1 < Width(total, height - 1) then
        Join(node, left,
             Traverse(node, total, bits, hashes, height - 1, 2 * pos + 1, left.bitsUsed, left.hashUsed))
      else left.(root := node(left.root, left.root))
  }

  /** A walk whose matches are appended to those found before. */
  function Onto<H>(w: Walk<H>, matches: seq<H>, indices: seq<nat>): (w': Walk<H>) {
    if w.Fail? then Fail else w.(matches := matches + w.matches, indices := indices + w.indices)
  }

  lemma JoinOnto<H>(node: (H, H) -> H, l: Walk<H>, r: Walk<H>, matches: seq<H>, indices: seq<nat>)
    requires l.Walked?
    ensures var left := Onto(l, matches, indices);
            var right := Onto(r, left.matches, left.indices);
            Onto(Join(node, l, r), matches, indices) ==
            if right.Fail? || right.root == left.root then Fail else right.(root := node(left.root, right.root))
  {
    if r.Walked? {
      assert matches + l.matches + r.matches == matches + (l.matches + r.matches);
      assert indices + l.indices + r.indices == indices + (l.indices + r.indices);
    }
  }

  lemma TraverseOpened<H>(node: (H, H) -> H, total: nat, bits: seq<bool>, hashes: seq<H>,
                          height: nat, pos: nat, bu: nat, hu: nat)
    requires bu < |bits| && height > 0 && bits[bu]
    ensures var left := Traverse(node, total, bits, hashes, height - 1, 2 * pos, bu + 1, hu);
            Traverse(node, total, bits, hashes, height, pos, bu, hu) ==
            if left.Fail? then Fail
            else if 2 * pos + 1 < Width(total, height - 1) then
              Join(node, left,
                   Traverse(node, total, bits, hashes, height - 1, 2 * pos + 1, left.bitsUsed, left.hashUsed))
            else left.(root := node(left.root, left.root))
  {}

  lemma TraverseClosed<H>(node: (H, H) -> H, total: nat, bits: seq<bool>, hashes: seq<H>,
                          height: nat, pos: nat, bu: nat, hu: nat)
    requires bu >= |bits| || height == 0 || !bits[bu]
    ensures Traverse(node, total, bits, hashes, height, pos, bu, hu) ==
            if bu >= |bits| || hu >= |hashes| then Fail
            else if bits[bu] then Walked(hashes[hu], bu + 1, hu + 1, [hashes[hu]], [pos])
            else Walked(hashes[hu], bu + 1, hu + 1, [], [])
  {}

  /** The positions in `[lo, hi)` that matched, in order. */
  ghost function Matched(matches: seq<bool>, lo: nat, hi: nat): (s: seq<nat>)
    requires lo <= hi <= |matches|
    ensures forall k :: 0 <= k < |s| ==> lo <= s[k] < hi && matches[s[k]]
    decreases hi
  {
    if lo == hi then []
    else if matches[hi - 1] then Matched(matches, lo, hi - 1) + [hi - 1]
    else Matched(matches, lo, hi - 1)
  }

  lemma {:induction false} MatchedSplit(matches: seq<bool>, lo: nat, mid: nat, hi: nat)
    requires lo <= mid <= hi <= |matches|
    ensures Matched(matches, lo, hi) == Matched(matches, lo, mid) + Matched(matches, mid, hi)
    decreases hi
  {
    if mid < hi { MatchedSplit(matches, lo, mid, hi - 1); }
  }

  lemma {:induction false} NoneMatched(matches: seq<bool>, lo: nat, hi: nat)
    requires lo <= hi <= |matches| && !AnyMatch(matches, lo, hi)
    ensures Matched(matches, lo, hi) == []
    decreases hi
  {
    if lo < hi {
      assert !matches[hi - 1];
      NoneMatched(matches, lo, hi - 1);
    }
  }

  ghost function LeavesAt<H>(leaves: seq<H>, indices: seq<nat>): (s: seq<H>)
    requires forall k :: 0 <= k < |indices| ==> indices[k] < |leaves|
    ensures |s| == |indices| && forall k :: 0 <= k < |s| ==> s[k] == leaves[indices[k]]
  {
    seq(|indices|, k requires 0 <= k < |indices| => leaves[indices[k]])
  }

  /** The proof of a subtree sits at the given counters. */
  ghost predicate Embedded<H>(proof: Proof<H>, bits: seq<bool>, hashes: seq<H>, bu: nat, hu: nat) {
    && bu + |proof.bits| <= |bits| && bits[bu..bu + |proof.bits|] == proof.bits
    && hu + |proof.hashes| <= |hashes| && hashes[hu..hu + |proof.hashes|] == proof.hashes
  }

  /** What the verifier must find at a subtree: its hash, its proof used up, and exactly its matches. */
  ghost function Expected<H>(node: (H, H) -> H, leaves: seq<H>, matches: seq<bool>, height: nat, pos: nat,
                             bu: nat, hu: nat): (w: Walk<H>)
    requires |matches| == |leaves| && pos < Width(|leaves|, height)
  {
    SpanNonempty(|leaves|, height, pos);
    var proof := Build(node, leaves, matches, height, pos);
    var indices := Matched(matches, First(height, pos), Last(|leaves|, height, pos));
    Walked(TreeHash(node, leaves, height, pos), bu + |proof.bits|, hu + |proof.hashes|,
           LeavesAt(leaves, indices), indices)
  }

  /** A piece of a window is a window. */
  lemma SubWindow<T>(s: seq<T>, o: nat, w: seq<T>, i: nat, piece: seq<T>)
    requires o + |w| <= |s| && s[o..o + |w|] == w && i + |piece| <= |w| && w[i..i + |piece|] == piece
    ensures s[o + i..o + i + |piece|] == piece
  {
    forall k | 0 <= k < |piece|
      ensures s[o + i + k] == piece[k]
    {
      assert s[o..o + |w|][i + k] == w[i + k];
      assert w[i..i + |piece|][k] == piece[k];
    }
  }

  lemma EmbeddedLeft<H>(parent: bool, left: Proof<H>, right: Proof<H>, bits: seq<bool>, hashes: seq<H>, bu: nat, hu: nat)
    requires Embedded(Proof([parent] + left.bits + right.bits, left.hashes + right.hashes), bits, hashes, bu, hu)
    ensures Embedded(left, bits, hashes, bu + 1, hu)
    ensures Embedded(right, bits, hashes, bu + 1 + |left.bits|, hu + |left.hashes|)
    ensures bu < |bits| && bits[bu] == parent
  {
    var b, h := [parent] + left.bits + right.bits, left.hashes + right.hashes;
    var n, i := |left.bits|, |left.hashes|;
    assert bits[bu] == bits[bu..bu + |b|][0] == b[0];
    assert b[1..1 + n] == left.bits && b[1 + n..1 + n + |right.bits|] == right.bits;
    assert h[0..0 + i] == left.hashes && h[i..i + |right.hashes|] == right.hashes;
    SubWindow(bits, bu, b, 1, left.bits);
    SubWindow(bits, bu, b, 1 + n, right.bits);
    SubWindow(hashes, hu, h, 0, left.hashes);
    SubWindow(hashes, hu, h, i, right.hashes);
  }

  /** The verifier undoes the prover on every subtree. */
  lemma {:induction false} SubtreeRoundTrip<H(!new)>(node: (H, H) -> H, leaves: seq<H>, matches: seq<bool>,
                                                     bits: seq<bool>, hashes: seq<H>,
                                                     height: nat, pos: nat, bu: nat, hu: nat)
    requires Injective(node) && Distinct(leaves) && |matches| == |leaves| && pos < Width(|leaves|, height)
    requires Embedded(Build(node, leaves, matches, height, pos), bits, hashes, bu, hu)
    ensures Traverse(node, |leaves|, bits, hashes, height, pos, bu, hu)
         == Expected(node, leaves, matches, height, pos, bu, hu)
    decreases height
  {
    hide Width, First, Last, AnyMatch, Matched, Embedded, Injective, Distinct, Traverse, TreeHash, Build;
    var total := |leaves|;
    SpanNonempty(total, height, pos);
    var lo, hi := First(height, pos), Last(total, height, pos);
    if height == 0 || !AnyMatch(matches, lo, hi) {
      LeafRoundTrip(node, leaves, matches, bits, hashes, height, pos, bu, hu);
    } else {
      ChildSpans(total, height, pos);
      BuildOpened(node, leaves, matches, height, pos);
      InnerHash(node, leaves, height, pos);
      var left := Build(node, leaves, matches, height - 1, 2 * pos);
      if 2 * pos + 1 < Width(total, height - 1) {
        var right := Build(node, leaves, matches, height - 1, 2 * pos + 1);
        EmbeddedLeft(true, left, right, bits, hashes, bu, hu);
        TraverseOpened(node, total, bits, hashes, height, pos, bu, hu);
        SubtreeRoundTrip(node, leaves, matches, bits, hashes, height - 1, 2 * pos, bu + 1, hu);
        SubtreeRoundTrip(node, leaves, matches, bits, hashes, height - 1, 2 * pos + 1,
                         bu + 1 + |left.bits|, hu + |left.hashes|);
        SiblingsDiffer(node, leaves, height, pos);
        var mid := First(height - 1, 2 * pos + 1);
        MatchedSplit(matches, lo, mid, hi);
        JoinLeaves(leaves, Matched(matches, lo, mid), Matched(matches, mid, hi));
      } else {
        var none := Proof([], []);
        assert [true] + left.bits + none.bits == [true] + left.bits && left.hashes + none.hashes == left.hashes;
        EmbeddedLeft(true, left, none, bits, hashes, bu, hu);
        TraverseOpened(node, total, bits, hashes, height, pos, bu, hu);
        SubtreeRoundTrip(node, leaves, matches, bits, hashes, height - 1, 2 * pos, bu + 1, hu);
      }
    }
  }

  lemma JoinLeaves<H>(leaves: seq<H>, s: seq<nat>, t: seq<nat>)
    requires forall k :: 0 <= k < |s| ==> s[k] < |leaves|
    requires forall k :: 0 <= k < |t| ==> t[k] < |leaves|
    ensures LeavesAt(leaves, s) + LeavesAt(leaves, t) == LeavesAt(leaves, s + t)
  {}

  /** A node that is not opened up contributes its hash; a leaf also its match. */
  lemma LeafRoundTrip<H(!new)>(node: (H, H) -> H, leaves: seq<H>, matches: seq<bool>, bits: seq<bool>, hashes: seq<H>,
                               height: nat, pos: nat, bu: nat, hu: nat)
    requires |matches| == |leaves| && pos < Width(|leaves|, height)
    requires First(height, pos) <= Last(|leaves|, height, pos) <= |leaves|
    requires height == 0 || !AnyMatch(matches, First(height, pos), Last(|leaves|, height, pos))
    requires Embedded(Build(node, leaves, matches, height, pos), bits, hashes, bu, hu)
    ensures Traverse(node, |leaves|, bits, hashes, height, pos, bu, hu)
         == Expected(node, leaves, matches, height, pos, bu, hu)
  {
    hide Width, First, Last, TreeHash;
    var total := |leaves|;
    var lo, hi := First(height, pos), Last(total, height, pos);
    var proof := Build(node, leaves, matches, height, pos);
    assert bits[bu] == bits[bu..bu + 1][0] == proof.bits[0];
    assert hashes[hu] == hashes[hu..hu + 1][0] == proof.hashes[0];
    if !AnyMatch(matches, lo, hi) {
      NoneMatched(matches, lo, hi);
    } else {
      LeafSpan(total, pos);
      assert matches[pos];
      assert Matched(matches, pos, pos + 1) == Matched(matches, pos, pos) + [pos];
      assert TreeHash(node, leaves, 0, pos) == leaves[pos] by { LeafHash(node, leaves, pos); }
    }
  }

  lemma LeafHash<H>(node: (H, H) -> H, leaves: seq<H>, pos: nat)
    requires pos < Width(|leaves|, 0) && pos < |leaves|
    ensures TreeHash(node, leaves, 0, pos) == leaves[pos]
  {}

  // ----- soundness

  /** Every reported pair is a real leaf at its own position, and positions increase. */
  ghost predicate RealLeaves<H>(leaves: seq<H>, found: seq<H>, indices: seq<nat>, lo: nat, hi: nat) {
    && |found| == |indices|
    && (forall k :: 0 <= k < |indices| ==> lo <= indices[k] < hi <= |leaves| && found[k] == leaves[indices[k]])
    && (forall j, k :: 0 <= j < k < |indices| ==> indices[j] < indices[k])
  }

  ghost predicate Truthful<H>(leaves: seq<H>, w: Walk<H>, lo: nat, hi: nat)
    requires w.Walked?
  {
    RealLeaves(leaves, w.matches, w.indices, lo, hi)
  }

  /** Whatever bits and hashes a peer sends, a subtree that hashes to the real one tells no lies. */
  lemma {:induction false} SubtreeSound<H(!new)>(node: (H, H) -> H, leaves: seq<H>, bits: seq<bool>, hashes: seq<H>,
                                                 height: nat, pos: nat, bu: nat, hu: nat)
    requires Injective(node) && pos < Width(|leaves|, height)
    requires var w := Traverse(node, |leaves|, bits, hashes, height, pos, bu, hu);
             w.Walked? && w.root == TreeHash(node, leaves, height, pos)
    ensures Truthful(leaves, Traverse(node, |leaves|, bits, hashes, height, pos, bu, hu),
                     First(height, pos), Last(|leaves|, height, pos))
    decreases height
  {
    hide Width, First, Last, Traverse, TreeHash, RealLeaves;
    var total := |leaves|;
    SpanNonempty(total, height, pos);
    if height == 0 || bu >= |bits| || !bits[bu] {
      TraverseClosed(node, total, bits, hashes, height, pos, bu, hu);
      ClosedTruthful(node, leaves, bits, hashes, height, pos, bu, hu);
    } else {
      ChildSpans(total, height, pos);
      InnerHash(node, leaves, height, pos);
      TraverseOpened(node, total, bits, hashes, height, pos, bu, hu);
      var left := Traverse(node, total, bits, hashes, height - 1, 2 * pos, bu + 1, hu);
      SubtreeSound(node, leaves, bits, hashes, height - 1, 2 * pos, bu + 1, hu);
      if 2 * pos + 1 < Width(total, height - 1) {
        SubtreeSound(node, leaves, bits, hashes, height - 1, 2 * pos + 1, left.bitsUsed, left.hashUsed);
        var right := Traverse(node, total, bits, hashes, height - 1, 2 * pos + 1, left.bitsUsed, left.hashUsed);
        JoinTruthful(node, leaves, left, right, First(height, pos), First(height - 1, 2 * pos + 1),
                     Last(total, height, pos));
      } else {
        assert Truthful(leaves, left, First(height, pos), Last(total, height, pos));
      }
    }
  }

  lemma ClosedTruthful<H>(node: (H, H) -> H, leaves: seq<H>, bits: seq<bool>, hashes: seq<H>,
                          height: nat, pos: nat, bu: nat, hu: nat)
    requires pos < Width(|leaves|, height) && (height == 0 || (bu < |bits| && !bits[bu]))
    requires var w := Traverse(node, |leaves|, bits, hashes, height, pos, bu, hu);
             w.Walked? && w.root == TreeHash(node, leaves, height, pos)
    ensures Truthful(leaves, Traverse(node, |leaves|, bits, hashes, height, pos, bu, hu),
                     First(height, pos), Last(|leaves|, height, pos))
  {
    hide Width, First, Last;
    if height == 0 { LeafSpan(|leaves|, pos); }
  }

  lemma JoinTruthful<H>(node: (H, H) -> H, leaves: seq<H>, left: Walk<H>, right: Walk<H>, lo: nat, mid: nat, hi: nat)
    requires left.Walked? && right.Walked? && lo <= mid <= hi <= |leaves|
    requires Truthful(leaves, left, lo, mid) && Truthful(leaves, right, mid, hi)
    ensures var w := Join(node, left, right); w.Walked? ==> Truthful(leaves, w, lo, hi)
  {
    var ks, n := left.indices + right.indices, |left.indices|;
    forall j, k | 0 <= j < k < |ks|
      ensures ks[j] < ks[k]
    {
      assert k < n ==> ks[j] == left.indices[j] && ks[k] == left.indices[k];
      assert j >= n ==> ks[j] == right.indices[j - n] && ks[k] == right.indices[k - n];
      assert j < n <= k ==> ks[j] == left.indices[j] && ks[k] == right.indices[k - n];
    }
  }

  // ----- flag bits packed into bytes, lowest bit first

  function BitMask(k: nat): (m: bv8)
    requires k < 8
  {
    match k
    case 0 => 0x01 case 1 => 0x02 case 2 => 0x04 case 3 => 0x08
    case 4 => 0x10 case 5 => 0x20 case 6 => 0x40 case _ => 0x80
  }

  /** `(data[p >> 3] >> (p & 7)) & 1`. */
  predicate FlagBit(flags: seq<bv8>, p: nat)
    requires p < 8 * |flags|
  {
    FlagAt(flags[p / 8], p % 8)
  }

  predicate FlagAt(b: bv8, k: nat)
    requires k < 8
  {
    b & BitMask(k) != 0
  }

  function AllBits(flags: seq<bv8>): (bits: seq<bool>)
    ensures |bits| == 8 * |flags|
    ensures forall p :: 0 <= p < |bits| ==> bits[p] == FlagBit(flags, p)
  {
    seq(8 * |flags|, p requires 0 <= p < 8 * |flags| => FlagBit(flags, p))
  }

  /** `bit_push`. */
  function PushBit(flags: seq<bv8>, x: bool, p: nat): (flags': seq<bv8>)
    requires p / 8 <= |flags|
  {
    var grown := if p / 8 == |flags| then flags + [0] else flags;
    grown[p / 8 := grown[p / 8] | (if x then BitMask(p % 8) else 0)]
  }

  /** The bytes hold exactly these bits, padded with zeros. */
  ghost predicate Holds(flags: seq<bv8>, bits: seq<bool>) {
    && |flags| == (|bits| + 7) / 8
    && forall p :: 0 <= p < 8 * |flags| ==> (FlagBit(flags, p) <==> p < |bits| && bits[p])
  }

  /** Bits are taken from the lowest up. */
  lemma LowestFirst(b: bv8)
    ensures (FlagAt(b, 0) <==> b & 1 == 1) && (FlagAt(b, 1) <==> (b >> 1) & 1 == 1)
    ensures (FlagAt(b, 2) <==> (b >> 2) & 1 == 1) && (FlagAt(b, 3) <==> (b >> 3) & 1 == 1)
    ensures (FlagAt(b, 4) <==> (b >> 4) & 1 == 1) && (FlagAt(b, 5) <==> (b >> 5) & 1 == 1)
    ensures (FlagAt(b, 6) <==> (b >> 6) & 1 == 1) && (FlagAt(b, 7) <==> (b >> 7) & 1 == 1)
  {}

  lemma MaskSet(b: bv8, k: nat, j: nat)
    requires k < 8 && j < 8
    ensures (b | BitMask(k)) & BitMask(j) != 0 <==> j == k || b & BitMask(j) != 0
  {
    MasksDisjoint(j, k);
    MaskOr(b, BitMask(k), BitMask(j));
  }

  lemma MasksDisjoint(j: nat, k: nat)
    requires j < 8 && k < 8
    ensures j != k ==> BitMask(j) & BitMask(k) == 0
    ensures BitMask(k) != 0
  {}

  lemma MaskOr(b: bv8, m: bv8, n: bv8)
    ensures m & n == 0 ==> (b | m) & n == b & n
    ensures n != 0 ==> (b | n) & n != 0
  {}

  lemma PushByteAt(b: bv8, x: bool, k: nat, j: nat)
    requires k < 8 && j < 8 && !FlagAt(b, k)
    ensures FlagAt(b | (if x then BitMask(k) else 0), j) <==> if k == j then x else FlagAt(b, j)
  {
    hide BitMask;
    MaskSet(b, k, j);
    OrZero(b);
  }

  lemma FreshByte(k: nat)
    requires k < 8
    ensures !FlagAt(0, k)
  {
    ZeroByte(BitMask(k));
  }

  /** Pushing a bit changes that bit and no other. */
  lemma PushBitAt(flags: seq<bv8>, x: bool, p: nat, q: nat)
    requires p / 8 <= |flags| && q < 8 * |PushBit(flags, x, p)|
    requires p < 8 * |flags| ==> !FlagBit(flags, p)
    ensures FlagBit(PushBit(flags, x, p), q) <==> if p == q then x else q < 8 * |flags| && FlagBit(flags, q)
  {
    hide BitMask, FlagAt;
    var grown := if p / 8 == |flags| then flags + [0] else flags;
    FreshByte(p % 8);
    FreshByte(q % 8);
    SameBit(p, q);
    PushByteAt(grown[p / 8], x, p % 8, q % 8);
  }

  lemma PushBitHolds(flags: seq<bv8>, bits: seq<bool>, x: bool)
    requires Holds(flags, bits)
    ensures Holds(PushBit(flags, x, |bits|), bits + [x])
  {
    hide BitMask, FlagBit;
    var p := |bits|;
    var flags', bits' := PushBit(flags, x, p), bits + [x];
    forall q | 0 <= q < 8 * |flags'|
      ensures FlagBit(flags', q) <==> q < |bits'| && bits'[q]
    {
      PushBitAt(flags, x, p, q);
    }
  }

  lemma HoldsLength(flags: seq<bv8>, bits: seq<bool>)
    requires Holds(flags, bits)
    ensures |bits| / 8 <= |flags|
  {}

  lemma ZeroByte(m: bv8)
    ensures 0 as bv8 & m == 0
  {}

  lemma OrZero(b: bv8)
    ensures b | 0 == b
  {}

  lemma SameBit(p: nat, q: nat)
    ensures p == q <==> p / 8 == q / 8 && p % 8 == q % 8
  {}

  // ----- whole messages

  /** The height of the root: the first row of width one. */
  function HeightFrom(total: nat, height: nat): (h: nat)
    decreases total - height
  {
    if Width(total, height) > 1 then
      TallEnough(total, height);
      HeightFrom(total, height + 1)
    else height
  }

  lemma {:induction false} PowGrows(height: nat)
    ensures height < Pow(2, height)
  {
    if height > 0 { PowGrows(height - 1); }
  }

  lemma TallEnough(total: nat, height: nat)
    requires Width(total, height) > 1
    ensures height < total
  {
    hide Width;
    WidthMeaning(total, height, 1);
    PowGrows(height);
  }

  lemma {:induction false} RootSpan(total: nat, height: nat)
    requires total > 0
    ensures var h := HeightFrom(total, height);
            Width(total, h) == 1 && First(h, 0) == 0 && Last(total, h, 0) == total
    decreases total - height
  {
    hide Width;
    if Width(total, height) > 1 {
      TallEnough(total, height);
      RootSpan(total, height + 1);
    } else {
      WidthMeaning(total, height, 0);
      WidthMeaning(total, height, 1);
      assert Width(total, height) == 1;
      assert Last(total, height, 0) == total;
    }
  }

  /** No lower row has width one. */
  lemma {:induction false} RootLowest(total: nat, height: nat, h: nat)
    requires height <= h < HeightFrom(total, height)
    ensures Width(total, h) > 1
    decreases h - height
  {
    hide Width;
    if Width(total, height) > 1 && height < h {
      TallEnough(total, height);
      RootLowest(total, height + 1, h);
    }
  }

  /** The root of the full tree. */
  function FullRoot<H>(node: (H, H) -> H, leaves: seq<H>): (root: H)
    requires leaves != []
  {
    RootSpan(|leaves|, 0);
    TreeHash(node, leaves, HeightFrom(|leaves|, 0), 0)
  }

  /** `btc_merkleblock_extract`. */
  function Extracted<H(==)>(node: (H, H) -> H, total: nat, hashes: seq<H>, flags: seq<bv8>): (w: Walk<H>) {
    if total == 0 || total > MAX_BLOCK_SIZE / 60 then Fail
    else if |hashes| > total || |flags| * 8 < |hashes| then Fail
    else
      var w := Traverse(node, total, AllBits(flags), hashes, HeightFrom(total, 0), 0, 0, 0);
      if w.Fail? || (w.bitsUsed + 7) / 8 != |flags| || w.hashUsed != |hashes| then Fail else w
  }

  /** Everything the prover packs for a block is accepted, and yields the root and exactly the matches. */
  lemma RoundTrip<H(!new)>(node: (H, H) -> H, leaves: seq<H>, matches: seq<bool>, flags: seq<bv8>)
    requires Injective(node) && Distinct(leaves) && |matches| == |leaves|
    requires 0 < |leaves| <= MAX_BLOCK_SIZE / 60
    requires 0 < Width(|leaves|, HeightFrom(|leaves|, 0))
    requires Holds(flags, Build(node, leaves, matches, HeightFrom(|leaves|, 0), 0).bits)
    ensures var proof := Build(node, leaves, matches, HeightFrom(|leaves|, 0), 0);
            var found := Matched(matches, 0, |leaves|);
            Extracted(node, |leaves|, proof.hashes, flags)
            == Walked(FullRoot(node, leaves), |proof.bits|, |proof.hashes|, LeavesAt(leaves, found), found)
  {
    hide Width, First, Last, Traverse, Build, TreeHash, Matched, HeightFrom, FlagBit, Injective, Distinct;
    var total := |leaves|;
    var h := HeightFrom(total, 0);
    var proof := Build(node, leaves, matches, h, 0);
    RootSpan(total, 0);
    BuildSize(node, leaves, matches, h, 0);
    assert AllBits(flags)[0..0 + |proof.bits|] == proof.bits;
    assert proof.hashes[0..0 + |proof.hashes|] == proof.hashes;
    SubtreeRoundTrip(node, leaves, matches, AllBits(flags), proof.hashes, h, 0, 0, 0);
  }

  /** Any accepted message whose root is the real one reports only real leaves at their positions. */
  lemma Sound<H(!new)>(node: (H, H) -> H, leaves: seq<H>, hashes: seq<H>, flags: seq<bv8>)
    requires Injective(node) && leaves != []
    requires var w := Extracted(node, |leaves|, hashes, flags); w.Walked? && w.root == FullRoot(node, leaves)
    ensures Truthful(leaves, Extracted(node, |leaves|, hashes, flags), 0, |leaves|)
  {
    hide Width, First, Last, Traverse, TreeHash, HeightFrom, Injective, Truthful;
    RootSpan(|leaves|, 0);
    SubtreeSound(node, leaves, AllBits(flags), hashes, HeightFrom(|leaves|, 0), 0, 0, 0);
  }

  // ----- the message object

  class Tree<H(==,!new)> {
    var total: nat
    var hashes: seq<H>
    var flags: seq<bv8>

    constructor ()
      ensures total == 0 && hashes == [] && flags == []
    {
      total, hashes, flags := 0, [], [];
    }

    method BitPush(x: bool, bits: nat) returns (bits': nat)
      requires bits / 8 <= |flags|
      modifies this`flags
      ensures flags == PushBit(old(flags), x, bits) && bits' == bits + 1
    {
      if bits / 8 == |flags| {
        flags := flags + [0];
      }
      flags := flags[bits / 8 := flags[bits / 8] | (if x then BitMask(bits % 8) else 0)];
      bits' := bits + 1;
    }

    /** The loop over the leaves of a node. */
    method Parent(height: nat, pos: nat, matches: seq<bool>) returns (parent: bool)
      requires total == |matches| && pos < Width(total, height)
      ensures First(height, pos) <= Last(total, height, pos) <= total
      ensures parent == AnyMatch(matches, First(height, pos), Last(total, height, pos))
    {
      hide Width, Pow;
      SpanNonempty(total, height, pos);
      parent := false;
      var p := pos * Pow(2, height);
      while p < (pos + 1) * Pow(2, height) && p < total
        invariant First(height, pos) <= p <= Last(total, height, pos)
        invariant parent <==> exists i :: First(height, pos) <= i < p && matches[i]
      {
        parent := parent || matches[p];
        p := p + 1;
      }
    }

    /** `tree_build`: appends the bits and hashes of one subtree. */
    method TreeBuild(node: (H, H) -> H, height: nat, pos: nat, leaves: seq<H>, matches: seq<bool>, bits: nat,
                     ghost done: seq<bool>)
      returns (bits': nat)
      requires total == |leaves| == |matches| && pos < Width(total, height)
      requires bits == |done| && Holds(flags, done)
      modifies this`flags, this`hashes
      ensures bits' == bits + |Build(node, leaves, matches, height, pos).bits|
      ensures Holds(flags, done + Build(node, leaves, matches, height, pos).bits)
      ensures hashes == old(hashes) + Build(node, leaves, matches, height, pos).hashes
      decreases height
    {
      hide Width, TreeHash, AnyMatch, First, Last, Pow, Holds, PushBit, Build;
      var parent := Parent(height, pos, matches);
      PushBitHolds(flags, done, parent);
      HoldsLength(flags, done);
      bits' := BitPush(parent, bits);
      if height == 0 || !parent {
        BuildClosed(node, leaves, matches, height, pos);
        hashes := hashes + [TreeHash(node, leaves, height, pos)];
      } else {
        BuildOpened(node, leaves, matches, height, pos);
        ghost var left := Build(node, leaves, matches, height - 1, 2 * pos);
        bits' := TreeBuild(node, height - 1, 2 * pos, leaves, matches, bits', done + [parent]);
        assert done + [parent] + left.bits == done + ([parent] + left.bits);
        if 2 * pos + 1 < Width(total, height - 1) {
          ghost var right := Build(node, leaves, matches, height - 1, 2 * pos + 1);
          bits' := TreeBuild(node, height - 1, 2 * pos + 1, leaves, matches, bits', done + [parent] + left.bits);
          assert done + [parent] + left.bits + right.bits == done + ([parent] + left.bits + right.bits);
        }
      }
    }

    /** `btc_merkleblock_set_matches`. */
    method SetMatches(node: (H, H) -> H, leaves: seq<H>, matches: seq<bool>)
      requires 0 < |leaves| == |matches|
      modifies this
      ensures total == |leaves|
      ensures 0 < Width(total, HeightFrom(total, 0))
      ensures hashes == Build(node, leaves, matches, HeightFrom(total, 0), 0).hashes
      ensures Holds(flags, Build(node, leaves, matches, HeightFrom(total, 0), 0).bits)
    {
      hide Width, Build, FlagBit;
      hashes, flags := [], [];
      total := |leaves|;
      RootSpan(total, 0);
      var height := FindHeight();
      var bits := TreeBuild(node, height, 0, leaves, matches, 0, []);
      var proof := Build(node, leaves, matches, height, 0);
      assert [] + proof.bits == proof.bits && [] + proof.hashes == proof.hashes;
    }

    method FindHeight() returns (height: nat)
      ensures height == HeightFrom(total, 0)
    {
      hide Width;
      height := 0;
      while Width(total, height) > 1
        invariant HeightFrom(total, height) == HeightFrom(total, 0)
        decreases total - height
      {
        TallEnough(total, height);
        height := height + 1;
      }
    }

    /** `tree_traverse`: the counters go in and out, and matches are appended as they are met. */
    method TreeTraverse(node: (H, H) -> H, height: nat, pos: nat, bu: nat, hu: nat, matches: seq<H>, indices: seq<nat>)
      returns (w: Walk<H>)
      ensures w == Onto(Traverse(node, total, AllBits(flags), hashes, height, pos, bu, hu), matches, indices)
      decreases height
    {
      hide Width, AllBits, FlagBit, Traverse, Join;
      ghost var bits := AllBits(flags);
      if bu >= |flags| * 8 {
        TraverseClosed(node, total, bits, hashes, height, pos, bu, hu);
        return Fail;
      }
      var parent := FlagBit(flags, bu);
      if height == 0 || !parent {
        TraverseClosed(node, total, bits, hashes, height, pos, bu, hu);
        if hu >= |hashes| {
          return Fail;
        }
        var hash := hashes[hu];
        if height == 0 && parent {
          return Walked(hash, bu + 1, hu + 1, matches + [hash], indices + [pos]);
        }
        assert matches + [] == matches && indices + [] == indices;
        return Walked(hash, bu + 1, hu + 1, matches, indices);
      }
      TraverseOpened(node, total, bits, hashes, height, pos, bu, hu);
      var left := TreeTraverse(node, height - 1, 2 * pos, bu + 1, hu, matches, indices);
      if left.Fail? {
        return Fail;
      }
      if 2 * pos + 1 < Width(total, height - 1) {
        var right := TreeTraverse(node, height - 1, 2 * pos + 1, left.bitsUsed, left.hashUsed,
                                  left.matches, left.indices);
        ghost var l := Traverse(node, total, bits, hashes, height - 1, 2 * pos, bu + 1, hu);
        JoinOnto(node, l, Traverse(node, total, bits, hashes, height - 1, 2 * pos + 1, l.bitsUsed, l.hashUsed),
                 matches, indices);
        if right.Fail? || right.root == left.root {
          return Fail;
        }
        return right.(root := node(left.root, right.root));
      }
      return left.(root := node(left.root, left.root));
    }

    /** `btc_merkleblock_extract`. */
    method Extract(node: (H, H) -> H) returns (w: Walk<H>)
      ensures w == Extracted(node, total, hashes, flags)
    {
      hide Width, Traverse, HeightFrom, AllBits, FlagBit;
      if total == 0 || total > MAX_BLOCK_SIZE / 60 {
        return Fail;
      }
      if |hashes| > total || |flags| * 8 < |hashes| {
        return Fail;
      }
      var height := FindHeight();
      w := TreeTraverse(node, height, 0, 0, 0, [], []);
      if w.Fail? || (w.bitsUsed + 7) / 8 != |flags| || w.hashUsed != |hashes| {
        return Fail;
      }
      ghost var t := Traverse(node, total, AllBits(flags), hashes, height, 0, 0, 0);
      assert [] + t.matches == t.matches && [] + t.indices == t.indices;
    }
  }

  /** One block sent and verified: the verifier gets the root and the matches that were asked for. */
  method SendAndVerify<H(==,!new)>(node: (H, H) -> H, leaves: seq<H>, matches: seq<bool>) returns (w: Walk<H>)
    requires Injective(node) && Distinct(leaves) && |matches| == |leaves|
    requires 0 < |leaves| <= MAX_BLOCK_SIZE / 60
    ensures w.Walked? && w.root == FullRoot(node, leaves)
    ensures w.indices == Matched(matches, 0, |leaves|) && w.matches == LeavesAt(leaves, w.indices)
  {
    hide Width, Injective, Distinct, Build, Holds, Extracted, HeightFrom, FullRoot, Matched;
    var tree := new Tree<H>();
    tree.SetMatches(node, leaves, matches);
    RoundTrip(node, leaves, matches, tree.flags);
    w := tree.Extract(node);
  }
}
