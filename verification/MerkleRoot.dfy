/** The merkle root, row by row and in place, and what its test for repeated nodes is for. */
module MerkleRoot {
  import opened Arith
  import opened Sequences
  import opened MerkleBlock

  /** The row above: neighbours are hashed together, the last of an odd row with itself. */
  function Above<H>(node: (H, H) -> H, row: seq<H>): (r: seq<H>)
    ensures |r| == (|row| + 1) / 2
    ensures forall i :: 0 <= i < |r| ==> r[i] == Parent(node, row, i)
  {
    seq((|row| + 1) / 2, i requires 0 <= i < (|row| + 1) / 2 => Parent(node, row, i))
  }

  function Parent<H>(node: (H, H) -> H, row: seq<H>, i: nat): (h: H)
    requires 2 * i < |row|
  {
    node(row[2 * i], row[if 2 * i + 1 < |row| then 2 * i + 1 else 2 * i])
  }

  function RowRoot<H>(node: (H, H) -> H, row: seq<H>): (h: H)
    requires row != []
    decreases |row|
  {
    if |row| == 1 then row[0] else RowRoot(node, Above(node, row))
  }

  /** Some row ends in two equal nodes. */
  predicate Repeats<H(==)>(node: (H, H) -> H, row: seq<H>)
    decreases |row|
  {
    |row| > 1 && (EndsInPair(row) || Repeats(node, Above(node, row)))
  }

  predicate EndsInPair<H(==)>(row: seq<H>)
    requires |row| > 1
  {
    |row| % 2 == 0 && row[|row| - 2] == row[|row| - 1]
  }

  // ----- the same root as that of the tree

  lemma WidthAbove(total: nat, height: nat)
    ensures Width(total, height + 1) == Width((total + 1) / 2, height)
  {
    hide Width;
    var p := Pow(2, height);
    assert Pow(2, height + 1) == 2 * p;
    var a, b := Width(total, height + 1), Width((total + 1) / 2, height);
    if a < b {
      WidthMeaning(total, height + 1, a);
      WidthMeaning((total + 1) / 2, height, a);
      DoubledProduct(a, p);
    } else if b < a {
      WidthMeaning(total, height + 1, b);
      WidthMeaning((total + 1) / 2, height, b);
      DoubledProduct(b, p);
    }
  }

  lemma DoubledProduct(a: nat, p: nat)
    ensures a * (2 * p) == 2 * (a * p)
  {}

  lemma {:induction false} HashAbove<H>(node: (H, H) -> H, row: seq<H>, height: nat, pos: nat)
    requires pos < Width(|row|, height + 1)
    ensures pos < Width((|row| + 1) / 2, height)
    ensures TreeHash(node, row, height + 1, pos) == TreeHash(node, Above(node, row), height, pos)
    decreases height
  {
    hide Width, TreeHash;
    WidthAbove(|row|, height);
    InnerHash(node, row, height + 1, pos);
    if height == 0 {
      LeafSpan((|row| + 1) / 2, pos);
      LeafHash(node, Above(node, row), pos);
      LeafSpan(|row|, 2 * pos);
      LeafHash(node, row, 2 * pos);
      WidthMeaning(|row|, 0, 2 * pos + 1);
      if 2 * pos + 1 < |row| { LeafHash(node, row, 2 * pos + 1); }
    } else {
      WidthAbove(|row|, height - 1);
      InnerHash(node, Above(node, row), height, pos);
      HashAbove(node, row, height - 1, 2 * pos);
      if 2 * pos + 1 < Width(|row|, height) { HashAbove(node, row, height - 1, 2 * pos + 1); }
    }
  }

  lemma {:induction false} HeightAbove(total: nat, height: nat)
    requires total > 1
    ensures HeightFrom(total, height + 1) == HeightFrom((total + 1) / 2, height) + 1
    decreases total - height
  {
    hide Width;
    WidthAbove(total, height);
    if Width((total + 1) / 2, height) > 1 {
      TallEnough((total + 1) / 2, height);
      HeightAbove(total, height + 1);
    }
  }

  lemma FirstRow(total: nat)
    ensures Width(total, 0) == total
  {}

  /** The root computed row by row is the root of the tree that merkle blocks prove against. */
  lemma {:induction false} RootIsTreeRoot<H>(node: (H, H) -> H, row: seq<H>)
    requires row != []
    ensures RowRoot(node, row) == FullRoot(node, row)
    decreases |row|
  {
    hide Width, TreeHash;
    RootSpan(|row|, 0);
    FirstRow(|row|);
    if |row| == 1 {
      LeafHash(node, row, 0);
    } else {
      var up := Above(node, row);
      RootIsTreeRoot(node, up);
      RootSpan(|up|, 0);
      HeightAbove(|row|, 0);
      HashAbove(node, row, HeightFrom(|up|, 0), 0);
    }
  }

  // ----- repeated nodes

  /** A row of different nodes, with a hash that tells pairs apart, is never suspected. */
  lemma {:induction false} DistinctClear<H(!new)>(node: (H, H) -> H, row: seq<H>)
    requires Injective(node) && Distinct(row)
    ensures !Repeats(node, row)
    decreases |row|
  {
    if |row| > 1 {
      var up := Above(node, row);
      forall i, j | 0 <= i < j < |up| ensures up[i] != up[j] {
        assert row[2 * i] != row[2 * j];
      }
      DistinctClear(node, up);
      assert row[|row| - 2] != row[|row| - 1];
    }
  }

  /** How many rows there are above the first. */
  function Rows(size: nat): (n: nat)
    decreases size
  {
    if size <= 1 then 0 else 1 + Rows((size + 1) / 2)
  }

  /** Some row of more than two nodes ends in two equal ones. */
  predicate Shared<H(==)>(node: (H, H) -> H, row: seq<H>)
    decreases |row|
  {
    |row| > 2 && (EndsInPair(row) || Shared(node, Above(node, row)))
  }

  lemma {:induction false} SharedRepeats<H>(node: (H, H) -> H, row: seq<H>)
    requires Shared(node, row)
    ensures Repeats(node, row)
    decreases |row|
  {
    if !EndsInPair(row) { SharedRepeats(node, Above(node, row)); }
  }

  lemma SameParents<H(!new)>(node: (H, H) -> H, s: seq<H>, t: seq<H>)
    requires Injective(node) && |s| > 1 && |t| > 1 && |s| <= |t| && Above(node, s) == Above(node, t)
    requires |t| > 2 ==> !EndsInPair(t)
    ensures s == t
  {
    var n := |Above(node, s)|;
    forall i | 0 <= i < n
      ensures s[2 * i] == t[2 * i]
      ensures s[if 2 * i + 1 < |s| then 2 * i + 1 else 2 * i] == t[if 2 * i + 1 < |t| then 2 * i + 1 else 2 * i]
    {
      assert Parent(node, s, i) == Above(node, s)[i] == Above(node, t)[i] == Parent(node, t, i);
    }
    var last := n - 1;
    assert s[2 * last] == t[2 * last];
    forall k | 0 <= k < |s| ensures s[k] == t[k] {
      assert k == 2 * (k / 2) || k == 2 * (k / 2) + 1;
      assert k / 2 < n;
    }
  }

  /** Among the lists with as many rows and no such ending, the root determines the list. */
  lemma {:induction false} RootDetermines<H(!new)>(node: (H, H) -> H, s: seq<H>, t: seq<H>)
    requires Injective(node) && s != [] && t != [] && Rows(|s|) == Rows(|t|)
    requires !Shared(node, s) && !Shared(node, t) && RowRoot(node, s) == RowRoot(node, t)
    ensures s == t
    decreases |s|
  {
    if |s| == 1 {
      assert |t| == 1;
    } else {
      RootDetermines(node, Above(node, s), Above(node, t));
      if |s| <= |t| { SameParents(node, s, t); } else { SameParents(node, t, s); }
    }
  }

  lemma AbovePrefix<H>(node: (H, H) -> H, row: seq<H>, m: nat)
    requires 2 * m <= |row|
    ensures Above(node, row[..2 * m]) == Above(node, row)[..m]
  {
    forall i | 0 <= i < m ensures Parent(node, row[..2 * m], i) == Parent(node, row, i) {}
  }

  lemma AboveWithout<H>(node: (H, H) -> H, row: seq<H>)
    requires |row| > 1 && EndsInPair(row)
    ensures Above(node, row[..|row| - 1]) == Above(node, row)
  {
    var n := |row|;
    var cut := row[..n - 1];
    forall i | 0 <= i < n / 2 ensures Parent(node, cut, i) == Parent(node, row, i) {
      assert i == n / 2 - 1 ==> 2 * i == n - 2;
    }
  }

  /** A list with such an ending shares its root with a shorter one, cut from it. */
  lemma {:induction false} RootShared<H>(node: (H, H) -> H, row: seq<H>) returns (k: nat)
    requires Shared(node, row)
    ensures 0 < k < |row| && Rows(k) == Rows(|row|) && RowRoot(node, row[..k]) == RowRoot(node, row)
    decreases |row|
  {
    if EndsInPair(row) {
      k := |row| - 1;
      AboveWithout(node, row);
    } else {
      var m := RootShared(node, Above(node, row));
      k := 2 * m;
      AbovePrefix(node, row, m);
    }
  }

  /** Another list with as many rows has the same root. */
  ghost predicate Ambiguous<H(!new)>(node: (H, H) -> H, row: seq<H>)
    requires row != []
  {
    exists s :: Doubles(node, row, s)
  }

  ghost predicate Doubles<H>(node: (H, H) -> H, row: seq<H>, s: seq<H>)
    requires row != []
  {
    s != [] && s != row && Rows(|s|) == Rows(|row|) && RowRoot(node, s) == RowRoot(node, row)
  }

  /** What the test is for: of two lists with as many rows and the same root, one is suspected; and but for
      two equal nodes right below the root, a suspected list has such a double. */
  lemma SuspectsExactly<H(!new)>(node: (H, H) -> H, row: seq<H>)
    requires Injective(node) && row != []
    ensures Shared(node, row) ==> Repeats(node, row) && Ambiguous(node, row)
    ensures forall s :: Doubles(node, row, s) ==> Shared(node, row) || Shared(node, s)
  {
    hide Rows, RowRoot, Shared, Repeats, Injective;
    if Shared(node, row) {
      SharedRepeats(node, row);
      var k := RootShared(node, row);
      assert Doubles(node, row, row[..k]);
    }
    forall s | Doubles(node, row, s) ensures Shared(node, row) || Shared(node, s) {
      if !Shared(node, row) && !Shared(node, s) { RootDetermines(node, row, s); }
    }
  }

  /** Two equal leaves are suspected, though no other pair has their root. */
  lemma FalseAlarm<H(!new)>(node: (H, H) -> H, x: H, s: seq<H>)
    requires Injective(node)
    ensures Repeats(node, [x, x]) && !Doubles(node, [x, x], s)
  {
    hide Rows, RowRoot;
    TwoRows(|s|);
    if Doubles(node, [x, x], s) { RootDetermines(node, [x, x], s); }
  }

  lemma TwoRows(size: nat)
    ensures Rows(2) == 1 && (Rows(size) == 1 ==> size == 2)
  {
    assert Rows(1) == 0;
    if size > 2 { assert Rows((size + 1) / 2) >= 1; }
  }

  // ----- the loops

  /** `btc_merkle_root`: the root, and whether nothing was suspected. Rows overwrite each other. */
  method ComputeRoot<H(==,!new)>(node: (H, H) -> H, zero: H, nodes: array<H>) returns (root: H, ok: bool)
    modifies nodes
    ensures nodes.Length == 0 ==> root == zero && ok
    ensures nodes.Length > 0 ==> root == RowRoot(node, old(nodes[..])) && ok == !Repeats(node, old(nodes[..]))
  {
    hide Parent;
    var size := nodes.Length;
    if size == 0 {
      return zero, true;
    }
    var malleated := false;
    ghost var leaves := nodes[..];
    assert nodes[..size] == leaves;
    while size > 1
      invariant 1 <= size <= nodes.Length
      invariant RowRoot(node, nodes[..size]) == RowRoot(node, leaves)
      invariant malleated || Repeats(node, nodes[..size]) <==> Repeats(node, leaves)
      decreases size
    {
      var pair := ReplaceRow(node, nodes, size);
      malleated := malleated || pair;
      size := (size + 1) / 2;
    }
    root := nodes[0];
    ok := !malleated;
  }

  /** One row. */
  method ReplaceRow<H(==)>(node: (H, H) -> H, nodes: array<H>, size: nat) returns (pair: bool)
    requires 1 < size <= nodes.Length
    modifies nodes
    ensures nodes[..(size + 1) / 2] == Above(node, old(nodes[..size])) && pair == EndsInPair(old(nodes[..size]))
  {
    ghost var row := nodes[..size];
    pair := false;
    var i := 0;
    while i < size
      invariant 0 <= i <= size + 1 && i % 2 == 0
      invariant forall k :: i <= k < size ==> nodes[k] == row[k]
      invariant forall k :: 0 <= k < i / 2 ==> nodes[k] == Parent(node, row, k)
      invariant pair == (i >= size && EndsInPair(row))
    {
      var left := nodes[i];
      var right := left;
      if i + 1 < size {
        right := nodes[i + 1];
        if i + 2 == size && left == right {
          pair := true;
        }
      }
      nodes[i / 2] := node(left, right);
      i := i + 2;
    }
  }
}
