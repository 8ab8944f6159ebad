/** A binary heap kept in a vector, ordered by a comparator. */
module Heap {

  type Less<!T> = (T, T) -> bool

  predicate Leq<T>(less: Less<T>, x: T, y: T) {
    !less(y, x)
  }

  /** What the operations ask of a comparator: it orders all elements, ties allowed. */
  ghost predicate TotalPreorder<T(!new)>(less: Less<T>) {
    && (forall x, y :: Leq(less, x, y) || Leq(less, y, x))
    && (forall x, y, z :: Leq(less, x, y) && Leq(less, y, z) ==> Leq(less, x, z))
  }

  lemma LeqTotal<T(!new)>(less: Less<T>, x: T, y: T)
    requires TotalPreorder(less)
    ensures Leq(less, x, y) || Leq(less, y, x)
  {}

  lemma LeqTrans<T(!new)>(less: Less<T>, x: T, y: T, z: T)
    requires TotalPreorder(less) && Leq(less, x, y) && Leq(less, y, z)
    ensures Leq(less, x, z)
  {}

  function Parent(k: nat): (p: nat)
    requires k > 0
    ensures p < k && (k == 2 * p + 1 || k == 2 * p + 2)
  {
    (k - 1) / 2
  }

  /** `k` is not before its parent, when that parent is at `lo` or later. */
  predicate Ordered<T>(less: Less<T>, a: seq<T>, lo: nat, k: int)
    requires k < |a|
  {
    k > 0 && Parent(k) >= lo ==> Leq(less, a[Parent(k)], a[k])
  }

  /** The first `n` elements, from `lo` down, are a heap. */
  ghost predicate HeapFrom<T>(less: Less<T>, a: seq<T>, n: nat, lo: nat)
    requires n <= |a|
  {
    forall k :: 0 <= k < n ==> Ordered(less, a, lo, k)
  }

  ghost predicate IsHeap<T>(less: Less<T>, a: seq<T>) {
    HeapFrom(less, a, |a|, 0)
  }

  /** Children of `i` are not before the parent of `i`. */
  ghost predicate Bridged<T>(less: Less<T>, a: seq<T>, n: nat, lo: nat, i: nat)
    requires n <= |a|
  {
    forall k :: 0 < k < n && Parent(k) == i ==> BridgedAt(less, a, lo, i, k)
  }

  predicate BridgedAt<T>(less: Less<T>, a: seq<T>, lo: nat, i: nat, k: nat)
    requires i <= k < |a|
  {
    i > 0 && Parent(i) >= lo ==> Leq(less, a[Parent(i)], a[k])
  }

  /** A heap but for the element at `i`, whose neighbours are in order among themselves. */
  ghost predicate Hole<T>(less: Less<T>, a: seq<T>, n: nat, lo: nat, i: nat)
    requires n <= |a|
  {
    && (forall k :: 0 <= k < n && k != i && !(k > 0 && Parent(k) == i) ==> Ordered(less, a, lo, k))
    && Bridged(less, a, n, lo, i)
  }

  function Swapped<T>(a: seq<T>, i: nat, j: nat): (b: seq<T>)
    requires i < |a| && j < |a|
    ensures |b| == |a|
  {
    a[i := a[j]][j := a[i]]
  }

  lemma SwappedPermutes<T>(a: seq<T>, i: nat, j: nat)
    requires i < |a| && j < |a|
    ensures multiset(Swapped(a, i, j)) == multiset(a)
  {
    assert multiset(a[i := a[j]]) == multiset(a) - multiset{a[i]} + multiset{a[j]};
    assert multiset(Swapped(a, i, j)) == multiset(a[i := a[j]]) - multiset{a[i := a[j]][j]} + multiset{a[i]};
  }

  /** The smaller of the children of `i`. */
  ghost predicate SmallerChild<T>(less: Less<T>, a: seq<T>, n: nat, i: nat, j: nat)
    requires n <= |a|
  {
    && i < j < n && Parent(j) == i
    && forall k :: 0 < k < n && Parent(k) == i ==> Leq(less, a[j], a[k])
  }

  /** One step down: the smaller child comes up, and the hole moves to where it was. */
  lemma StepDown<T(!new)>(less: Less<T>, a: seq<T>, n: nat, lo: nat, i: nat, j: nat)
    requires TotalPreorder(less) && n <= |a| && lo <= i && Hole(less, a, n, lo, i)
    requires SmallerChild(less, a, n, i, j) && less(a[j], a[i])
    ensures var b := Swapped(a, i, j); Hole(less, b, n, lo, j) && Ordered(less, b, lo, i) && Ordered(less, b, lo, j)
  {
    hide TotalPreorder, Leq;
    var b := Swapped(a, i, j);
    assert BridgedAt(less, a, lo, i, j);
    assert Leq(less, a[j], a[i]) by { LessLeq(less, a[j], a[i]); }
    forall k | 0 <= k < n && k != j && !(k > 0 && Parent(k) == j) ensures Ordered(less, b, lo, k) {
      if k > 0 && Parent(k) == i {
        assert Leq(less, a[j], a[k]);
      } else if k != i {
        assert Ordered(less, a, lo, k);
      }
    }
    forall k | 0 < k < n && Parent(k) == j ensures BridgedAt(less, b, lo, j, k) {
      assert Ordered(less, a, lo, k);
    }
  }

  lemma LessLeq<T(!new)>(less: Less<T>, x: T, y: T)
    requires TotalPreorder(less) && less(x, y)
    ensures Leq(less, x, y)
  {
    LeqTotal(less, x, y);
  }

  /** A hole whose element is not after its children is none, except towards its parent. */
  lemma HoleClosed<T(!new)>(less: Less<T>, a: seq<T>, n: nat, lo: nat, i: nat)
    requires TotalPreorder(less) && n <= |a| && lo <= i && Hole(less, a, n, lo, i)
    requires forall k :: 0 < k < n && Parent(k) == i ==> Leq(less, a[i], a[k])
    ensures forall k :: 0 <= k < n && k != i ==> Ordered(less, a, lo, k)
  {
    hide TotalPreorder, Leq;
    forall k | 0 <= k < n && k != i ensures Ordered(less, a, lo, k) {
      if k > 0 && Parent(k) == i {
        assert Leq(less, a[i], a[k]);
      }
    }
  }

  /** In order but towards the parent, and the neighbours in order among themselves. */
  ghost predicate Rising<T>(less: Less<T>, a: seq<T>, n: nat, i: nat) {
    && i < n <= |a| && (forall k :: 0 <= k < n && k != i ==> Ordered(less, a, 0, k))
    && Bridged(less, a, n, 0, i)
  }

  /** One step up: the parent comes down. */
  lemma StepUp<T(!new)>(less: Less<T>, a: seq<T>, n: nat, i: nat)
    requires TotalPreorder(less) && Rising(less, a, n, i) && i > 0 && less(a[i], a[Parent(i)])
    ensures Rising(less, Swapped(a, Parent(i), i), n, Parent(i))
  {
    hide TotalPreorder, Leq;
    var j := Parent(i);
    var b := Swapped(a, j, i);
    assert Leq(less, a[i], a[j]) by { LessLeq(less, a[i], a[j]); }
    forall k | 0 <= k < n && k != j ensures Ordered(less, b, 0, k) {
      if k > 0 && Parent(k) == i {
        assert BridgedAt(less, a, 0, i, k);
      } else if k > 0 && Parent(k) == j && k != i {
        assert Ordered(less, a, 0, k);
        LeqTrans(less, a[i], a[j], a[k]);
      } else if k != i {
        assert Ordered(less, a, 0, k);
      }
    }
    forall k | 0 < k < n && Parent(k) == j ensures BridgedAt(less, b, 0, j, k) {
      if j > 0 {
        assert Ordered(less, a, 0, j);
        if k != i {
          assert Ordered(less, a, 0, k);
          LeqTrans(less, a[Parent(j)], a[j], a[k]);
        }
      }
    }
  }

  lemma RisingDone<T(!new)>(less: Less<T>, a: seq<T>, n: nat, i: nat)
    requires Rising(less, a, n, i) && (i == 0 || !less(a[i], a[Parent(i)]))
    ensures HeapFrom(less, a, n, 0)
  {}

  /** The root of a heap comes before everything in it. */
  lemma {:induction false} RootLeast<T(!new)>(less: Less<T>, a: seq<T>, k: nat)
    requires TotalPreorder(less) && IsHeap(less, a) && k < |a|
    ensures Leq(less, a[0], a[k])
  {
    if k == 0 {
      LeqTotal(less, a[0], a[0]);
    } else {
      RootLeast(less, a, Parent(k));
      assert Ordered(less, a, 0, k);
      LeqTrans(less, a[0], a[Parent(k)], a[k]);
    }
  }

  class Vector<!T(!new)> {
    var items: seq<T>

    constructor ()
      ensures items == []
    {
      items := [];
    }

    method Swap(i: nat, j: nat)
      requires i < |items| && j < |items|
      modifies this
      ensures items == Swapped(old(items), i, j) && multiset(items) == multiset(old(items))
    {
      SwappedPermutes(items, i, j);
      var x, y := items[i], items[j];
      items := items[i := y][j := x];
    }

    /** `heap_down` on the first `n` elements: fills the hole from below. */
    method Down(i0: nat, n: nat, less: Less<T>, ghost lo: nat) returns (moved: bool)
      requires TotalPreorder(less) && i0 < n <= |items| && lo <= i0 && Hole(less, items, n, lo, i0)
      modifies this
      ensures |items| == |old(items)| && items[n..] == old(items)[n..]
      ensures multiset(items) == multiset(old(items))
      ensures !moved ==> items == old(items) && forall k :: 0 <= k < n && k != i0 ==> Ordered(less, items, lo, k)
      ensures moved ==> HeapFrom(less, items, n, lo)
    {
      hide TotalPreorder, Ordered, Hole;
      var i := i0;
      while true
        invariant i0 <= i < n <= |items| == |old(items)| && items[n..] == old(items)[n..]
        invariant multiset(items) == multiset(old(items)) && Hole(less, items, n, lo, i)
        invariant i == i0 ==> items == old(items)
        invariant i > i0 ==> Ordered(less, items, lo, i)
        decreases n - i
      {
        var l := 2 * i + 1;
        if l >= n {
          break;
        }
        var j, r := l, l + 1;
        if r < n && less(items[r], items[l]) {
          j := r;
        }
        ChildChosen(less, items, n, i, j);
        if !less(items[j], items[i]) {
          NotBefore(less, items, n, i, j);
          break;
        }
        StepDown(less, items, n, lo, i, j);
        assert Swapped(items, i, j)[n..] == items[n..];
        Swap(i, j);
        i := j;
      }
      HoleClosed(less, items, n, lo, i);
      moved := i > i0;
    }

    /** `heap_up`; the first `n` elements are concerned. */
    method Up(i0: nat, less: Less<T>, ghost n: nat)
      requires TotalPreorder(less) && Rising(less, items, n, i0)
      modifies this
      ensures |items| == |old(items)| && n <= |items| && items[n..] == old(items)[n..]
      ensures multiset(items) == multiset(old(items)) && HeapFrom(less, items, n, 0)
    {
      hide TotalPreorder, Ordered, Rising, HeapFrom;
      var i: nat := i0;
      RisingRange(less, items, n, i);
      while i > 0 && less(items[i], items[(i - 1) / 2])
        invariant 0 <= i < n <= |items| == |old(items)| && items[n..] == old(items)[n..]
        invariant multiset(items) == multiset(old(items)) && Rising(less, items, n, i)
        decreases i
      {
        var j := (i - 1) / 2;
        StepUp(less, items, n, i);
        assert Swapped(items, j, i)[n..] == items[n..];
        Swap(j, i);
        i := j;
      }
      RisingDone(less, items, n, i);
    }

    /** `btc_heap_init`. */
    method Init(less: Less<T>)
      requires TotalPreorder(less)
      modifies this
      ensures IsHeap(less, items) && multiset(items) == multiset(old(items))
    {
      hide TotalPreorder, Ordered, Leq;
      var n := |items|;
      var i := n / 2 - 1;
      LeavesOrdered(less, items);
      while i >= 0
        invariant -1 <= i < n && n == |items| && multiset(items) == multiset(old(items))
        invariant HeapFrom(less, items, n, i + 1)
        decreases i
      {
        LowerHole(less, items, n, i);
        var moved := Down(i, n, less, i);
        RootOrdered(less, items, i);
        i := i - 1;
      }
    }

    /** `btc_heap_insert`. */
    method Insert(x: T, less: Less<T>)
      requires TotalPreorder(less) && IsHeap(less, items)
      modifies this
      ensures IsHeap(less, items) && multiset(items) == multiset(old(items)) + multiset{x}
    {
      PushRises(less, items, x);
      items := items + [x];
      Up(|items| - 1, less, |items|);
    }

    /** `btc_heap_shift`: takes out an element that comes before all others. */
    method Shift(less: Less<T>) returns (x: T)
      requires TotalPreorder(less) && IsHeap(less, items) && |items| > 0
      modifies this
      ensures IsHeap(less, items) && multiset(old(items)) == multiset(items) + multiset{x}
      ensures x == old(items)[0] && forall y :: y in old(items) ==> Leq(less, x, y)
    {
      forall y | y in items ensures Leq(less, items[0], y) {
        var k :| 0 <= k < |items| && items[k] == y;
        RootLeast(less, items, k);
      }
      hide TotalPreorder;
      var n := |items| - 1;
      ghost var was := items;
      Swap(0, n);
      if n > 0 {
        TopHole(less, was, n);
        var moved := Down(0, n, less, 0);
        RootOrdered(less, items, 0);
      }
      assert items[n] == items[n..][0] == was[0];
      x := items[n];
      PopHeap(less, items);
      items := items[..n];
    }

    /** `btc_heap_remove`: takes out the element at `i`. */
    method Remove(i: nat, less: Less<T>) returns (x: T)
      requires TotalPreorder(less) && IsHeap(less, items) && i < |items|
      modifies this
      ensures IsHeap(less, items) && multiset(old(items)) == multiset(items) + multiset{x} && x == old(items)[i]
    {
      hide TotalPreorder, Ordered, Hole, HeapFrom, Rising, Leq, IsHeap, Swapped;
      var n := |items| - 1;
      ghost var was := items;
      if n == i {
        PrefixHeap(less, items, n);
      } else {
        SwappedEnd(items, i);
        Swap(i, n);
        MiddleHole(less, was, i, n);
        ghost var held := items;
        var moved := Down(i, n, less, 0);
        if !moved {
          HoleRises(less, items, n, i);
          Up(i, less, n);
        }
        assert items[n] == items[n..][0] == held[n..][0];
      }
      x := items[n];
      PopHeap(less, items);
      items := items[..n];
    }

    /** `btc_heap_fix`: restores the order after the element at `i` was changed. */
    method Fix(i: nat, less: Less<T>)
      requires TotalPreorder(less) && i < |items| && Hole(less, items, |items|, 0, i)
      modifies this
      ensures IsHeap(less, items) && multiset(items) == multiset(old(items))
    {
      hide TotalPreorder;
      var moved := Down(i, |items|, less, 0);
      if !moved {
        Up(i, less, |items|);
      }
    }
  }

  // ----- steps of the operations

  lemma ChildChosen<T(!new)>(less: Less<T>, a: seq<T>, n: nat, i: nat, j: nat)
    requires TotalPreorder(less) && n <= |a| && 2 * i + 1 < n
    requires j == if 2 * i + 2 < n && less(a[2 * i + 2], a[2 * i + 1]) then 2 * i + 2 else 2 * i + 1
    ensures SmallerChild(less, a, n, i, j)
  {
    LeqTotal(less, a[j], a[j]);
    if j == 2 * i + 2 { LessLeq(less, a[j], a[2 * i + 1]); }
    hide TotalPreorder;
    forall k | 0 < k < n && Parent(k) == i ensures Leq(less, a[j], a[k]) {
      assert k == 2 * i + 1 || k == 2 * i + 2;
    }
  }

  lemma NotBefore<T(!new)>(less: Less<T>, a: seq<T>, n: nat, i: nat, j: nat)
    requires TotalPreorder(less) && n <= |a| && SmallerChild(less, a, n, i, j) && !less(a[j], a[i])
    ensures forall k :: 0 < k < n && Parent(k) == i ==> Leq(less, a[i], a[k])
  {
    hide TotalPreorder;
    forall k | 0 < k < n && Parent(k) == i ensures Leq(less, a[i], a[k]) {
      LeqTrans(less, a[i], a[j], a[k]);
    }
  }

  lemma RisingRange<T(!new)>(less: Less<T>, a: seq<T>, n: nat, i: nat)
    requires Rising(less, a, n, i)
    ensures i < n <= |a|
  {}

  lemma LeavesOrdered<T(!new)>(less: Less<T>, a: seq<T>)
    ensures HeapFrom(less, a, |a|, |a| / 2)
  {}

  lemma LowerHole<T(!new)>(less: Less<T>, a: seq<T>, n: nat, i: nat)
    requires i < n <= |a| && HeapFrom(less, a, n, i + 1)
    ensures Hole(less, a, n, i, i)
  {
    forall k | 0 <= k < n && k != i && !(k > 0 && Parent(k) == i) ensures Ordered(less, a, i, k) {
      assert Ordered(less, a, i + 1, k);
    }
  }

  lemma RootOrdered<T(!new)>(less: Less<T>, a: seq<T>, i: nat)
    requires i < |a|
    ensures Ordered(less, a, i, i)
  {}

  lemma PushRises<T(!new)>(less: Less<T>, a: seq<T>, x: T)
    requires IsHeap(less, a)
    ensures Rising(less, a + [x], |a| + 1, |a|)
  {
    var b := a + [x];
    forall k | 0 <= k < |b| && k != |a| ensures Ordered(less, b, 0, k) {
      assert Ordered(less, a, 0, k);
    }
  }

  lemma TopHole<T(!new)>(less: Less<T>, a: seq<T>, n: nat)
    requires IsHeap(less, a) && 0 < n == |a| - 1
    ensures Hole(less, Swapped(a, 0, n), n, 0, 0)
  {
    var b := Swapped(a, 0, n);
    forall k | 0 <= k < n && k != 0 && !(k > 0 && Parent(k) == 0) ensures Ordered(less, b, 0, k) {
      assert Ordered(less, a, 0, k);
    }
  }

  lemma MiddleHole<T(!new)>(less: Less<T>, a: seq<T>, i: nat, n: nat)
    requires TotalPreorder(less) && IsHeap(less, a) && i < n == |a| - 1
    ensures Hole(less, Swapped(a, i, n), n, 0, i)
  {
    hide TotalPreorder, Leq;
    var b := Swapped(a, i, n);
    forall k | 0 <= k < n && k != i && !(k > 0 && Parent(k) == i) ensures Ordered(less, b, 0, k) {
      assert Ordered(less, a, 0, k);
    }
    forall k | 0 < k < n && Parent(k) == i ensures BridgedAt(less, b, 0, i, k) {
      assert Ordered(less, a, 0, k) && Ordered(less, a, 0, i);
      if i > 0 { LeqTrans(less, a[Parent(i)], a[i], a[k]); }
    }
  }

  lemma SwappedEnd<T(!new)>(a: seq<T>, i: nat)
    requires i < |a|
    ensures Swapped(a, i, |a| - 1)[|a| - 1] == a[i]
  {}

  /** Changing one element of a heap leaves what `Fix` repairs. */
  lemma ChangedHole<T(!new)>(less: Less<T>, a: seq<T>, i: nat, x: T)
    requires TotalPreorder(less) && IsHeap(less, a) && i < |a|
    ensures Hole(less, a[i := x], |a|, 0, i)
  {
    hide TotalPreorder, Leq;
    var b := a[i := x];
    forall k | 0 <= k < |a| && k != i && !(k > 0 && Parent(k) == i) ensures Ordered(less, b, 0, k) {
      assert Ordered(less, a, 0, k);
    }
    forall k | 0 < k < |a| && Parent(k) == i ensures BridgedAt(less, b, 0, i, k) {
      assert Ordered(less, a, 0, k) && Ordered(less, a, 0, i);
      if i > 0 { LeqTrans(less, a[Parent(i)], a[i], a[k]); }
    }
  }

  /** Where nothing moved down, the element can still move up. */
  lemma HoleRises<T(!new)>(less: Less<T>, a: seq<T>, n: nat, i: nat)
    requires i < n <= |a| && Hole(less, a, n, 0, i)
    requires forall k :: 0 <= k < n && k != i ==> Ordered(less, a, 0, k)
    ensures Rising(less, a, n, i)
  {}

  lemma PopMultiset<T(!new)>(a: seq<T>)
    requires |a| > 0
    ensures multiset(a) == multiset(a[..|a| - 1]) + multiset{a[|a| - 1]}
  {
    assert a == a[..|a| - 1] + [a[|a| - 1]];
  }

  lemma PopHeap<T(!new)>(less: Less<T>, a: seq<T>)
    requires |a| > 0 && HeapFrom(less, a, |a| - 1, 0)
    ensures IsHeap(less, a[..|a| - 1]) && multiset(a) == multiset(a[..|a| - 1]) + multiset{a[|a| - 1]}
  {
    PopMultiset(a);
    var b := a[..|a| - 1];
    forall k | 0 <= k < |b| ensures Ordered(less, b, 0, k) {
      assert Ordered(less, a, 0, k);
    }
  }

  lemma PrefixHeap<T(!new)>(less: Less<T>, a: seq<T>, n: nat)
    requires IsHeap(less, a) && n <= |a|
    ensures HeapFrom(less, a, n, 0)
  {}
}
