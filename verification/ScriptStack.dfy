/** The interpreter's stack: a vector addressed from either end. */
module ScriptStack {
  import opened Wire

  type Item = seq<byte>
  type Items = seq<Item>

  predicate InRange(s: Items, index: int) {
    -|s| <= index < |s|
  }

  /** A negative index counts from the top. */
  function Place(s: Items, index: int): (k: nat)
    requires InRange(s, index)
    ensures k < |s|
  {
    if index < 0 then |s| + index else index
  }

  class Stack {
    var items: Items

    constructor (s: Items)
      ensures items == s
    {
      items := s;
    }

    method Get(index: int) returns (x: Item)
      requires InRange(items, index)
      ensures x == items[Place(items, index)]
    {
      var k := if index < 0 then index + |items| else index;
      x := items[k];
    }

    method Push(x: Item)
      modifies this
      ensures items == old(items) + [x]
    {
      items := items + [x];
    }

    method Pop() returns (x: Item)
      requires |items| > 0
      modifies this
      ensures old(items) == items + [x]
    {
      x := items[|items| - 1];
      items := items[..|items| - 1];
    }

    method Drop()
      requires |items| > 0
      modifies this
      ensures items == old(items)[..|old(items)| - 1]
    {
      items := items[..|items| - 1];
    }

    method Insert(index: int, x: Item)
      requires InRange(items, index)
      modifies this
      ensures var k := Place(old(items), index); items == old(items)[..k] + [x] + old(items)[k..]
    {
      var k := if index < 0 then index + |items| else index;
      ghost var was := items;
      items := items + [x];
      var i := |items| - 1;
      while i != k
        invariant k <= i < |items| == |was| + 1
        invariant items[..i] == was[..i] && items[i + 1..] == was[i..]
        decreases i
      {
        assert items[i - 1] == items[..i][i - 1] == was[i - 1];
        items := items[i := items[i - 1]];
        assert items[i..] == [was[i - 1]] + was[i..] == was[i - 1..];
        i := i - 1;
        assert items[..i] == was[..i];
      }
      items := items[k := x];
      assert items == items[..k] + [x] + items[k + 1..];
    }

    method Remove(index: int) returns (x: Item)
      requires InRange(items, index)
      modifies this
      ensures var k := Place(old(items), index); x == old(items)[k] && items == old(items)[..k] + old(items)[k + 1..]
    {
      var k := if index < 0 then index + |items| else index;
      ghost var was := items;
      x := items[k];
      var i := k;
      while i < |items| - 1
        invariant k <= i < |items| == |was|
        invariant items[..i] == was[..k] + was[k + 1..i + 1] && items[i + 1..] == was[i + 1..]
      {
        ghost var before := items;
        assert before[i + 1] == before[i + 1..][0] == was[i + 1];
        items := items[i := items[i + 1]];
        assert items[..i + 1] == before[..i] + [was[i + 1]];
        assert was[k + 1..i + 2] == was[k + 1..i + 1] + [was[i + 1]];
        assert items[i + 2..] == before[i + 1..][1..] == was[i + 2..];
        i := i + 1;
      }
      items := items[..|items| - 1];
    }

    /** Removes the items from `start` up to, not including, `end`. */
    method Erase(start: int, end: int)
      requires InRange(items, start) && InRange(items, end) && Place(items, start) <= Place(items, end)
      modifies this
      ensures var a, b := Place(old(items), start), Place(old(items), end);
              items == old(items)[..a] + old(items)[b..]
    {
      var a := if start < 0 then start + |items| else start;
      var b := if end < 0 then end + |items| else end;
      ghost var was := items;
      var to, i := a, b;
      while i < |items|
        invariant b <= i <= |items| == |was| && to == a + (i - b)
        invariant items[..to] == was[..a] + was[b..i] && items[i..] == was[i..]
      {
        assert items[i] == items[i..][0] == was[i];
        ghost var before := items;
        items := items[to := items[i]];
        assert items[..to + 1] == before[..to] + [was[i]];
        assert was[b..i + 1] == was[b..i] + [was[i]];
        assert items[i + 1..] == before[i..][1..] == was[i + 1..];
        to := to + 1;
        i := i + 1;
      }
      items := items[..to];
    }

    method Swap(i1: int, i2: int)
      requires InRange(items, i1) && InRange(items, i2)
      modifies this
      ensures var a, b := Place(old(items), i1), Place(old(items), i2);
              items == old(items)[a := old(items)[b]][b := old(items)[a]]
    {
      var a := if i1 < 0 then i1 + |items| else i1;
      var b := if i2 < 0 then i2 + |items| else i2;
      var v1, v2 := items[a], items[b];
      items := items[a := v2];
      items := items[b := v1];
    }
  }
}
