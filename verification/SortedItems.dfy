/**
 * The value-level view of a kernel list that is kept in item-value order.
 * KernelList proves that the pointer code of list.c computes `Position` and
 * splices there; the tick-driven modules use this view of their lists.
 */
module SortedItems {
  import opened Sequences

  // One list entry: the object that owns the item and the item's value.
  datatype Item = Item(owner: nat, value: int)

  ghost predicate Ascending(vs: seq<int>) {
    forall i, j | 0 <= i < j < |vs| :: vs[i] <= vs[j]
  }

  /** Where vListInsert splices a new value: before the first larger value. */
  function Position(vs: seq<int>, v: int): (k: nat)
    ensures k <= |vs|
    ensures forall i | 0 <= i < k :: vs[i] <= v
    ensures k < |vs| ==> v < vs[k]
  {
    if vs == [] || v < vs[0] then 0 else 1 + Position(vs[1..], v)
  }

  /** The splice position is determined by what the search promises. */
  lemma PositionUnique(vs: seq<int>, v: int, k: nat)
    requires k <= |vs|
    requires forall i | 0 <= i < k :: vs[i] <= v
    requires k < |vs| ==> v < vs[k]
    ensures Position(vs, v) == k
  {
  }

  /** A sorted splice keeps the list sorted and puts the new value after its equals. */
  lemma {:induction false} InsertKeepsAscending(vs: seq<int>, v: int)
    requires Ascending(vs)
    ensures Ascending(InsertAt(vs, Position(vs, v), v))
    ensures forall i | 0 <= i < |vs| :: vs[i] == v ==> i < Position(vs, v)
    ensures forall i | Position(vs, v) <= i < |vs| :: v < vs[i]
  {
    var k := Position(vs, v);
    assert forall i | k <= i < |vs| :: vs[k] <= vs[i];
  }

  function Values(s: seq<Item>): (vs: seq<int>)
    ensures |vs| == |s| && forall i | 0 <= i < |s| :: vs[i] == s[i].value
  {
    seq(|s|, i requires 0 <= i < |s| => s[i].value)
  }

  ghost predicate InOrder(s: seq<Item>, i: int, j: int)
    requires 0 <= i < |s| && 0 <= j < |s|
  {
    s[i].value <= s[j].value && s[i].owner != s[j].owner
  }

  /** In value order, and no owner twice. */
  ghost predicate Sorted(s: seq<Item>) {
    forall i, j {:trigger InOrder(s, i, j)} | 0 <= i < j < |s| :: InOrder(s, i, j)
  }

  ghost predicate Lacks(s: seq<Item>, o: nat) {
    forall x | x in s :: x.owner != o
  }

  /** vListInsert on values. */
  function Insert(s: seq<Item>, it: Item): (r: seq<Item>)
    ensures |r| == |s| + 1
    ensures Sorted(s) && Lacks(s, it.owner) ==> Sorted(r)
    ensures forall x :: x in r <==> x in s || x == it
  {
    var k := Position(Values(s), it.value);
    InsertMembers(s, k, it);
    assert Sorted(s) && Lacks(s, it.owner) ==> Sorted(InsertAt(s, k, it)) by {
      if Sorted(s) && Lacks(s, it.owner) { InsertSorted(s, it); }
    }
    InsertAt(s, k, it)
  }

  lemma InsertMembers(s: seq<Item>, k: nat, it: Item)
    requires k <= |s|
    ensures forall x :: x in InsertAt(s, k, it) <==> x in s || x == it
  {
    var r := InsertAt(s, k, it);
    forall x ensures x in r <==> x in s || x == it {
      if x in s {
        var i :| 0 <= i < |s| && s[i] == x;
        assert r[if i < k then i else i + 1] == x;
      }
    }
  }

  lemma InsertSorted(s: seq<Item>, it: Item)
    requires Sorted(s) && Lacks(s, it.owner)
    ensures Sorted(InsertAt(s, Position(Values(s), it.value), it))
  {
    var vs := Values(s);
    var k := Position(vs, it.value);
    var r := InsertAt(s, k, it);
    forall i, j | 0 <= i < j < |s| ensures vs[i] <= vs[j] { assert InOrder(s, i, j); }
    InsertKeepsAscending(vs, it.value);
    forall i, j | 0 <= i < j < |r| ensures InOrder(r, i, j) {
      var a, b := if i < k then i else i - 1, if j < k then j else j - 1;
      if i != k && j != k {
        assert InOrder(s, a, b);
      } else if i == k {
        assert vs[b] > it.value && s[b] in s;
      } else {
        assert vs[a] <= it.value && s[a] in s;
      }
    }
  }

  function IndexOf(s: seq<Item>, o: nat): (k: nat)
    ensures k <= |s|
    ensures forall i | 0 <= i < k :: s[i].owner != o
    ensures k < |s| ==> s[k].owner == o
  {
    if s == [] || s[0].owner == o then 0 else 1 + IndexOf(s[1..], o)
  }

  /** uxListRemove on values: drops the entry of `o`, if there is one. */
  function Remove(s: seq<Item>, o: nat): (r: seq<Item>)
    ensures Sorted(s) ==> Sorted(r)
    ensures Sorted(s) ==> forall x :: x in r <==> x in s && x.owner != o
    ensures Lacks(s, o) ==> r == s
  {
    var k := IndexOf(s, o);
    if k == |s| then
      s
    else
      assert Sorted(s) ==> Sorted(RemoveAt(s, k)) by { RemoveSorted(s, k); }
      assert Sorted(s) ==> forall x :: x in RemoveAt(s, k) <==> x in s && x.owner != o by { RemoveSorted(s, k); }
      assert s[k] in s;
      RemoveAt(s, k)
  }

  lemma RemoveSorted(s: seq<Item>, k: nat)
    requires k < |s|
    ensures Sorted(s) ==> Sorted(RemoveAt(s, k))
    ensures Sorted(s) ==> forall x :: x in RemoveAt(s, k) <==> x in s && x.owner != s[k].owner
  {
    var r := RemoveAt(s, k);
    if Sorted(s) {
      forall i, j | 0 <= i < j < |r| ensures InOrder(r, i, j) {
        assert InOrder(s, if i < k then i else i + 1, if j < k then j else j + 1);
      }
      forall i | 0 <= i < |s| && i != k ensures s[i].owner != s[k].owner {
        if i < k { assert InOrder(s, i, k); } else { assert InOrder(s, k, i); }
      }
      forall x ensures x in r <==> x in s && x.owner != s[k].owner {
        if x in s && x.owner != s[k].owner {
          var i :| 0 <= i < |s| && s[i] == x;
          assert r[if i < k then i else i - 1] == x;
        }
      }
    }
  }

  /** The head of a sorted list holds its least value; the rest is sorted without its owner. */
  lemma Head(s: seq<Item>)
    requires Sorted(s) && s != []
    ensures s[0] in s && forall x | x in s :: s[0].value <= x.value
    ensures Sorted(s[1..])
    ensures forall x :: x in s[1..] <==> x in s && x.owner != s[0].owner
  {
    var r := s[1..];
    forall i, j | 0 <= i < j < |r| ensures InOrder(r, i, j) { assert InOrder(s, i + 1, j + 1); }
    forall x | x in s ensures x == s[0] || (s[0].value <= x.value && x.owner != s[0].owner && x in r) {
      var i :| 0 <= i < |s| && s[i] == x;
      if i > 0 { assert InOrder(s, 0, i); assert r[i - 1] == x; }
    }
    forall x | x in r ensures x in s && x.owner != s[0].owner {
      var i :| 0 <= i < |r| && r[i] == x;
      assert InOrder(s, 0, i + 1);
    }
  }
}
