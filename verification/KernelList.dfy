/**
 * The intrusive, circular, doubly linked kernel list (list.c): items on the
 * heap, a sentinel that marks the end, and a roving index.
 */
module KernelList {
  import opened Sequences
  import opened SortedItems

  class ListItem {
    var value: int
    var next: ListItem?
    var previous: ListItem?
    var owner: nat
    var container: List?

    /** vListInitialiseItem: a fresh item is on no list. */
    constructor (owner: nat, value: int)
      ensures container == null && this.owner == owner && this.value == value
    {
      this.owner, this.value := owner, value;
      next, previous, container := null, null, null;
    }
  }

  ghost predicate Apart(c: seq<ListItem>, i: int, j: int)
    requires 0 <= i < |c| && 0 <= j < |c|
  {
    c[i] != c[j]
  }

  /** A walk from the sentinel through every item once and back to the sentinel. */
  ghost predicate Cycle(c: seq<ListItem>) {
    && |c| >= 2 && c[0] == c[|c| - 1]
    && forall i, j {:trigger Apart(c, i, j)} | 0 <= i < j < |c| - 1 :: Apart(c, i, j)
  }

  ghost predicate NextLinks(c: seq<ListItem>)
    reads c
  {
    forall i {:trigger c[i].next} | 0 <= i < |c| - 1 :: c[i].next == c[i + 1]
  }

  ghost predicate PreviousLinks(c: seq<ListItem>)
    reads c
  {
    forall i {:trigger c[i].previous} | 0 < i < |c| :: c[i].previous == c[i - 1]
  }

  lemma SplicedCycle(c: seq<ListItem>, k: nat, x: ListItem)
    requires Cycle(c) && 0 < k < |c| && x !in c
    ensures Cycle(InsertAt(c, k, x))
  {
    var d := InsertAt(c, k, x);
    forall i, j | 0 <= i < j < |d| - 1 ensures Apart(d, i, j) {
      if i != k && j != k {
        assert Apart(c, if i < k then i else i - 1, if j < k then j else j - 1);
      }
    }
  }

  lemma UnlinkedCycle(c: seq<ListItem>, k: nat)
    requires Cycle(c) && 0 < k < |c| - 1
    ensures Cycle(RemoveAt(c, k))
  {
    var d := RemoveAt(c, k);
    forall i, j | 0 <= i < j < |d| - 1 ensures Apart(d, i, j) {
      assert Apart(c, if i < k then i else i + 1, if j < k then j else j + 1);
    }
  }

  /** An item other than the sentinel stands in one place of the cycle. */
  lemma OnePlace(c: seq<ListItem>, k: nat)
    requires Cycle(c) && k < |c|
    ensures k < |c| - 1 ==> forall i | 0 <= i < |c| - 1 && i != k :: c[i] != c[k]
    ensures 0 < k ==> forall i | 0 < i < |c| && i != k :: c[i] != c[k]
  {
    forall i | 0 <= i < |c| && i != k ensures (0 < i && 0 < k) || (i < |c| - 1 && k < |c| - 1) ==> c[i] != c[k] {
      var a, b := if i == |c| - 1 then 0 else i, if k == |c| - 1 then 0 else k;
      if a < b { assert Apart(c, a, b); } else if b < a { assert Apart(c, b, a); }
    }
  }

  /** The four pointer writes shared by both insertions: x goes just before `successor`. */
  method Link(x: ListItem, successor: ListItem, ghost c: seq<ListItem>, ghost k: nat)
    requires Cycle(c) && NextLinks(c) && PreviousLinks(c)
    requires 0 < k < |c| && c[k] == successor && x !in c
    modifies c`next, c`previous, x`next, x`previous
    ensures NextLinks(InsertAt(c, k, x)) && PreviousLinks(InsertAt(c, k, x))
  {
    OnePlace(c, k - 1);
    OnePlace(c, k);
    assert successor.previous == c[k - 1];
    x.next := successor;
    x.previous := successor.previous;
    successor.previous.next := x;
    successor.previous := x;
    ghost var d := InsertAt(c, k, x);
    assert forall i | 0 <= i < |c| - 1 && i != k - 1 :: c[i].next == c[i + 1];
    assert forall i | 0 < i < |c| && i != k :: c[i].previous == c[i - 1];
  }

  /** The two pointer writes of a removal. */
  method Unlink(x: ListItem, ghost c: seq<ListItem>, ghost k: nat)
    requires Cycle(c) && NextLinks(c) && PreviousLinks(c)
    requires 0 < k < |c| - 1 && c[k] == x
    modifies c`next, c`previous
    ensures NextLinks(RemoveAt(c, k)) && PreviousLinks(RemoveAt(c, k))
  {
    OnePlace(c, k - 1);
    OnePlace(c, k + 1);
    assert x.next == c[k + 1] && x.previous == c[k - 1];
    x.next.previous := x.previous;
    x.previous.next := x.next;
    ghost var d := RemoveAt(c, k);
    assert forall i | 0 <= i < |c| - 1 && i != k - 1 && i != k :: c[i].next == c[i + 1];
    assert forall i | 0 < i < |c| && i != k && i != k + 1 :: c[i].previous == c[i - 1];
  }

  /** The values of the items of a cycle, without the sentinel's. */
  ghost function ItemValues(c: seq<ListItem>): (vs: seq<int>)
    reads c
    requires |c| >= 2
    ensures |vs| == |c| - 2 && forall i {:trigger vs[i]} | 0 <= i < |vs| :: vs[i] == c[i + 1].value
  {
    seq(|c| - 2, i requires 0 <= i < |c| - 2 reads c => c[i + 1].value)
  }

  /** Splicing items where vListInsert does keeps their values in order. */
  lemma {:induction false} SplicedInOrder(c: seq<ListItem>, x: ListItem)
    requires |c| >= 2 && Ascending(ItemValues(c))
    ensures Ascending(ItemValues(InsertAt(c, 1 + Position(ItemValues(c), x.value), x)))
  {
    var k := Position(ItemValues(c), x.value);
    InsertKeepsAscending(ItemValues(c), x.value);
    assert ItemValues(InsertAt(c, 1 + k, x)) == InsertAt(ItemValues(c), k, x.value);
  }

  /** The items of a cycle as the value-level view of the list has them. */
  ghost function Entries(c: seq<ListItem>): (s: seq<Item>)
    reads c
    requires |c| >= 2
    ensures |s| == |c| - 2 && forall i {:trigger s[i]} | 0 <= i < |s| :: s[i] == Item(c[i + 1].owner, c[i + 1].value)
  {
    seq(|c| - 2, i requires 0 <= i < |c| - 2 reads c => Item(c[i + 1].owner, c[i + 1].value))
  }

  /** The pointer-level splice and removal are those of the value-level view. */
  lemma {:induction false} SpliceRefines(c: seq<ListItem>, x: ListItem)
    requires |c| >= 2
    ensures Entries(InsertAt(c, 1 + Position(ItemValues(c), x.value), x)) == SortedItems.Insert(Entries(c), Item(x.owner, x.value))
  {
    assert Values(Entries(c)) == ItemValues(c);
    var k := Position(ItemValues(c), x.value);
    assert Entries(InsertAt(c, 1 + k, x)) == InsertAt(Entries(c), k, Item(x.owner, x.value));
  }

  lemma OwnedOnce(s: seq<Item>, k: nat)
    requires Sorted(s) && k < |s|
    ensures IndexOf(s, s[k].owner) == k
  {
    forall i | 0 <= i < k ensures s[i].owner != s[k].owner { assert InOrder(s, i, k); }
  }

  lemma {:induction false} RemovalRefines(c: seq<ListItem>, k: nat)
    requires |c| >= 2 && 0 < k < |c| - 1 && Sorted(Entries(c))
    ensures Entries(RemoveAt(c, k)) == SortedItems.Remove(Entries(c), c[k].owner)
  {
    var s := Entries(c);
    OwnedOnce(s, k - 1);
    assert Entries(RemoveAt(c, k)) == RemoveAt(s, k - 1);
  }

  class List {
    const maxDelay: int
    const end: ListItem
    var numberOfItems: int
    var index: ListItem

    // The cycle through the links, from the sentinel back to the sentinel.
    ghost var cycle: seq<ListItem>
    // Where on the cycle the roving index stands; 0 is the sentinel.
    ghost var position: nat

    /** The links form one cycle through the sentinel and exactly the counted items. */
    ghost predicate Valid()
      reads this, cycle
    {
      && Cycle(cycle) && cycle[0] == end
      && |cycle| == numberOfItems + 2
      && NextLinks(cycle) && PreviousLinks(cycle)
      && position < |cycle| - 1 && index == cycle[position]
      && end.value == maxDelay
      && Contained(cycle)
    }

    /** Every item of the cycle names this list as its container. */
    ghost predicate Contained(c: seq<ListItem>)
      reads c
    {
      && (forall i {:trigger c[i].container} | 1 <= i < |c| - 1 :: c[i].container == this)
      && (forall i {:trigger c[i].value} | 1 <= i < |c| - 1 :: c[i].value <= maxDelay)
    }

    /** vListInitialise. */
    constructor (maxDelay: int)
      ensures Valid() && cycle == [end, end] && index == end && fresh(end) && this.maxDelay == maxDelay
    {
      this.maxDelay := maxDelay;
      var e := new ListItem(0, maxDelay);
      end := e;
      index := e;
      numberOfItems := 0;
      cycle, position := [e, e], 0;
      new;
      end.next, end.previous := end, end;
    }

    /**
     * The part both insertions share: links the item in front of `successor`,
     * records the container and counts the item.
     */
    method Splice(x: ListItem, successor: ListItem, ghost k: nat)
      requires Valid() && x !in cycle && x.value <= maxDelay
      requires 0 < k < |cycle| && cycle[k] == successor
      modifies `numberOfItems, `cycle, `position, cycle`next, cycle`previous, x`next, x`previous, x`container
      ensures Valid() && cycle == InsertAt(old(cycle), k, x)
      ensures position == if old(position) < k then old(position) else old(position) + 1
    {
      ghost var c := cycle;
      Link(x, successor, c, k);
      x.container := this;
      numberOfItems := numberOfItems + 1;
      cycle := InsertAt(c, k, x);
      position := if position < k then position else position + 1;
      SplicedCycle(c, k, x);
    }

    /**
     * vListInsertEnd: places the item just before the roving index, so it is
     * the last one that the walk of listGET_OWNER_OF_NEXT_ENTRY reaches.
     */
    method InsertEnd(x: ListItem)
      requires Valid() && x !in cycle && x.value <= maxDelay
      modifies `numberOfItems, `cycle, `position, cycle`next, cycle`previous, x`next, x`previous, x`container
      ensures Valid()
      ensures cycle == InsertAt(old(cycle), if old(position) == 0 then |old(cycle)| - 1 else old(position), x)
      ensures position == if old(position) == 0 then 0 else old(position) + 1
    {
      Splice(x, index, if position == 0 then |cycle| - 1 else position);
    }

    /**
     * The search of vListInsert: walks from the sentinel to the predecessor of
     * the splice position.  The sentinel's value stops the walk, and the one
     * value that it would not stop goes straight to the back.
     */
    method FindPredecessor(v: int) returns (it: ListItem, ghost k: nat)
      requires Valid() && v <= maxDelay
      ensures k == Position(ItemValues(cycle), v) && it == cycle[Position(ItemValues(cycle), v)]
      ensures k < |cycle| - 1 && it.next == cycle[k + 1]
    {
      ghost var vs := ItemValues(cycle);
      if v == maxDelay {
        k := |cycle| - 2;
        assert cycle[k + 1].previous == cycle[k];
        it := end.previous;
      } else {
        it := end;
        k := 0;
        while it.next.value <= v
          invariant 0 <= k < |cycle| - 1 && it == cycle[k]
          invariant forall i | 0 <= i < k :: vs[i] <= v
          decreases |cycle| - k
        {
          assert it.next == cycle[k + 1];
          assert k + 1 < |cycle| - 1;
          assert vs[k] == it.next.value;
          it := it.next;
          k := k + 1;
        }
        assert it.next == cycle[k + 1];
      }
      PositionUnique(vs, v, k);
    }

    /** The body of vListInsert: finds the place and splices there. */
    method SpliceInOrder(x: ListItem)
      requires Valid() && x !in cycle && x.value <= maxDelay
      modifies `numberOfItems, `cycle, `position, cycle`next, cycle`previous, x`next, x`previous, x`container
      ensures Valid() && cycle == InsertAt(old(cycle), 1 + old(Position(ItemValues(cycle), x.value)), x)
    {
      hide Cycle, NextLinks, PreviousLinks, Contained, InsertAt, Position;
      var it, k := FindPredecessor(x.value);
      Splice(x, it.next, k + 1);
    }

    /**
     * vListInsert: keeps value order, and puts the item after its equals; so it
     * does on the list what SortedItems.Insert does on its value-level view.
     */
    method Insert(x: ListItem)
      requires Valid() && x !in cycle && x.value <= maxDelay
      modifies `numberOfItems, `cycle, `position, cycle`next, cycle`previous, x`next, x`previous, x`container
      ensures Valid()
      ensures cycle == InsertAt(old(cycle), 1 + old(Position(ItemValues(cycle), x.value)), x)
      ensures old(Ascending(ItemValues(cycle))) ==> Ascending(ItemValues(cycle))
      ensures Entries(cycle) == SortedItems.Insert(old(Entries(cycle)), Item(x.owner, x.value))
    {
      hide Cycle, NextLinks, PreviousLinks, Contained, InsertAt, Position, SortedItems.Insert, Ascending;
      ghost var c, vs, es := cycle, ItemValues(cycle), Entries(cycle);
      SpliceInOrder(x);
      assert ItemValues(c) == vs;
      assert Entries(c) == es;
      SpliceRefines(c, x);
      if Ascending(vs) { SplicedInOrder(c, x); }
    }

    /**
     * The pointer work of uxListRemove: unlinks exactly this item; an index that
     * pointed at it steps back to its predecessor.
     */
    method Detach(x: ListItem) returns (n: int, ghost k: nat)
      requires Valid() && x in cycle && x != end
      modifies `numberOfItems, `index, `cycle, `position, cycle`next, cycle`previous, x`container
      ensures Valid() && x.container == null && n == numberOfItems == old(numberOfItems) - 1
      ensures 0 < k < |old(cycle)| - 1 && old(cycle)[k] == x && cycle == RemoveAt(old(cycle), k)
      ensures position == if k <= old(position) then old(position) - 1 else old(position)
    {
      ghost var c := cycle;
      k :| 0 < k < |c| - 1 && c[k] == x;
      assert x.previous == c[k - 1];
      OnePlace(c, k);
      assert index == x <==> position == k;
      var predecessor := x.previous;
      Unlink(x, c, k);
      if index == x {
        index := predecessor;
      }
      x.container := null;
      numberOfItems := numberOfItems - 1;
      cycle := RemoveAt(c, k);
      position := if k <= position then position - 1 else position;
      UnlinkedCycle(c, k);
      n := numberOfItems;
    }

    /** uxListRemove; in a list in which nobody owns two items, it does what SortedItems.Remove does. */
    method Remove(x: ListItem) returns (n: int, ghost k: nat)
      requires Valid() && x in cycle && x != end
      modifies `numberOfItems, `index, `cycle, `position, cycle`next, cycle`previous, x`container
      ensures Valid() && x.container == null && n == numberOfItems == old(numberOfItems) - 1
      ensures 0 < k < |old(cycle)| - 1 && old(cycle)[k] == x && cycle == RemoveAt(old(cycle), k)
      ensures position == if k <= old(position) then old(position) - 1 else old(position)
      ensures old(Sorted(Entries(cycle))) ==> Entries(cycle) == SortedItems.Remove(old(Entries(cycle)), x.owner)
    {
      hide Cycle, NextLinks, PreviousLinks, Contained, RemoveAt, SortedItems.Remove, Sorted;
      ghost var c, es := cycle, Entries(cycle);
      n, k := Detach(x);
      assert Entries(c) == es;
      if Sorted(es) { RemovalRefines(c, k); }
    }

    /** listGET_OWNER_OF_NEXT_ENTRY: steps the index on, skipping the sentinel. */
    method NextOwner() returns (owner: nat)
      requires Valid() && numberOfItems > 0
      modifies `index, `position
      ensures Valid() && position == NextPosition(old(position), numberOfItems)
      ensures owner == cycle[position].owner
    {
      assert index.next == cycle[position + 1];
      index := index.next;
      position := if position + 2 == |cycle| then 0 else position + 1;
      OnePlace(cycle, 0);
      if index == end {
        assert position == 0 && end.next == cycle[1];
        index := end.next;
        position := 1;
      }
      owner := index.owner;
    }
  }

  /** One step of the walk over a list of n items; position 0 is the sentinel. */
  function NextPosition(p: nat, n: nat): nat {
    if p >= n then 1 else p + 1
  }

  /** Where the walk stands after k steps. */
  function Walk(p: nat, n: nat, k: nat): nat {
    if k == 0 then p else NextPosition(Walk(p, n, k - 1), n)
  }

  lemma {:induction false} WalkPosition(p: nat, n: nat, k: nat)
    requires p <= n && 0 < k <= n
    ensures Walk(p, n, k) == if p + k <= n then p + k else p + k - n
  {
    if k > 1 {
      WalkPosition(p, n, k - 1);
    } else {
      assert Walk(p, n, 0) == p;
    }
  }

  /** Equal turns: n steps from anywhere visit each of the n items exactly once. */
  lemma {:induction false} WalkVisitsEachOnce(p: nat, n: nat, target: nat)
    requires p <= n && 1 <= target <= n
    ensures exists k | 1 <= k <= n :: Walk(p, n, k) == target
    ensures forall j, k | 1 <= j <= n && 1 <= k <= n && Walk(p, n, j) == target && Walk(p, n, k) == target :: j == k
  {
    var m := if p < target then target - p else target - p + n;
    WalkPosition(p, n, m);
    assert Walk(p, n, m) == target;
    forall k | 1 <= k <= n && Walk(p, n, k) == target
      ensures k == m
    {
      WalkPosition(p, n, k);
    }
  }

  /**
   * An item put in by vListInsertEnd is reached after every other item, save
   * the one the index stands on, whose turn is the current one.
   */
  lemma {:induction false} InsertedAtEndComesLast(p: nat, n: nat, k: nat)
    requires p <= n && 1 <= k <= n + 1
    ensures var inserted, q := if p == 0 then n + 1 else p, if p == 0 then 0 else p + 1;
      Walk(q, n + 1, k) == inserted <==> k == if p == 0 then n + 1 else n
  {
    var q := if p == 0 then 0 else p + 1;
    WalkPosition(q, n + 1, k);
  }
}
