/**
 * Ring indexes (circular_index.c): the write index takes a value outside of
 * the ring, the capacity, when the ring is full, so that full and empty differ.
 */
module RingIndexes {
  import opened Arithmetic

  const INDEX_RANGE: nat := 0x1_0000_0000     // RAM_RING_INDEX_T has 32 bits

  /** ramRingGetSize. */
  function SizeOf(capacity: nat, start: nat, end: nat): (size: nat)
    requires start < capacity && end <= capacity
    ensures size <= capacity
    ensures size == 0 <==> end == start
    ensures size == capacity <==> end == capacity
  {
    if end == capacity then capacity
    else if end >= start then end - start
    else (capacity - start) + end
  }

  /** The slot that is written next; the oldest one if the ring is full. */
  function WriteSlot(capacity: nat, start: nat, end: nat): (slot: nat)
    requires start < capacity && end <= capacity
    ensures slot < capacity && slot == Wrap(start + SizeOf(capacity, start, end), capacity)
  {
    if end == capacity then start else end
  }

  /** Index arithmetic: the sum is made in 32 bits. */
  function Advance(index: nat, toAdd: nat, capacity: nat): (next: nat)
    requires 0 < capacity
    ensures next < capacity
  {
    ((index + toAdd) % INDEX_RANGE) % capacity
  }

  /** An index that stays below the range of its type advances around the ring. */
  lemma AdvanceWraps(index: nat, toAdd: nat, capacity: nat)
    requires index < capacity < INDEX_RANGE && toAdd <= capacity
    ensures Advance(index, toAdd, capacity) == Wrap(index + toAdd, capacity) <==> index + toAdd < INDEX_RANGE
  {
    var sum := index + toAdd;
    if sum < INDEX_RANGE {
      assert sum % INDEX_RANGE == sum;
      BelowTwice(sum, capacity);
    } else {
      assert sum % INDEX_RANGE == sum - INDEX_RANGE;
      BelowTwice(sum - INDEX_RANGE, capacity);
    }
  }

  lemma BelowTwice(sum: nat, capacity: nat)
    requires sum < 2 * capacity
    ensures sum % capacity == Wrap(sum, capacity)
  {
    if sum >= capacity {
      assert sum % capacity == (sum - capacity) % capacity;
    }
  }

  function EndAfterAdd(capacity: nat, start: nat, end: nat, toAdd: nat): (r: nat)
    requires start < capacity && end <= capacity
    ensures r <= capacity
  {
    if toAdd == 0 then end
    else if Advance(end, toAdd, capacity) == start then capacity
    else Advance(end, toAdd, capacity)
  }

  /** Adding to the write index grows the ring by just that much, if and only if the 32-bit sum does not wrap. */
  lemma AddGrowsIff(capacity: nat, start: nat, end: nat, toAdd: nat)
    requires start < capacity < INDEX_RANGE && end <= capacity && toAdd <= capacity - SizeOf(capacity, start, end)
    ensures
      var size := SizeOf(capacity, start, end);
      SizeOf(capacity, start, EndAfterAdd(capacity, start, end, toAdd)) == size + toAdd
      <==> toAdd == 0 || end + toAdd < INDEX_RANGE
  {
    if toAdd > 0 {
      AdvanceWraps(end, toAdd, capacity);
    }
  }

  /** The write index after a full ring has been made usable again: it is where the oldest item was. */
  function EndBeforeRead(capacity: nat, start: nat, end: nat, toAdd: nat): (r: nat)
    requires start < capacity && end <= capacity
    ensures r <= capacity
  {
    if toAdd > 0 && end == capacity then start else end
  }

  function StartAfterAdd(capacity: nat, start: nat, toAdd: nat): (r: nat)
    requires start < capacity
    ensures r < capacity
  {
    if toAdd == 0 then start else Advance(start, toAdd, capacity)
  }

  /** Adding to the read index shrinks the ring by just that much, even from full to empty, unless the sum wraps. */
  lemma AddShrinksIff(capacity: nat, start: nat, end: nat, toAdd: nat)
    requires start < capacity < INDEX_RANGE && end <= capacity && toAdd <= SizeOf(capacity, start, end)
    ensures
      SizeOf(capacity, StartAfterAdd(capacity, start, toAdd), EndBeforeRead(capacity, start, end, toAdd))
        == SizeOf(capacity, start, end) - toAdd
      <==> toAdd == 0 || start + toAdd < INDEX_RANGE
  {
    if toAdd > 0 {
      AdvanceWraps(start, toAdd, capacity);
    }
  }

  /** The n slots from `start` on. */
  function SlotsFrom(capacity: nat, start: nat, n: nat): (slots: seq<int>)
    requires start < capacity
    ensures |slots| == n && forall i {:trigger slots[i]} | 0 <= i < n :: slots[i] == Wrap(start + i, capacity)
  {
    seq(n, i requires 0 <= i < n => Wrap(start + i, capacity))
  }

  /** Starting n slots later drops the first n. */
  lemma SlotsLater(capacity: nat, start: nat, size: nat, n: nat)
    requires start < capacity && n <= size <= capacity
    ensures SlotsFrom(capacity, Wrap(start + n, capacity), size - n) == SlotsFrom(capacity, start, size)[n..]
    ensures n == 0 ==> SlotsFrom(capacity, start, size) == SlotsFrom(capacity, start, size)[n..]
  {
  }

  /** Only a ring of more than half the index range can miscount, as this one does. */
  lemma HugeRingMiscounts()
    ensures
      var capacity, place, toAdd := 0xF000_0000, 0xE000_0000, 0x3000_0000;
      && SizeOf(capacity, place, place) == 0
      && SizeOf(capacity, place, EndAfterAdd(capacity, place, place, toAdd)) == 0x2000_0000
  {
  }

  lemma OrdinaryRingsCount(capacity: nat, index: nat, toAdd: nat)
    requires index <= capacity <= INDEX_RANGE / 2 && toAdd <= capacity && (index == capacity ==> toAdd < capacity)
    ensures index + toAdd < INDEX_RANGE
  {
  }

  class Ring {
    const offset: nat
    const capacity: nat
    var start: nat
    var end: nat

    predicate Valid()
      reads this
    {
      start < capacity < INDEX_RANGE && end <= capacity
    }

    function Size(): nat
      reads this
      requires Valid()
    {
      SizeOf(capacity, start, end)
    }

    /** The slots that hold items, oldest first. */
    ghost function Slots(): (slots: seq<int>)
      reads this
      requires Valid()
      ensures |slots| == Size()
    {
      SlotsFrom(capacity, start, Size())
    }

    /** ramRingReset, on a new object. */
    constructor (offset: nat, capacity: nat)
      requires 0 < capacity < INDEX_RANGE
      ensures Valid() && Slots() == [] && this.capacity == capacity && this.offset == offset
    {
      this.offset, this.capacity, start, end := offset, capacity, 0, 0;
    }

    method Reset()
      requires Valid()
      modifies this
      ensures Valid() && Slots() == []
    {
      start := 0;
      end := 0;
    }

    method IsFull() returns (r: bool)
      requires Valid()
      ensures r <==> |Slots()| == capacity
    {
      r := end == capacity;
    }

    method IsEmpty() returns (r: bool)
      requires Valid()
      ensures r <==> Slots() == []
    {
      r := end == start;
    }

    method GetRemainingCapacity() returns (r: nat)
      requires Valid()
      ensures |Slots()| + r == capacity
    {
      r := capacity - SizeOf(capacity, start, end);
    }

    /** ramRingGetReadIndex: where the oldest item lies in the memory. */
    method GetReadIndex() returns (r: nat)
      requires Valid()
      ensures offset <= r < offset + capacity
      ensures Slots() != [] ==> r == offset + Slots()[0]
    {
      r := start + offset;
    }

    /** ramRingGetWriteIndex: where the next item would lie, that is, behind the newest one. */
    method GetWriteIndex() returns (r: nat)
      requires Valid()
      ensures offset <= r < offset + capacity
      ensures Slots() == [] ==> r == offset + start
      ensures Slots() != [] ==> r == offset + Wrap(Slots()[|Slots()| - 1] + 1, capacity)
      ensures |Slots()| == capacity <==> Slots() != [] && r == offset + Slots()[0]
    {
      if end == capacity {
        return start + offset;
      }
      r := end + offset;
    }

    /** ramRingGetUpperReadSize: how far the items go on from the oldest one without a break. */
    method GetUpperReadSize() returns (r: nat)
      requires Valid()
      ensures 1 <= r <= capacity
      ensures forall i | 0 <= i < |Slots()| && i < r :: Slots()[i] == Slots()[0] + i
      ensures r < |Slots()| ==> Slots()[r] == 0
      ensures (if Slots() == [] then start else Slots()[0]) + r == capacity
    {
      r := capacity - start;
    }

    /** ramRingGetUpperWriteSize: how far the memory goes on from the place behind the newest item. */
    method GetUpperWriteSize() returns (r: nat)
      requires Valid()
      ensures 1 <= r <= capacity
      ensures Slots() == [] ==> start + r == capacity
      ensures Slots() != [] ==> Wrap(Slots()[|Slots()| - 1] + 1, capacity) + r == capacity
    {
      if end == capacity {
        return capacity - start;
      }
      r := capacity - end;
    }

    /** ramRingAddToWriteIndex. */
    method AddToWriteIndex(toAdd: nat)
      requires Valid() && toAdd <= capacity - Size()
      modifies `end
      ensures Valid()
      ensures |Slots()| == |old(Slots())| + toAdd <==> toAdd == 0 || old(end) + toAdd < INDEX_RANGE
      ensures |Slots()| == |old(Slots())| + toAdd ==> old(Slots()) <= Slots()
    {
      AddGrowsIff(capacity, start, end, toAdd);
      if toAdd == 0 {
        return;
      }
      end := Advance(end, toAdd, capacity);
      if end == start {
        end := capacity;
      }
    }

    /** ramRingAddToReadIndex. */
    method AddToReadIndex(toAdd: nat)
      requires Valid() && toAdd <= Size()
      modifies `start, `end
      ensures Valid()
      ensures Slots() == old(Slots())[toAdd..] <==> toAdd == 0 || old(start) + toAdd < INDEX_RANGE
    {
      AddShrinksIff(capacity, start, end, toAdd);
      AdvanceWraps(start, toAdd, capacity);
      SlotsLater(capacity, start, Size(), toAdd);
      if toAdd == 0 {
        return;
      }
      if end == capacity {
        end := start;
      }
      start := Advance(start, toAdd, capacity);
    }
  }
}
