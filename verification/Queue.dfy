/**
 * The queue object of queue.c: a circular byte buffer that is a double-ended
 * queue of items, with the lock counters and waiting lists of the wake-up
 * protocol.
 */
module Queue {
  import opened Arithmetic
  import opened QueueProtocol
  import opened Rings

  datatype Position = Back | Front | Overwrite

  /** A slot lies inside the storage, and different slots do not overlap. */
  lemma SlotPlaces(k: nat, j: nat, n: nat, size: nat)
    requires k < n && j < n
    ensures 0 <= k * size && k * size + size <= n * size
    ensures k < j ==> k * size + size <= j * size
    ensures (k + 1) * size == k * size + size
    ensures k > 0 ==> (k - 1) * size == k * size - size
  {
    ProductStep(k, size);
    ProductMonotone(0, k, size);
    ProductMonotone(k + 1, n, size);
    if k < j { ProductMonotone(k + 1, j, size); }
  }

  ghost predicate StoredAt(item: seq<byte>, bytes: seq<byte>, place: int, size: nat) {
    0 <= place <= place + size <= |bytes| && |item| == size && bytes[place..place + size] == item
  }

  /** The bytes hold the slots one after the other. */
  ghost predicate Stored(slots: seq<seq<byte>>, bytes: seq<byte>, size: nat) {
    && |bytes| == |slots| * size
    && forall k | 0 <= k < |slots| :: StoredAt(slots[k], bytes, k * size, size)
  }

  /** Writing one slot's bytes stores that slot and leaves the others. */
  lemma SlotWritten(slots: seq<seq<byte>>, before: seq<byte>, after: seq<byte>, size: nat, k: nat, item: seq<byte>)
    requires Stored(slots, before, size) && k < |slots| && |item| == size && |after| == |before|
    requires forall i | 0 <= i < |after| :: after[i] == if k * size <= i < k * size + size then item[i - k * size] else before[i]
    ensures Stored(slots[k := item], after, size)
  {
    var s := slots[k := item];
    forall j | 0 <= j < |s| ensures StoredAt(s[j], after, j * size, size) {
      SlotPlaces(j, k, |slots|, size);
      SlotPlaces(k, j, |slots|, size);
      assert StoredAt(slots[j], before, j * size, size);
      if j != k {
        assert after[j * size..j * size + size] == before[j * size..j * size + size];
      } else {
        assert after[j * size..j * size + size] == item;
      }
    }
  }

  /** A semaphore's items are all empty. */
  lemma EmptyItems(slots: seq<seq<byte>>, bytes: seq<byte>, h: nat, n: nat)
    requires Stored(slots, bytes, 0) && h < |slots|
    ensures n < |slots| ==> Window(slots, h, n + 1) == Window(slots, h, n) + [[]]
    ensures n < |slots| ==> Window(slots, h, n + 1) == [[]] + Window(slots, h, n)
    ensures 0 < n <= |slots| ==> Window(slots, h, n) == [[]] + Window(slots, h, n - 1)
  {
    forall k | 0 <= k < |slots| ensures slots[k] == [] { assert StoredAt(slots[k], bytes, k * 0, 0); }
  }

  class Queue {
    const storage: array<byte>          // pcHead up to pcTail
    const length: nat                   // uxLength
    const itemSize: nat                 // uxItemSize; 0 for a semaphore
    var writeTo: int                    // pcWriteTo, as an offset
    var readFrom: int                   // pcReadFrom, as an offset
    var messagesWaiting: nat
    var rx: seq<nat>                    // xTasksWaitingToReceive
    var tx: seq<nat>                    // xTasksWaitingToSend
    var rxLock: int
    var txLock: int

    ghost var slots: seq<seq<byte>>     // the storage, item by item
    ghost var head: nat                 // the slot of the oldest item
    ghost var wokenRx: set<nat>
    ghost var wokenTx: set<nat>

    ghost predicate Valid()
      reads this, storage
    {
      && 0 < length == |slots| && head < length && messagesWaiting <= length
      && storage.Length == length * itemSize && Stored(slots, storage[..], itemSize)
      && (itemSize > 0 ==>
            && readFrom == (if head == 0 then length - 1 else head - 1) * itemSize
            && writeTo == Wrap(head + messagesWaiting, length) * itemSize)
    }

    /** The items of the queue, oldest first. */
    ghost function Contents(): (s: seq<seq<byte>>)
      reads this, storage
      requires Valid()
      ensures |s| == messagesWaiting
    {
      Window(slots, head, messagesWaiting)
    }

    ghost function Ctl(): Control
      reads this
    {
      Control(length, messagesWaiting, rx, tx, rxLock, txLock, wokenRx, wokenTx)
    }

    /** xQueueGenericReset on a new queue. */
    constructor (length: nat, itemSize: nat)
      requires 0 < length
      ensures Valid() && Contents() == [] && this.length == length && this.itemSize == itemSize && fresh(storage)
      ensures Ctl() == Control(length, 0, [], [], UNLOCKED, UNLOCKED, {}, {})
    {
      this.length, this.itemSize := length, itemSize;
      storage := new byte[length * itemSize](_ => 0);
      writeTo, readFrom := 0, (length - 1) * itemSize;
      messagesWaiting, rx, tx, rxLock, txLock := 0, [], [], UNLOCKED, UNLOCKED;
      head, wokenRx, wokenTx := 0, {}, {};
      slots := seq(length, _ => seq(itemSize, _ => 0));
      new;
      forall k | 0 <= k < length ensures StoredAt(slots[k], storage[..], k * itemSize, itemSize) {
        SlotPlaces(k, k, length, itemSize);
      }
    }

    /** memcpy of an item into slot k. */
    method WriteSlot(offset: int, item: seq<byte>, ghost k: nat)
      requires storage.Length == |slots| * itemSize && Stored(slots, storage[..], itemSize)
      requires k < |slots| && offset == k * itemSize && |item| == itemSize
      modifies storage, `slots
      ensures slots == old(slots)[k := item] && Stored(slots, storage[..], itemSize)
    {
      hide Stored;
      SlotPlaces(k, k, |slots|, itemSize);
      ghost var before := storage[..];
      var i := 0;
      while i < itemSize
        invariant 0 <= i <= itemSize && slots == old(slots)
        invariant forall j | 0 <= j < storage.Length :: storage[j] == if offset <= j < offset + i then item[j - offset] else before[j]
      {
        storage[offset + i] := item[i];
        i := i + 1;
      }
      SlotWritten(slots, before, storage[..], itemSize, k, item);
      slots := slots[k := item];
    }

    /** The branch of prvCopyDataToQueue that writes behind the newest item. */
    method CopyToBack(item: seq<byte>)
      requires Valid() && |item| == itemSize && 0 < itemSize && messagesWaiting < length
      modifies `writeTo, `slots, `messagesWaiting, storage
      ensures Valid() && messagesWaiting == old(messagesWaiting) + 1 && Contents() == old(Contents()) + [item]
    {
      hide Stored, Window;
      ghost var k := Wrap(head + messagesWaiting, length);
      WriteSlot(writeTo, item, k);
      WindowBack(old(slots), head, messagesWaiting, item);
      SlotPlaces(k, k, length, itemSize);
      writeTo := writeTo + itemSize;
      if writeTo >= length * itemSize {
        writeTo := 0;
      }
      if k + 1 < length { SlotPlaces(k + 1, k + 1, length, itemSize); }
      messagesWaiting := messagesWaiting + 1;
    }

    /** The branch that writes before the oldest item; overwriting does not count a new item. */
    method CopyToFront(item: seq<byte>, overwrite: bool)
      requires Valid() && |item| == itemSize && 0 < itemSize
      requires if overwrite then length == 1 else messagesWaiting < length
      modifies `readFrom, `slots, `messagesWaiting, `head, storage
      ensures Valid()
      ensures messagesWaiting == if overwrite && old(messagesWaiting) > 0 then old(messagesWaiting) else old(messagesWaiting) + 1
      ensures Contents() == if overwrite then [item] else [item] + old(Contents())
    {
      hide Stored;
      ghost var k := if head == 0 then length - 1 else head - 1;
      WriteSlot(readFrom, item, k);
      if !overwrite { WindowFront(old(slots), head, messagesWaiting, item); }
      SlotPlaces(k, k, length, itemSize);
      readFrom := readFrom - itemSize;
      if readFrom < 0 {
        readFrom := length * itemSize - itemSize;
      }
      if k > 0 { SlotPlaces(k - 1, k, length, itemSize); }
      SlotPlaces(length - 1, k, length, itemSize);
      head := k;
      var waiting := messagesWaiting;
      if overwrite && waiting > 0 {
        waiting := waiting - 1;
      }
      messagesWaiting := waiting + 1;
    }

    /**
     * prvCopyDataToQueue: to the back appends, to the front prepends, and
     * overwriting the item of a queue of length one replaces it.  A semaphore
     * has items of size zero; it is only ever given to the back.
     */
    method CopyDataToQueue(item: seq<byte>, position: Position)
      requires Valid() && |item| == itemSize
      requires if position == Overwrite then length == 1 && 0 < itemSize else messagesWaiting < length
      modifies `writeTo, `readFrom, `messagesWaiting, `slots, `head, storage
      ensures Valid()
      ensures messagesWaiting == CountAfterSend(old(Ctl()), position == Overwrite)
      ensures Contents() == match position
        case Back => old(Contents()) + [item]
        case Front => [item] + old(Contents())
        case Overwrite => [item]
    {
      hide Stored;
      if itemSize == 0 {
        EmptyItems(slots, storage[..], head, messagesWaiting);
        messagesWaiting := messagesWaiting + 1;
        assert item == [];
      } else if position == Back {
        CopyToBack(item);
      } else {
        CopyToFront(item, position == Overwrite);
      }
    }

    /**
     * prvCopyDataFromQueue: advances the read position and copies the oldest
     * item out of it; it does not change how many items the queue counts.
     */
    method CopyDataFromQueue() returns (item: seq<byte>)
      requires Valid() && messagesWaiting > 0
      modifies `readFrom
      ensures item == old(Contents()[0])
      ensures readFrom == if itemSize > 0 then head * itemSize else old(readFrom)
    {
      item := [];
      ghost var p := if head == 0 then length - 1 else head - 1;
      SlotPlaces(p, p, length, itemSize);
      SlotPlaces(head, head, length, itemSize);
      assert StoredAt(slots[head], storage[..], head * itemSize, itemSize);
      if itemSize != 0 {
        readFrom := readFrom + itemSize;
        if readFrom >= length * itemSize {
          readFrom := 0;
        }
        item := storage[readFrom..readFrom + itemSize];
      }
    }

    /** The tail of a receive: the copied item no longer counts. */
    method CountReceived()
      requires 0 < length == |slots| && head < length && 0 < messagesWaiting <= length
      requires storage.Length == length * itemSize && Stored(slots, storage[..], itemSize)
      requires itemSize > 0 ==> readFrom == head * itemSize && writeTo == Wrap(head + messagesWaiting, length) * itemSize
      modifies `messagesWaiting, `head
      ensures Valid() && messagesWaiting == old(messagesWaiting) - 1
      ensures Contents() == old(Window(slots, head, messagesWaiting))[1..]
    {
      hide Stored;
      WindowPop(slots, head, messagesWaiting);
      head := Wrap(head + 1, length);
      messagesWaiting := messagesWaiting - 1;
    }

    /** xTaskRemoveFromEventList on xTasksWaitingToReceive, if somebody waits there. */
    method WakeWaitingReceiver()
      modifies `rx, `wokenRx
      ensures Ctl() == WakeReceiver(old(Ctl()))
    {
      if rx != [] {
        wokenRx := wokenRx + {rx[0]};
        rx := rx[1..];
      }
    }

    method WakeWaitingSender()
      modifies `tx, `wokenTx
      ensures Ctl() == WakeSender(old(Ctl()))
    {
      if tx != [] {
        wokenTx := wokenTx + {tx[0]};
        tx := tx[1..];
      }
    }

    /** The critical section of xQueueGenericSend, run by task t. */
    method TrySend(item: seq<byte>, position: Position, ghost t: nat) returns (sent: bool)
      requires Valid() && |item| == itemSize
      requires position == Overwrite ==> length == 1 && 0 < itemSize
      modifies `writeTo, `readFrom, `messagesWaiting, `slots, `head, `rx, `wokenRx, `wokenTx, storage
      ensures Valid()
      ensures sent <==> old(messagesWaiting) < length || position == Overwrite
      ensures !sent ==> Contents() == old(Contents())
      ensures sent ==> Contents() == match position
        case Back => old(Contents()) + [item]
        case Front => [item] + old(Contents())
        case Overwrite => [item]
      ensures sent ==> Ctl() == TaskSend(old(Ctl()), t, position == Overwrite)
      ensures !sent ==> Ctl() == old(Ctl()).(wokenTx := old(wokenTx) - {t})
    {
      hide Stored, Window;
      sent := messagesWaiting < length || position == Overwrite;
      if sent {
        CopyDataToQueue(item, position);
        wokenTx := if position == Overwrite then wokenTx else wokenTx - {t};
        WakeWaitingReceiver();
      } else {
        wokenTx := wokenTx - {t};
      }
    }

    /** The critical section of xQueueReceive, run by task t: takes the oldest item, if there is one. */
    method TryReceive(ghost t: nat) returns (received: bool, item: seq<byte>)
      requires Valid()
      modifies `readFrom, `messagesWaiting, `head, `tx, `wokenTx, `wokenRx
      ensures Valid()
      ensures received <==> old(messagesWaiting) > 0
      ensures received ==> old(Contents()) == [item] + Contents() && Ctl() == TaskReceive(old(Ctl()), t)
      ensures !received ==> Contents() == old(Contents()) && Ctl() == old(Ctl()).(wokenRx := old(wokenRx) - {t})
    {
      hide Stored, Window;
      received, item := messagesWaiting > 0, [];
      if received {
        item := CopyDataFromQueue();
        CountReceived();
        wokenRx := wokenRx - {t};
        WakeWaitingSender();
      } else {
        wokenRx := wokenRx - {t};
      }
    }

    /**
     * The critical section of xQueuePeek, run by task t: reads the oldest item,
     * puts the read position back, and wakes the next reader of the same item.
     */
    method TryPeek(ghost t: nat) returns (peeked: bool, item: seq<byte>)
      requires Valid()
      modifies `readFrom, `rx, `wokenRx
      ensures Valid() && Contents() == old(Contents())
      ensures peeked <==> old(messagesWaiting) > 0
      ensures peeked ==> item == Contents()[0] && Ctl() == TaskPeek(old(Ctl()), t)
      ensures !peeked ==> Ctl() == old(Ctl()).(wokenRx := old(wokenRx) - {t})
    {
      hide Stored, Window;
      peeked, item := messagesWaiting > 0, [];
      wokenRx := wokenRx - {t};
      if peeked {
        var originalReadPosition := readFrom;
        item := CopyDataFromQueue();
        readFrom := originalReadPosition;
        WakeWaitingReceiver();
      }
    }

    /** xQueueGenericSendFromISR; the counter is a signed byte, and nothing here stops it from wrapping. */
    method SendFromIsr(item: seq<byte>, position: Position) returns (sent: bool)
      requires Valid() && |item| == itemSize && -128 <= txLock <= INT8_MAX
      requires position == Overwrite ==> length == 1 && 0 < itemSize
      modifies `writeTo, `readFrom, `messagesWaiting, `slots, `head, `rx, `txLock, `wokenRx, storage
      ensures Valid() && -128 <= txLock <= INT8_MAX
      ensures sent <==> old(messagesWaiting) < length || position == Overwrite
      ensures !sent ==> Contents() == old(Contents())
      ensures sent ==> Contents() == match position
        case Back => old(Contents()) + [item]
        case Front => [item] + old(Contents())
        case Overwrite => [item]
      ensures Ctl() == if sent then IsrSend(old(Ctl()), position == Overwrite) else old(Ctl())
    {
      hide Stored, Window, WakeReceiver;
      sent := messagesWaiting < length || position == Overwrite;
      if sent {
        var lock := txLock;
        CopyDataToQueue(item, position);
        if lock == UNLOCKED {
          WakeWaitingReceiver();
        } else {
          txLock := if lock == INT8_MAX then -128 else lock + 1;
        }
      }
    }

    /** xQueueReceiveFromISR. */
    method ReceiveFromIsr() returns (received: bool, item: seq<byte>)
      requires Valid() && -128 <= rxLock <= INT8_MAX
      modifies `readFrom, `messagesWaiting, `head, `tx, `rxLock, `wokenTx
      ensures Valid() && -128 <= rxLock <= INT8_MAX
      ensures received <==> old(messagesWaiting) > 0
      ensures received ==> old(Contents()) == [item] + Contents() && Ctl() == IsrReceive(old(Ctl()))
      ensures !received ==> Contents() == old(Contents()) && Ctl() == old(Ctl())
    {
      hide Stored, Window;
      received, item := messagesWaiting > 0, [];
      if received {
        var lock := rxLock;
        item := CopyDataFromQueue();
        CountReceived();
        if lock == UNLOCKED {
          WakeWaitingSender();
        } else {
          rxLock := if lock == INT8_MAX then -128 else lock + 1;
        }
      }
    }

    /** prvLockQueue. */
    method LockQueue()
      modifies `rxLock, `txLock
      ensures Ctl() == Lock(old(Ctl()))
    {
      if rxLock == UNLOCKED {
        rxLock := LOCKED_UNMODIFIED;
      }
      if txLock == UNLOCKED {
        txLock := LOCKED_UNMODIFIED;
      }
    }

    /** The first critical section of prvUnlockQueue: one receiver is woken for each send the lock counted. */
    method UnlockSending()
      modifies `rx, `txLock, `wokenRx
      ensures Ctl() == UnlockTx(old(Ctl()))
    {
      var lock := txLock;
      while lock > LOCKED_UNMODIFIED
        invariant txLock == old(txLock)
        invariant UnlockTx(Ctl().(txLock := lock)) == UnlockTx(old(Ctl()))
        decreases lock
      {
        if rx == [] {
          break;
        }
        WakeWaitingReceiver();
        lock := lock - 1;
      }
      txLock := UNLOCKED;
    }

    /** The second critical section of prvUnlockQueue. */
    method UnlockReceiving()
      modifies `tx, `rxLock, `wokenTx
      ensures Ctl() == UnlockRx(old(Ctl()))
    {
      var lock := rxLock;
      while lock > LOCKED_UNMODIFIED
        invariant rxLock == old(rxLock)
        invariant UnlockRx(Ctl().(rxLock := lock)) == UnlockRx(old(Ctl()))
        decreases lock
      {
        if tx == [] {
          break;
        }
        WakeWaitingSender();
        lock := lock - 1;
      }
      rxLock := UNLOCKED;
    }
  }
}
