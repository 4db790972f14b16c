/**
 * The wake-up protocol of queue.c between tasks and interrupts.  `Control` is
 * the part of a queue that the protocol works on; every function on it is one
 * critical section.  Tasks run their blocking calls in steps between which
 * interrupts, and as far as the scheduler allows other tasks, may run.
 */
module QueueProtocol {
  import opened Arithmetic
  import opened Sequences

  const UNLOCKED := -1
  const LOCKED_UNMODIFIED := 0
  const INT8_MAX := 127

  datatype Control = Control(
    length: nat,
    count: nat,             // uxMessagesWaiting
    rx: seq<nat>,           // xTasksWaitingToReceive, next to wake first
    tx: seq<nat>,           // xTasksWaitingToSend
    rxLock: int,            // cRxLock
    txLock: int,            // cTxLock
    wokenRx: set<nat>,      // receivers taken off rx by an event that have not retried yet
    wokenTx: set<nat>)

  function WakeReceiver(c: Control): Control {
    if c.rx == [] then c else c.(rx := c.rx[1..], wokenRx := c.wokenRx + {c.rx[0]})
  }

  function WakeSender(c: Control): Control {
    if c.tx == [] then c else c.(tx := c.tx[1..], wokenTx := c.wokenTx + {c.tx[0]})
  }

  /** The item count after an item is put in; overwriting a full queue does not raise it. */
  function CountAfterSend(c: Control, overwrite: bool): nat {
    if overwrite && c.count > 0 then c.count else c.count + 1
  }

  /** The critical sections in which a task's send, receive or peek succeeds; an overwriting send never had to wait. */
  function TaskSend(c: Control, t: nat, overwrite: bool): Control {
    WakeReceiver(c.(count := CountAfterSend(c, overwrite), wokenTx := if overwrite then c.wokenTx else c.wokenTx - {t}))
  }

  function TaskReceive(c: Control, t: nat): Control
    requires c.count > 0
  {
    WakeSender(c.(count := c.count - 1, wokenRx := c.wokenRx - {t}))
  }

  function TaskPeek(c: Control, t: nat): Control {
    WakeReceiver(c.(wokenRx := c.wokenRx - {t}))
  }

  /** The lock counters are signed bytes. */
  function Increment8(n: int): int {
    if n == INT8_MAX then -128 else n + 1
  }

  function IsrSend(c: Control, overwrite: bool): Control {
    var sent := c.(count := CountAfterSend(c, overwrite));
    if c.txLock == UNLOCKED then WakeReceiver(sent) else sent.(txLock := Increment8(c.txLock))
  }

  function IsrReceive(c: Control): Control
    requires c.count > 0
  {
    var received := c.(count := c.count - 1);
    if c.rxLock == UNLOCKED then WakeSender(received) else received.(rxLock := Increment8(c.rxLock))
  }

  function Lock(c: Control): Control {
    c.(rxLock := if c.rxLock == UNLOCKED then LOCKED_UNMODIFIED else c.rxLock,
       txLock := if c.txLock == UNLOCKED then LOCKED_UNMODIFIED else c.txLock)
  }

  /** The two halves of prvUnlockQueue. */
  function UnlockTx(c: Control): Control
    decreases c.txLock
  {
    if c.txLock > LOCKED_UNMODIFIED && c.rx != [] then UnlockTx(WakeReceiver(c).(txLock := c.txLock - 1))
    else c.(txLock := UNLOCKED)
  }

  function UnlockRx(c: Control): Control
    decreases c.rxLock
  {
    if c.rxLock > LOCKED_UNMODIFIED && c.tx != [] then UnlockRx(WakeSender(c).(rxLock := c.rxLock - 1))
    else c.(rxLock := UNLOCKED)
  }

  // ---------- the invariant of the control state ----------

  /** Wake-ups that a locked queue still owes. */
  function Owed(lock: int): nat {
    if lock > 0 then lock else 0
  }

  /**
   * No wake-up is lost: while receivers wait, every item in the queue is matched
   * by a receiver that was woken and has yet to retry, or by a wake-up the lock
   * still owes; likewise free places while senders wait.
   */
  ghost predicate Sound(c: Control) {
    && c.count <= c.length
    && NoDuplicates(c.rx) && (forall t | t in c.rx :: t !in c.wokenRx)
    && NoDuplicates(c.tx) && (forall t | t in c.tx :: t !in c.wokenTx)
    && (c.rx != [] ==> c.count <= |c.wokenRx| + Owed(c.txLock))
    && (c.tx != [] ==> c.length - c.count <= |c.wokenTx| + Owed(c.rxLock))
  }

  lemma TailOf(s: seq<nat>)
    requires s != [] && NoDuplicates(s)
    ensures NoDuplicates(s[1..])
    ensures forall t :: t in s <==> t == s[0] || t in s[1..]
    ensures s[0] !in s[1..]
  {
    var r := s[1..];
    forall i, j | 0 <= i < j < |r| ensures Differ(r, i, j) { assert Differ(s, i + 1, j + 1); }
    forall i | 0 <= i < |r| ensures r[i] != s[0] { assert Differ(s, 0, i + 1); }
    assert s == [s[0]] + r;
  }

  /**
   * Each critical section wakes at most one task, the first of the list: a send
   * or peek a receiver, a receive a sender; an interrupt wakes nobody while the
   * queue is locked, but counts.
   */
  lemma WhoIsWoken(c: Control, t: nat, overwrite: bool)
    ensures var d := TaskSend(c, t, overwrite);
      FirstWoken(c.rx, d.rx, c.wokenRx, d.wokenRx) && d.tx == c.tx && d.txLock == c.txLock && d.rxLock == c.rxLock
    ensures c.count > 0 ==> var d := TaskReceive(c, t);
      FirstWoken(c.tx, d.tx, c.wokenTx, d.wokenTx) && d.rx == c.rx && d.count == c.count - 1 && d.txLock == c.txLock && d.rxLock == c.rxLock
    ensures var d := TaskPeek(c, t);
      FirstWoken(c.rx, d.rx, c.wokenRx - {t}, d.wokenRx) && d.tx == c.tx && d.count == c.count
    ensures var d := IsrSend(c, overwrite);
      && d.tx == c.tx && d.rxLock == c.rxLock && d.wokenTx == c.wokenTx
      && if c.txLock == UNLOCKED then FirstWoken(c.rx, d.rx, c.wokenRx, d.wokenRx) && d.txLock == UNLOCKED
         else d.rx == c.rx && d.wokenRx == c.wokenRx && (d.txLock == c.txLock + 1 || (c.txLock == INT8_MAX && d.txLock == c.txLock - 255))
    ensures c.count > 0 ==> var d := IsrReceive(c);
      && d.rx == c.rx && d.txLock == c.txLock && d.wokenRx == c.wokenRx && d.count == c.count - 1
      && if c.rxLock == UNLOCKED then FirstWoken(c.tx, d.tx, c.wokenTx, d.wokenTx) && d.rxLock == UNLOCKED
         else d.tx == c.tx && d.wokenTx == c.wokenTx && (d.rxLock == c.rxLock + 1 || (c.rxLock == INT8_MAX && d.rxLock == c.rxLock - 255))
  {
  }

  /** From a waiting list, its first task has been woken, if there is one. */
  ghost predicate FirstWoken(before: seq<nat>, after: seq<nat>, woken: set<nat>, wokenAfter: set<nat>) {
    if before == [] then after == [] && wokenAfter == woken
    else before == [before[0]] + after && wokenAfter == woken + {before[0]}
  }

  ghost function Elements(s: seq<nat>): set<nat> {
    set t | t in s
  }

  /** Unlocking wakes as many receivers as sends were counted, from the front of the list, as long as there are any. */
  lemma {:induction false} UnlockTxWakes(c: Control)
    ensures var n := Min(Owed(c.txLock), |c.rx|);
      UnlockTx(c) == c.(rx := c.rx[n..], txLock := UNLOCKED, wokenRx := c.wokenRx + Elements(c.rx[..n]))
    decreases c.txLock
  {
    if c.txLock > LOCKED_UNMODIFIED && c.rx != [] {
      var n := Min(Owed(c.txLock), |c.rx|);
      UnlockTxWakes(WakeReceiver(c).(txLock := c.txLock - 1));
      assert c.rx[..n] == [c.rx[0]] + c.rx[1..][..n - 1];
    }
  }

  /** Likewise senders, as many as receives were counted. */
  lemma {:induction false} UnlockRxWakes(c: Control)
    ensures var n := Min(Owed(c.rxLock), |c.tx|);
      UnlockRx(c) == c.(tx := c.tx[n..], rxLock := UNLOCKED, wokenTx := c.wokenTx + Elements(c.tx[..n]))
    decreases c.rxLock
  {
    if c.rxLock > LOCKED_UNMODIFIED && c.tx != [] {
      var n := Min(Owed(c.rxLock), |c.tx|);
      UnlockRxWakes(WakeSender(c).(rxLock := c.rxLock - 1));
      assert c.tx[..n] == [c.tx[0]] + c.tx[1..][..n - 1];
    }
  }

  lemma TaskSendIsSound(c: Control, t: nat, overwrite: bool)
    requires Sound(c) && (c.count < c.length || (overwrite && c.length == 1))
    ensures Sound(TaskSend(c, t, overwrite))
  {
    if c.rx != [] { TailOf(c.rx); }
  }

  lemma TaskReceiveIsSound(c: Control, t: nat)
    requires Sound(c) && c.count > 0
    ensures Sound(TaskReceive(c, t))
  {
    if c.tx != [] { TailOf(c.tx); }
  }

  lemma TaskPeekIsSound(c: Control, t: nat)
    requires Sound(c)
    ensures Sound(TaskPeek(c, t))
  {
    if c.rx != [] { TailOf(c.rx); }
  }

  /** A retry that finds the queue still empty, or still full, loses nothing either. */
  lemma FailedRetryIsSound(c: Control, t: nat)
    requires Sound(c)
    ensures c.count == 0 ==> Sound(c.(wokenRx := c.wokenRx - {t}))
    ensures c.count == c.length ==> Sound(c.(wokenTx := c.wokenTx - {t}))
  {
  }

  lemma IsrSendIsSound(c: Control, overwrite: bool)
    requires Sound(c) && (c.count < c.length || (overwrite && c.length == 1))
    requires UNLOCKED <= c.txLock < INT8_MAX
    ensures Sound(IsrSend(c, overwrite))
  {
    if c.rx != [] { TailOf(c.rx); }
  }

  lemma IsrReceiveIsSound(c: Control)
    requires Sound(c) && c.count > 0 && UNLOCKED <= c.rxLock < INT8_MAX
    ensures Sound(IsrReceive(c))
  {
    if c.tx != [] { TailOf(c.tx); }
  }

  lemma LockIsSound(c: Control)
    requires Sound(c)
    ensures Sound(Lock(c)) && Lock(c) == c.(rxLock := Lock(c).rxLock, txLock := Lock(c).txLock)
    ensures Lock(c).txLock == (if c.txLock == -1 then 0 else c.txLock) && Lock(c).rxLock == (if c.rxLock == -1 then 0 else c.rxLock)
  {
  }

  lemma {:induction false} UnlockTxIsSound(c: Control)
    requires Sound(c)
    ensures Sound(UnlockTx(c)) && UnlockTx(c).txLock == UNLOCKED
    ensures UnlockTx(c) == c.(rx := UnlockTx(c).rx, txLock := UNLOCKED, wokenRx := UnlockTx(c).wokenRx)
    ensures forall t :: t in UnlockTx(c).rx || t in UnlockTx(c).wokenRx <==> t in c.rx || t in c.wokenRx
    decreases c.txLock
  {
    if c.txLock > LOCKED_UNMODIFIED && c.rx != [] {
      TailOf(c.rx);
      UnlockTxIsSound(WakeReceiver(c).(txLock := c.txLock - 1));
    }
  }

  lemma {:induction false} UnlockRxIsSound(c: Control)
    requires Sound(c)
    ensures Sound(UnlockRx(c)) && UnlockRx(c).rxLock == UNLOCKED
    ensures UnlockRx(c) == c.(tx := UnlockRx(c).tx, rxLock := UNLOCKED, wokenTx := UnlockRx(c).wokenTx)
    ensures forall t :: t in UnlockRx(c).tx || t in UnlockRx(c).wokenTx <==> t in c.tx || t in c.wokenTx
    decreases c.rxLock
  {
    if c.rxLock > LOCKED_UNMODIFIED && c.tx != [] {
      TailOf(c.tx);
      UnlockRxIsSound(WakeSender(c).(rxLock := c.rxLock - 1));
    }
  }
}
