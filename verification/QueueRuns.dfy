/**
 * Every interleaving of blocking queue calls by any number of tasks with
 * interrupts: the calls of queue.c cut into the steps between which something
 * else can run.
 */
module QueueRuns {
  import opened QueueProtocol
  import opened Sequences

  datatype Op = Receive | Peek | Send | Overwrite

  datatype Next = Block | Again | GiveUp

  // Where a task is in its call.
  datatype PC =
    | Idle
    | Try(op: Op)                          // about to enter the critical section
    | Decided(op: Op)                      // found nothing to do, will wait
    | Suspended(op: Op)                    // has suspended the scheduler
    | Locked(op: Op)                       // has locked the queue
    | NotExpired(op: Op)                   // its wait has not timed out
    | Confirmed(op: Op)                    // has seen again that it must wait
    | Unlocking(op: Op, next: Next)        // about to unlock the queue
    | HalfUnlocked(op: Op, next: Next)     // has unlocked the sending half
    | Unlocked(op: Op, next: Next)         // about to resume the scheduler
    | Blocked(op: Op)                      // has yielded
    | Leaving(op: Op)                      // has timed out, looks once more

  datatype Owner = Nobody | Holds(t: nat)

  datatype State = State(
    ctl: Control, pc: map<nat, PC>,
    owner: Owner,                          // who has suspended the scheduler
    sends: nat, receives: nat)             // by interrupts, since the queue was last locked and while it was

  datatype Step =
    | Call(t: nat, op: Op)
    | Attempt(t: nat, patient: bool)
    | SuspendAll(t: nat)
    | LockQueue(t: nat)
    | CheckTimeOut(t: nat, expired: bool)
    | Recheck(t: nat)
    | Place(t: nat, k: nat)
    | UnlockTxHalf(t: nat)
    | UnlockRxHalf(t: nat)
    | ResumeAll(t: nat)
    | RunAgain(t: nat)
    | Leave(t: nat)
    | TimeOut(t: nat)
    | SendFromIsr(overwrite: bool)
    | ReceiveFromIsr

  predicate IsReceiver(op: Op) {
    op == Receive || op == Peek
  }

  /** Whether the condition that the call waits for is absent. */
  predicate MustWait(c: Control, op: Op) {
    match op
    case Receive => c.count == 0
    case Peek => c.count == 0
    case Send => c.count == c.length
    case Overwrite => false
  }

  predicate CanSend(c: Control, overwrite: bool) {
    c.count < c.length || (overwrite && c.length == 1)
  }

  /** A task runs only while no other task has suspended the scheduler. */
  predicate MayRun(s: State, t: nat) {
    t in s.pc && (s.owner == Nobody || s.owner == Holds(t))
  }

  predicate Enabled(s: State, st: Step) {
    match st
    case Call(t, op) => MayRun(s, t) && s.pc[t] == Idle && (op == Overwrite ==> s.ctl.length == 1)
    case Attempt(t, patient) => MayRun(s, t) && s.pc[t].Try?
    case SuspendAll(t) => MayRun(s, t) && s.pc[t].Decided?
    case LockQueue(t) => MayRun(s, t) && s.pc[t].Suspended?
    case CheckTimeOut(t, expired) => MayRun(s, t) && s.pc[t].Locked?
    case Recheck(t) => MayRun(s, t) && s.pc[t].NotExpired?
    case Place(t, k) => MayRun(s, t) && s.pc[t].Confirmed? && k <= |if IsReceiver(s.pc[t].op) then s.ctl.rx else s.ctl.tx|
    case UnlockTxHalf(t) => MayRun(s, t) && s.pc[t].Unlocking?
    case UnlockRxHalf(t) => MayRun(s, t) && s.pc[t].HalfUnlocked?
    case ResumeAll(t) => MayRun(s, t) && s.pc[t].Unlocked?
    case RunAgain(t) => MayRun(s, t) && s.pc[t].Blocked? && t !in s.ctl.rx && t !in s.ctl.tx
    case Leave(t) => MayRun(s, t) && s.pc[t].Leaving?
    // A tick takes a task off its event list only while the scheduler runs.
    case TimeOut(t) => s.owner == Nobody && t in s.pc && s.pc[t].Blocked? && (t in s.ctl.rx || t in s.ctl.tx)
    // Interrupts run at any time, however often.
    case SendFromIsr(overwrite) => CanSend(s.ctl, overwrite)
    case ReceiveFromIsr => s.ctl.count > 0
  }

  /** Whether a task has locked the sending or the receiving half of the queue. */
  predicate TxLocked(s: State) {
    s.owner.Holds? && s.owner.t in s.pc &&
    var pc := s.pc[s.owner.t]; pc.Locked? || pc.NotExpired? || pc.Confirmed? || pc.Unlocking?
  }

  predicate RxLocked(s: State) {
    TxLocked(s) || (s.owner.Holds? && s.owner.t in s.pc && s.pc[s.owner.t].HalfUnlocked?)
  }

  function Attempted(c: Control, t: nat, op: Op): Control {
    match op
    case Receive => if c.count > 0 then TaskReceive(c, t) else c.(wokenRx := c.wokenRx - {t})
    case Peek => if c.count > 0 then TaskPeek(c, t) else c.(wokenRx := c.wokenRx - {t})
    case Send => if c.count < c.length then TaskSend(c, t, false) else c.(wokenTx := c.wokenTx - {t})
    case Overwrite => TaskSend(c, t, true)
  }

  function Without(s: seq<nat>, t: nat): (r: seq<nat>)
    ensures forall x :: x in r ==> x in s
    ensures t !in s ==> r == s
  {
    if s == [] then [] else if s[0] == t then s[1..] else [s[0]] + Without(s[1..], t)
  }

  function PlaceOn(c: Control, t: nat, op: Op, k: nat): Control
    requires k <= |if IsReceiver(op) then c.rx else c.tx|
  {
    if IsReceiver(op) then c.(rx := InsertAt(c.rx, k, t)) else c.(tx := InsertAt(c.tx, k, t))
  }

  function Do(s: State, st: Step): State
    requires Enabled(s, st)
  {
    match st
    case Call(t, op) => s.(pc := s.pc[t := Try(op)])
    case Attempt(t, patient) =>
      var op := s.pc[t].op;
      s.(ctl := Attempted(s.ctl, t, op), pc := s.pc[t := if MustWait(s.ctl, op) && patient then Decided(op) else Idle])
    case SuspendAll(t) => s.(pc := s.pc[t := Suspended(s.pc[t].op)], owner := Holds(t))
    case LockQueue(t) => s.(ctl := Lock(s.ctl), pc := s.pc[t := Locked(s.pc[t].op)], sends := 0, receives := 0)
    case CheckTimeOut(t, expired) =>
      s.(pc := s.pc[t := if expired then Unlocking(s.pc[t].op, GiveUp) else NotExpired(s.pc[t].op)])
    case Recheck(t) =>
      s.(pc := s.pc[t := if MustWait(s.ctl, s.pc[t].op) then Confirmed(s.pc[t].op) else Unlocking(s.pc[t].op, Again)])
    case Place(t, k) => s.(ctl := PlaceOn(s.ctl, t, s.pc[t].op, k), pc := s.pc[t := Unlocking(s.pc[t].op, Block)])
    case UnlockTxHalf(t) => s.(ctl := UnlockTx(s.ctl), pc := s.pc[t := HalfUnlocked(s.pc[t].op, s.pc[t].next)])
    case UnlockRxHalf(t) => s.(ctl := UnlockRx(s.ctl), pc := s.pc[t := Unlocked(s.pc[t].op, s.pc[t].next)])
    case ResumeAll(t) =>
      var op := s.pc[t].op;
      s.(pc := s.pc[t := match s.pc[t].next case Block => Blocked(op) case Again => Try(op) case GiveUp => Leaving(op)], owner := Nobody)
    case RunAgain(t) => s.(pc := s.pc[t := Try(s.pc[t].op)])
    // A sender leaves at once; a receiver returns to the queue if it is not empty after all.
    case Leave(t) =>
      s.(pc := s.pc[t := if IsReceiver(s.pc[t].op) && s.ctl.count > 0 then Try(s.pc[t].op) else Idle])
    case TimeOut(t) => s.(ctl := s.ctl.(rx := Without(s.ctl.rx, t), tx := Without(s.ctl.tx, t)))
    case SendFromIsr(overwrite) => s.(ctl := IsrSend(s.ctl, overwrite), sends := if TxLocked(s) then s.sends + 1 else s.sends)
    case ReceiveFromIsr => s.(ctl := IsrReceive(s.ctl), receives := if RxLocked(s) then s.receives + 1 else s.receives)
  }

  // ---------- the invariant of all runs ----------

  /** The part of a call during which the caller keeps the scheduler suspended. */
  predicate Owning(pc: PC) {
    pc.Suspended? || pc.Locked? || pc.NotExpired? || pc.Confirmed? || pc.Unlocking? || pc.HalfUnlocked? || pc.Unlocked?
  }

  predicate OnList(pc: PC) {
    pc.Blocked? || ((pc.Unlocking? || pc.HalfUnlocked? || pc.Unlocked?) && pc.next == Block)
  }

  ghost predicate LocksFit(s: State) {
    match s.owner
    case Nobody => s.ctl.txLock == UNLOCKED && s.ctl.rxLock == UNLOCKED
    case Holds(o) =>
      && o in s.pc && Owning(s.pc[o])
      && (if s.pc[o].Suspended? || s.pc[o].Unlocked? || s.pc[o].HalfUnlocked? then s.ctl.txLock == UNLOCKED
          else 0 <= s.ctl.txLock <= INT8_MAX && s.ctl.txLock <= s.sends)
      && (if s.pc[o].Suspended? || s.pc[o].Unlocked? then s.ctl.rxLock == UNLOCKED
          else 0 <= s.ctl.rxLock <= INT8_MAX && s.ctl.rxLock <= s.receives)
      // What the caller saw is still true, up to what the lock has counted since.
      && (s.pc[o].Confirmed? && IsReceiver(s.pc[o].op) ==> s.ctl.count <= s.ctl.txLock)
      && (s.pc[o].Confirmed? && !IsReceiver(s.pc[o].op) ==> s.ctl.length - s.ctl.count <= s.ctl.rxLock)
  }

  ghost predicate TaskFits(c: Control, owner: Owner, t: nat, pc: PC) {
    && (Owning(pc) ==> owner == Holds(t))
    && (!pc.Idle? && pc.op == Overwrite ==> pc.Try? && c.length == 1)
    && (t in c.rx ==> OnList(pc) && IsReceiver(pc.op))
    && (t in c.tx ==> OnList(pc) && pc.op == Send)
    && (t in c.wokenRx ==> (OnList(pc) || pc.Try?) && IsReceiver(pc.op))
    && (t in c.wokenTx ==> (OnList(pc) || pc.Try?) && pc.op == Send)
  }

  ghost predicate Known(c: Control, pc: map<nat, PC>) {
    && (forall t | t in c.rx || t in c.tx || t in c.wokenRx || t in c.wokenTx :: t in pc)
  }

  ghost predicate Inv(s: State) {
    && Sound(s.ctl)
    && LocksFit(s)
    && Known(s.ctl, s.pc)
    && forall t | t in s.pc :: TaskFits(s.ctl, s.owner, t, s.pc[t])
  }

  ghost predicate Init(s: State) {
    && s.ctl == Control(s.ctl.length, 0, [], [], UNLOCKED, UNLOCKED, {}, {})
    && s.owner == Nobody && s.sends == s.receives == 0
    && forall t | t in s.pc :: s.pc[t] == Idle
  }

  lemma InitIsInv(s: State)
    requires Init(s)
    ensures Inv(s)
  {
  }

  lemma CallKeepsInv(s: State, t: nat, op: Op)
    requires Inv(s) && Enabled(s, Call(t, op))
    ensures Inv(Do(s, Call(t, op)))
  {
  }

  /** Waking the head of a waiting list moves a task from the list to the woken ones. */
  lemma WakingMoves(c: Control)
    requires NoDuplicates(c.rx) && NoDuplicates(c.tx)
    ensures var d := WakeReceiver(c);
      && (forall t :: t in d.rx ==> t in c.rx) && (forall t :: t in d.wokenRx ==> t in c.rx || t in c.wokenRx)
      && d.tx == c.tx && d.wokenTx == c.wokenTx
    ensures var d := WakeSender(c);
      && (forall t :: t in d.tx ==> t in c.tx) && (forall t :: t in d.wokenTx ==> t in c.tx || t in c.wokenTx)
      && d.rx == c.rx && d.wokenRx == c.wokenRx
  {
    if c.rx != [] { TailOf(c.rx); }
    if c.tx != [] { TailOf(c.tx); }
  }

  /** The tasks of d are tasks of c, in the same role, though some may have been woken. */
  ghost predicate SameRoles(c: Control, d: Control) {
    && d.length == c.length
    && (forall x | x in d.rx :: x in c.rx) && (forall x | x in d.wokenRx :: x in c.rx || x in c.wokenRx)
    && (forall x | x in d.tx :: x in c.tx) && (forall x | x in d.wokenTx :: x in c.tx || x in c.wokenTx)
  }

  /** One task steps to a place outside its waiting; every task still fits. */
  lemma TasksStillFit(s: State, d: Control, t: nat, pc: PC)
    requires Known(s.ctl, s.pc) && forall x | x in s.pc :: TaskFits(s.ctl, s.owner, x, s.pc[x])
    requires SameRoles(s.ctl, d) && TaskFits(d, s.owner, t, pc)
    ensures Known(d, s.pc[t := pc])
    ensures forall x | x in s.pc :: TaskFits(d, s.owner, x, if x == t then pc else s.pc[x])
  {
    forall x | x in s.pc && x != t ensures TaskFits(d, s.owner, x, s.pc[x]) {
      assert TaskFits(s.ctl, s.owner, x, s.pc[x]);
    }
  }

  /** What an attempt does to the control state. */
  lemma AttemptIsSound(c: Control, t: nat, op: Op)
    requires Sound(c) && t !in c.rx && t !in c.tx
    requires op == Overwrite ==> c.length == 1 && t !in c.wokenTx
    requires IsReceiver(op) ==> t !in c.wokenTx
    requires !IsReceiver(op) ==> t !in c.wokenRx
    ensures Sound(Attempted(c, t, op)) && SameRoles(c, Attempted(c, t, op))
    ensures t !in Attempted(c, t, op).wokenRx && t !in Attempted(c, t, op).wokenTx
    ensures Attempted(c, t, op).rxLock == c.rxLock && Attempted(c, t, op).txLock == c.txLock
  {
    match op {
      case Receive =>
        if c.count > 0 {
          TaskReceiveIsSound(c, t);
          WakingMoves(c.(count := c.count - 1, wokenRx := c.wokenRx - {t}));
        } else {
          FailedRetryIsSound(c, t);
        }
      case Peek =>
        if c.count > 0 {
          TaskPeekIsSound(c, t);
          WakingMoves(c.(wokenRx := c.wokenRx - {t}));
        } else {
          FailedRetryIsSound(c, t);
        }
      case Send =>
        if c.count < c.length {
          TaskSendIsSound(c, t, false);
          WakingMoves(c.(count := c.count + 1, wokenTx := c.wokenTx - {t}));
        } else {
          FailedRetryIsSound(c, t);
        }
      case Overwrite =>
        TaskSendIsSound(c, t, true);
        WakingMoves(c.(count := CountAfterSend(c, true)));
    }
  }

  lemma AttemptKeepsInv(s: State, t: nat, patient: bool)
    requires Inv(s) && Enabled(s, Attempt(t, patient))
    ensures Inv(Do(s, Attempt(t, patient)))
  {
    hide Attempted, Sound, NoDuplicates;
    var c, op := s.ctl, s.pc[t].op;
    assert TaskFits(c, s.owner, t, s.pc[t]);
    AttemptIsSound(c, t, op);
    var s' := Do(s, Attempt(t, patient));
    TasksStillFit(s, s'.ctl, t, s'.pc[t]);
  }

  lemma LockingKeepsInv(s: State, st: Step)
    requires Inv(s) && Enabled(s, st)
    requires st.SuspendAll? || st.LockQueue? || st.CheckTimeOut? || st.Recheck? || st.ResumeAll? || st.RunAgain? || st.Leave?
    ensures Inv(Do(s, st))
  {
    hide Sound;
    var t := st.t;
    var s' := Do(s, st);
    assert TaskFits(s.ctl, s.owner, t, s.pc[t]);
    LockIsSound(s.ctl);
    forall x | x in s'.pc ensures TaskFits(s'.ctl, s'.owner, x, s'.pc[x]) {
      assert TaskFits(s.ctl, s.owner, x, s.pc[x]);
    }
  }

  lemma PlacingIsSound(c: Control, t: nat, op: Op, k: nat)
    requires Sound(c) && t !in c.rx && t !in c.wokenRx && t !in c.tx && t !in c.wokenTx
    requires k <= |if IsReceiver(op) then c.rx else c.tx|
    requires if IsReceiver(op) then c.count <= c.txLock else c.length - c.count <= c.rxLock
    ensures Sound(PlaceOn(c, t, op, k))
    ensures forall x :: x in PlaceOn(c, t, op, k).rx <==> x in c.rx || (IsReceiver(op) && x == t)
    ensures forall x :: x in PlaceOn(c, t, op, k).tx <==> x in c.tx || (!IsReceiver(op) && x == t)
  {
    Inserted(if IsReceiver(op) then c.rx else c.tx, k, t);
  }

  lemma Inserted(s: seq<nat>, k: nat, t: nat)
    requires NoDuplicates(s) && t !in s && k <= |s|
    ensures NoDuplicates(InsertAt(s, k, t))
    ensures forall x :: x in InsertAt(s, k, t) <==> x in s || x == t
  {
    var r := InsertAt(s, k, t);
    forall i, j | 0 <= i < j < |r| ensures Differ(r, i, j) {
      if i != k && j != k { assert Differ(s, if i < k then i else i - 1, if j < k then j else j - 1); }
    }
    forall x | x in s ensures x in r {
      var i :| 0 <= i < |s| && s[i] == x;
      assert r[if i < k then i else i + 1] == x;
    }
  }

  lemma PlaceKeepsInv(s: State, t: nat, k: nat)
    requires Inv(s) && Enabled(s, Place(t, k))
    ensures Inv(Do(s, Place(t, k)))
  {
    hide PlaceOn, Sound, NoDuplicates;
    assert TaskFits(s.ctl, s.owner, t, s.pc[t]);
    PlacingIsSound(s.ctl, t, s.pc[t].op, k);
    PlacingTouchesOnly(s.ctl, t, s.pc[t].op, k);
    var s' := Do(s, Place(t, k));
    forall x | x in s'.pc ensures TaskFits(s'.ctl, s'.owner, x, s'.pc[x]) {
      assert TaskFits(s.ctl, s.owner, x, s.pc[x]);
    }
  }

  lemma PlacingTouchesOnly(c: Control, t: nat, op: Op, k: nat)
    requires k <= |if IsReceiver(op) then c.rx else c.tx|
    ensures var d := PlaceOn(c, t, op, k);
      d == c.(rx := d.rx, tx := d.tx)
  {
  }

  lemma UnlockingKeepsInv(s: State, st: Step)
    requires Inv(s) && Enabled(s, st) && (st.UnlockTxHalf? || st.UnlockRxHalf?)
    ensures Inv(Do(s, st))
  {
    hide UnlockTx, UnlockRx, Sound, NoDuplicates;
    var t := st.t;
    assert TaskFits(s.ctl, s.owner, t, s.pc[t]);
    if st.UnlockTxHalf? { UnlockTxIsSound(s.ctl); } else { UnlockRxIsSound(s.ctl); }
    var s' := Do(s, st);
    UnlockingRoles(s, st);
    TasksStillFit(s, s'.ctl, t, s'.pc[t]);
  }

  lemma {:induction false} UnlockTxRoles(c: Control)
    requires NoDuplicates(c.rx)
    ensures SameRoles(c, UnlockTx(c))
    decreases c.txLock
  {
    if c.txLock > LOCKED_UNMODIFIED && c.rx != [] {
      TailOf(c.rx);
      UnlockTxRoles(WakeReceiver(c).(txLock := c.txLock - 1));
    }
  }

  lemma {:induction false} UnlockRxRoles(c: Control)
    requires NoDuplicates(c.tx)
    ensures SameRoles(c, UnlockRx(c))
    decreases c.rxLock
  {
    if c.rxLock > LOCKED_UNMODIFIED && c.tx != [] {
      TailOf(c.tx);
      UnlockRxRoles(WakeSender(c).(rxLock := c.rxLock - 1));
    }
  }

  lemma UnlockingRoles(s: State, st: Step)
    requires Inv(s) && Enabled(s, st) && (st.UnlockTxHalf? || st.UnlockRxHalf?)
    ensures var s' := Do(s, st); SameRoles(s.ctl, s'.ctl) && TaskFits(s'.ctl, s'.owner, st.t, s'.pc[st.t])
  {
    hide UnlockTx, UnlockRx, NoDuplicates;
    assert TaskFits(s.ctl, s.owner, st.t, s.pc[st.t]);
    if st.UnlockTxHalf? { UnlockTxRoles(s.ctl); } else { UnlockRxRoles(s.ctl); }
  }

  lemma {:induction false} WithoutOne(s: seq<nat>, t: nat)
    requires NoDuplicates(s)
    ensures NoDuplicates(Without(s, t)) && t !in Without(s, t)
  {
    if s != [] && s[0] == t {
      TailOf(s);
    } else if s != [] {
      TailOf(s);
      WithoutOne(s[1..], t);
      var r := Without(s, t);
      assert r[1..] == Without(s[1..], t);
      forall i, j | 0 <= i < j < |r| ensures Differ(r, i, j) {
        if i == 0 { assert r[j] == r[1..][j - 1] && r[j] in s[1..]; } else { assert Differ(r[1..], i - 1, j - 1); }
      }
    }
  }

  lemma TimeOutKeepsInv(s: State, t: nat)
    requires Inv(s) && Enabled(s, TimeOut(t))
    ensures Inv(Do(s, TimeOut(t)))
  {
    WithoutOne(s.ctl.rx, t);
    WithoutOne(s.ctl.tx, t);
    var s' := Do(s, TimeOut(t));
    forall x | x in s'.pc ensures TaskFits(s'.ctl, s'.owner, x, s'.pc[x]) {
      assert TaskFits(s.ctl, s.owner, x, s.pc[x]);
    }
  }

  lemma RolesKeepFit(s: State, d: Control)
    requires Known(s.ctl, s.pc) && forall x | x in s.pc :: TaskFits(s.ctl, s.owner, x, s.pc[x])
    requires SameRoles(s.ctl, d)
    ensures Known(d, s.pc) && forall x | x in s.pc :: TaskFits(d, s.owner, x, s.pc[x])
  {
    forall x | x in s.pc ensures TaskFits(d, s.owner, x, s.pc[x]) {
      assert TaskFits(s.ctl, s.owner, x, s.pc[x]);
    }
  }

  lemma IsrKeepsInv(s: State, st: Step)
    requires Inv(s) && Enabled(s, st) && (st.SendFromIsr? || st.ReceiveFromIsr?) && Within(Do(s, st), INT8_MAX)
    ensures Inv(Do(s, st))
  {
    hide Sound, NoDuplicates, IsrSend, IsrReceive, TaskFits, SameRoles, Known;
    LocksInRange(s, st);
    IsrIsSound(s.ctl, st);
    IsrLocksFit(s, st);
    hide LocksFit;
    RolesKeepFit(s, Do(s, st).ctl);
  }

  lemma IsrLocksFit(s: State, st: Step)
    requires LocksFit(s) && Enabled(s, st) && (st.SendFromIsr? || st.ReceiveFromIsr?) && Within(Do(s, st), INT8_MAX)
    ensures LocksFit(Do(s, st))
  {
  }

  lemma LocksInRange(s: State, st: Step)
    requires LocksFit(s) && Enabled(s, st) && (st.SendFromIsr? || st.ReceiveFromIsr?) && Within(Do(s, st), INT8_MAX)
    ensures UNLOCKED <= s.ctl.txLock && UNLOCKED <= s.ctl.rxLock
    ensures if st.SendFromIsr? then s.ctl.txLock < INT8_MAX else s.ctl.rxLock < INT8_MAX
  {
  }

  lemma IsrIsSound(c: Control, st: Step)
    requires Sound(c) && UNLOCKED <= c.txLock && UNLOCKED <= c.rxLock
    requires (st.SendFromIsr? && CanSend(c, st.overwrite) && c.txLock < INT8_MAX) || (st.ReceiveFromIsr? && c.count > 0 && c.rxLock < INT8_MAX)
    ensures var d := if st.SendFromIsr? then IsrSend(c, st.overwrite) else IsrReceive(c);
      Sound(d) && SameRoles(c, d)
  {
    if st.SendFromIsr? {
      IsrSendIsSound(c, st.overwrite);
      WakingMoves(c.(count := CountAfterSend(c, st.overwrite)));
    } else {
      IsrReceiveIsSound(c);
      WakingMoves(c.(count := c.count - 1));
    }
  }

  /** Interrupts have put in, and taken out, at most so many items since the queue was locked. */
  predicate Within(s: State, bound: nat) {
    s.sends <= bound && s.receives <= bound
  }

  lemma StepKeepsInv(s: State, st: Step)
    requires Inv(s) && Enabled(s, st) && Within(Do(s, st), INT8_MAX)
    ensures Inv(Do(s, st))
  {
    hide Inv, Enabled, Do;
    match st {
      case Call(t, op) => CallKeepsInv(s, t, op);
      case Attempt(t, patient) => AttemptKeepsInv(s, t, patient);
      case Place(t, k) => PlaceKeepsInv(s, t, k);
      case UnlockTxHalf(_) => UnlockingKeepsInv(s, st);
      case UnlockRxHalf(_) => UnlockingKeepsInv(s, st);
      case TimeOut(t) => TimeOutKeepsInv(s, t);
      case SendFromIsr(_) => IsrKeepsInv(s, st);
      case ReceiveFromIsr => IsrKeepsInv(s, st);
      case _ => LockingKeepsInv(s, st);
    }
  }

  /**
   * A receive returns with an item, or, patient or not, at a moment when there is
   * none; a send returns having sent, or when the queue is full, or because its
   * time has run out.
   */
  lemma CallsEndRightly(s: State, st: Step, t: nat)
    requires Enabled(s, st) && t in s.pc && !s.pc[t].Idle? && Do(s, st).pc[t].Idle?
    ensures (st.Attempt? || st.Leave?) && st.t == t
    ensures
      var before, after := s.ctl.count, Do(s, st).ctl.count;
      match s.pc[t].op
      case Receive => if before > 0 then after == before - 1 else after == 0
      case Peek => after == before
      case Send => if st.Attempt? && before < s.ctl.length then after == before + 1 else after == before
      case Overwrite => after == before || after == before + 1
    ensures s.pc[t].op == Receive && s.ctl.count > 0 ==> st.Attempt?
    ensures s.pc[t].op == Peek && s.ctl.count > 0 ==> st.Attempt?
  {
  }

  // ---------- what holds in every run ----------

  predicate CanRun(s: State, steps: seq<Step>)
    decreases |steps|
  {
    steps == [] || (Enabled(s, steps[0]) && CanRun(Do(s, steps[0]), steps[1..]))
  }

  function Run(s: State, steps: seq<Step>): State
    requires CanRun(s, steps)
    decreases |steps|
  {
    if steps == [] then s else Run(Do(s, steps[0]), steps[1..])
  }

  /** No lock of the run sees more than so many sends, or receives, from interrupts. */
  predicate PerLock(s: State, steps: seq<Step>, bound: nat)
    requires CanRun(s, steps)
    decreases |steps|
  {
    steps == [] || (Within(Do(s, steps[0]), bound) && PerLock(Do(s, steps[0]), steps[1..], bound))
  }

  lemma {:induction false} RunKeepsInv(s: State, steps: seq<Step>)
    requires Inv(s) && CanRun(s, steps) && PerLock(s, steps, INT8_MAX)
    ensures Inv(Run(s, steps))
    decreases |steps|
  {
    if steps != [] {
      StepKeepsInv(s, steps[0]);
      RunKeepsInv(Do(s, steps[0]), steps[1..]);
    }
  }

  /**
   * While receivers wait, every item is matched by a woken receiver that has yet
   * to retry or by a wake-up that the lock owes; likewise free places and senders.
   */
  ghost predicate Matched(c: Control) {
    && (c.rx != [] ==> c.count <= |c.wokenRx| + Owed(c.txLock))
    && (c.tx != [] ==> c.length - c.count <= |c.wokenTx| + Owed(c.rxLock))
    && c.count <= c.length
  }

  /** No lost wake-up, at every moment of every run in which no lock counter can run full. */
  lemma {:induction false} NoLostWakeUp(s: State, steps: seq<Step>)
    requires Init(s) && CanRun(s, steps) && PerLock(s, steps, INT8_MAX)
    ensures Matched(Run(s, steps).ctl)
  {
    InitIsInv(s);
    RunKeepsInv(s, steps);
  }

  /** No task is on its way: each is outside a call, or blocked and on a waiting list. */
  ghost predicate AtRest(s: State) {
    forall t | t in s.pc :: s.pc[t] == Idle || (s.pc[t].Blocked? && (t in s.ctl.rx || t in s.ctl.tx))
  }

  /** Until all tasks are at rest, one of them can take a step: nobody waits for the queue's own steps. */
  lemma {:induction false} SomebodyCanStep(s: State, steps: seq<Step>) returns (st: Step)
    requires Init(s) && CanRun(s, steps) && PerLock(s, steps, INT8_MAX) && !AtRest(Run(s, steps))
    ensures Enabled(Run(s, steps), st) && !st.SendFromIsr? && !st.ReceiveFromIsr?
  {
    InitIsInv(s);
    RunKeepsInv(s, steps);
    var e := Run(s, steps);
    var t: nat;
    if e.owner.Holds? {
      t := e.owner.t;
    } else {
      t :| t in e.pc && !(e.pc[t] == Idle || (e.pc[t].Blocked? && (t in e.ctl.rx || t in e.ctl.tx)));
      assert TaskFits(e.ctl, e.owner, t, e.pc[t]);
    }
    match e.pc[t] {
      case Try(_) => st := Attempt(t, false);
      case Decided(_) => st := SuspendAll(t);
      case Suspended(_) => st := LockQueue(t);
      case Locked(_) => st := CheckTimeOut(t, false);
      case NotExpired(_) => st := Recheck(t);
      case Confirmed(_) => st := Place(t, 0);
      case Unlocking(_, _) => st := UnlockTxHalf(t);
      case HalfUnlocked(_, _) => st := UnlockRxHalf(t);
      case Unlocked(_, _) => st := ResumeAll(t);
      case Blocked(_) => st := RunAgain(t);
      case Leaving(_) => st := Leave(t);
    }
  }

  /** Once everything has come to rest, receivers wait only on an empty queue and senders only on a full one. */
  lemma {:induction false} WaitingIsJustified(s: State, steps: seq<Step>)
    requires Init(s) && CanRun(s, steps) && PerLock(s, steps, INT8_MAX) && AtRest(Run(s, steps))
    ensures var c := Run(s, steps).ctl;
      && (c.rx != [] ==> c.count == 0)
      && (c.tx != [] ==> c.count == c.length)
      && (c.length > 0 ==> c.rx == [] || c.tx == [])
  {
    InitIsInv(s);
    RunKeepsInv(s, steps);
    var e := Run(s, steps);
    forall t ensures t !in e.ctl.wokenRx && t !in e.ctl.wokenTx {
      if t in e.pc { assert TaskFits(e.ctl, e.owner, t, e.pc[t]); }
    }
    assert e.ctl.wokenRx == {} && e.ctl.wokenTx == {};
  }

  // ---------- how many interrupts one lock can bear ----------

  /** Run and limit of a longer run. */
  lemma {:induction false} OneMore(s: State, steps: seq<Step>, st: Step, bound: nat)
    requires CanRun(s, steps) && PerLock(s, steps, bound)
    requires Enabled(Run(s, steps), st) && Within(Do(Run(s, steps), st), bound)
    ensures CanRun(s, steps + [st]) && PerLock(s, steps + [st], bound)
    ensures Run(s, steps + [st]) == Do(Run(s, steps), st)
    decreases |steps|
  {
    hide Enabled, Do;
    if steps == [] {
      assert [st][1..] == [];
    } else {
      OneMore(Do(s, steps[0]), steps[1..], st, bound);
      assert (steps + [st])[1..] == steps[1..] + [st];
    }
  }

  /**
   * A call that cannot be served can always end: once a task that waits times
   * out, it can run through to its return, and leave nothing behind.
   */
  lemma {:induction false} TimeOutEndsTheCall(e: State, t: nat) returns (steps: seq<Step>)
    requires Inv(e) && e.owner == Nobody && t in e.pc && e.pc[t].Blocked? && (t in e.ctl.rx || t in e.ctl.tx)
    requires MustWait(e.ctl, e.pc[t].op)
    ensures CanRun(e, steps) && steps != [] && steps[0] == TimeOut(t)
    ensures var d := Run(e, steps);
      && d.pc == e.pc[t := Idle] && d.owner == Nobody && t !in d.ctl.rx && t !in d.ctl.tx
      && d.ctl.count == e.ctl.count && d.ctl.txLock == d.ctl.rxLock == UNLOCKED
  {
    hide Run, CanRun, PerLock, Inv, Do, Enabled;
    var op, bound := e.pc[t].op, e.sends + e.receives;
    StartsEmpty(e, bound);
    var d := GivenUpFirst(e, t, bound);
    OneMore(e, [], TimeOut(t), bound);
    steps := [TimeOut(t)];
    assert [] + [TimeOut(t)] == steps;
    for i := 1 to 10
      invariant CanRun(e, steps) && PerLock(e, steps, bound) && Run(e, steps) == d && steps != [] && steps[0] == TimeOut(t)
      invariant GivingUp(e, t, op, bound, d, i)
    {
      var st := GivingUpStep(t, i);
      GivingUpOn(e, t, op, bound, d, i);
      OneMore(e, steps, st, bound);
      steps, d := steps + [st], Do(d, st);
    }
  }

  function GivingUpStep(t: nat, i: nat): Step
    requires 1 <= i < 10
  {
    [TimeOut(t), RunAgain(t), Attempt(t, true), SuspendAll(t), LockQueue(t), CheckTimeOut(t, true), UnlockTxHalf(t), UnlockRxHalf(t), ResumeAll(t), Leave(t)][i]
  }

  /** After i steps of giving up. */
  ghost predicate GivingUp(e: State, t: nat, op: Op, bound: nat, d: State, i: nat)
    requires i <= 10
  {
    && t in e.pc && d.pc == e.pc[t := GivingUpAt(op, i)] && d.owner == (if 4 <= i < 9 then Holds(t) else Nobody)
    && d.ctl.count == e.ctl.count && d.ctl.length == e.ctl.length && MustWait(d.ctl, op) && d.sends <= bound && d.receives <= bound
    && t !in d.ctl.rx && t !in d.ctl.tx
    && d.ctl.txLock == (if 5 <= i < 7 then LOCKED_UNMODIFIED else UNLOCKED)
    && d.ctl.rxLock == (if 5 <= i < 8 then LOCKED_UNMODIFIED else UNLOCKED)
  }

  lemma GivenUpFirst(e: State, t: nat, bound: nat) returns (d: State)
    requires Inv(e) && e.owner == Nobody && t in e.pc && e.pc[t].Blocked? && (t in e.ctl.rx || t in e.ctl.tx)
    requires MustWait(e.ctl, e.pc[t].op) && e.sends <= bound && e.receives <= bound
    ensures Enabled(e, TimeOut(t)) && d == Do(e, TimeOut(t)) && GivingUp(e, t, e.pc[t].op, bound, d, 1)
  {
    assert TaskFits(e.ctl, e.owner, t, e.pc[t]);
    WithoutOne(e.ctl.rx, t);
    WithoutOne(e.ctl.tx, t);
    d := Do(e, TimeOut(t));
  }

  lemma GivingUpOn(e: State, t: nat, op: Op, bound: nat, d: State, i: nat)
    requires 1 <= i < 10 && GivingUp(e, t, op, bound, d, i)
    ensures Enabled(d, GivingUpStep(t, i)) && GivingUp(e, t, op, bound, Do(d, GivingUpStep(t, i)), i + 1)
  {
  }

  lemma StartsEmpty(e: State, bound: nat)
    ensures CanRun(e, []) && PerLock(e, [], bound) && Run(e, []) == e
  {
  }

  /** Where a task is that times out, gives up and returns. */
  function GivingUpAt(op: Op, i: nat): PC
    requires i <= 10
  {
    [Blocked(op), Blocked(op), Try(op), Decided(op), Suspended(op), Locked(op), Unlocking(op, GiveUp), HalfUnlocked(op, GiveUp),
     Unlocked(op, GiveUp), Leaving(op), Idle][i]
  }

  /** A queue of this length with so many items and nobody waiting. */
  function Calm(length: nat, count: nat, lock: int): Control {
    Control(length, count, [], [], lock, lock, {}, {})
  }

  /** Interrupts fill an unlocked queue. */
  lemma {:induction false} Fill(s: State, n: nat, bound: nat) returns (steps: seq<Step>)
    requires Init(s) && n <= s.ctl.length
    ensures CanRun(s, steps) && PerLock(s, steps, bound)
    ensures Run(s, steps) == s.(ctl := Calm(s.ctl.length, n, UNLOCKED))
  {
    if n == 0 {
      steps := [];
    } else {
      steps := Fill(s, n - 1, bound);
      OneMore(s, steps, SendFromIsr(false), bound);
      steps := steps + [SendFromIsr(false)];
    }
  }

  /** A task looks into the queue, must wait, locks the queue, and sees again that it must wait. */
  lemma Arrive(s: State, before: seq<Step>, t: nat, op: Op, bound: nat) returns (steps: seq<Step>)
    requires CanRun(s, before) && PerLock(s, before, bound) && (op == Receive || op == Send)
    requires var e := Run(s, before);
      && e.owner == Nobody && t in e.pc && e.pc[t] == Idle && e.sends == e.receives == 0
      && e.ctl == Calm(e.ctl.length, e.ctl.count, UNLOCKED) && MustWait(e.ctl, op)
    ensures CanRun(s, steps) && PerLock(s, steps, bound)
    ensures var e := Run(s, before);
      Run(s, steps) == e.(ctl := Calm(e.ctl.length, e.ctl.count, LOCKED_UNMODIFIED), pc := e.pc[t := Confirmed(op)], owner := Holds(t))
  {
    hide CanRun, PerLock, Run;
    steps := before;
    for i := 0 to 6
      invariant CanRun(s, steps) && PerLock(s, steps, bound)
      invariant var e := Run(s, before);
        Run(s, steps) == e.(
          ctl := if i < 4 then e.ctl else Lock(e.ctl), owner := if i < 3 then e.owner else Holds(t),
          pc := e.pc[t := [Idle, Try(op), Decided(op), Suspended(op), Locked(op), NotExpired(op), Confirmed(op)][i]])
    {
      var st := [Call(t, op), Attempt(t, true), SuspendAll(t), LockQueue(t), CheckTimeOut(t, false), Recheck(t)][i];
      OneMore(s, steps, st, bound);
      steps := steps + [st];
    }
  }

  /** Meanwhile, n interrupts that put an item in and n that take one out are all counted. */
  lemma {:induction false} Pairs(s: State, before: seq<Step>, n: nat, bound: nat) returns (steps: seq<Step>)
    requires CanRun(s, before) && PerLock(s, before, bound) && n <= INT8_MAX <= bound
    requires var e := Run(s, before);
      && TxLocked(e) && e.sends == e.receives == 0 && 0 < e.ctl.length
      && e.ctl == Calm(e.ctl.length, e.ctl.count, LOCKED_UNMODIFIED) && e.ctl.count <= e.ctl.length
    ensures CanRun(s, steps) && PerLock(s, steps, bound)
    ensures var e := Run(s, before);
      Run(s, steps) == e.(ctl := Calm(e.ctl.length, e.ctl.count, n), sends := n, receives := n)
  {
    hide CanRun, PerLock, Run;
    if n == 0 {
      steps := before;
    } else {
      steps := Pairs(s, before, n - 1, bound);
      var c := Run(s, steps).ctl;
      var st, next := SendFromIsr(false), ReceiveFromIsr;
      if c.count == c.length { st, next := next, st; }
      OneMore(s, steps, st, bound);
      steps := steps + [st];
      OneMore(s, steps, next, bound);
      steps := steps + [next];
    }
  }

  /**
   * One interrupt more than the counter can hold, after a task has seen that it
   * must wait and before it has placed itself: for any length of the queue, the
   * task comes to rest on a queue that has an item for it, or a free place.
   */
  lemma {:induction false} OverflowLosesWakeUp(s: State, t: nat, op: Op, bound: nat) returns (steps: seq<Step>)
    requires Init(s) && t in s.pc && 0 < s.ctl.length && INT8_MAX < bound && (op == Receive || op == Send)
    ensures CanRun(s, steps) && PerLock(s, steps, bound) && AtRest(Run(s, steps))
    ensures var c := Run(s, steps).ctl;
      if op == Receive then c == Calm(s.ctl.length, 1, UNLOCKED).(rx := [t])
      else c == Calm(s.ctl.length, s.ctl.length - 1, UNLOCKED).(tx := [t])
  {
    hide CanRun, PerLock, Run, Do, Enabled;
    steps := Fill(s, if op == Receive then 0 else s.ctl.length, bound);
    steps := Arrive(s, steps, t, op, bound);
    steps := Pairs(s, steps, INT8_MAX, bound);
    var last := if op == Receive then SendFromIsr(false) else ReceiveFromIsr;
    CounterRunsFull(s, Run(s, steps), t, op, last);
    OneMore(s, steps, last, bound);
    steps := steps + [last];
    for i := 0 to 4
      invariant CanRun(s, steps) && PerLock(s, steps, bound)
      invariant Run(s, steps) == Ending(s, t, op, i)
    {
      var st := [Place(t, 0), UnlockTxHalf(t), UnlockRxHalf(t), ResumeAll(t)][i];
      EndingStep(s, t, op, i, st);
      OneMore(s, steps, st, bound);
      steps := steps + [st];
    }
  }

  lemma CounterRunsFull(s: State, e: State, t: nat, op: Op, last: Step)
    requires 0 < s.ctl.length && t in s.pc && (op == Receive || op == Send)
    requires last == if op == Receive then SendFromIsr(false) else ReceiveFromIsr
    requires e == State(Calm(s.ctl.length, if op == Receive then 0 else s.ctl.length, INT8_MAX), s.pc[t := Confirmed(op)], Holds(t), INT8_MAX, INT8_MAX)
    ensures Enabled(e, last) && Do(e, last) == Ending(s, t, op, 0)
  {
  }

  lemma EndingStep(s: State, t: nat, op: Op, i: nat, st: Step)
    requires i < 4 && 0 < s.ctl.length && t in s.pc && (op == Receive || op == Send)
    requires st == [Place(t, 0), UnlockTxHalf(t), UnlockRxHalf(t), ResumeAll(t)][i]
    ensures var e := Ending(s, t, op, i); Enabled(e, st) && Do(e, st) == Ending(s, t, op, i + 1)
  {
  }

  /** The states of that run from the last interrupt on. */
  function Ending(s: State, t: nat, op: Op, i: nat): State
    requires i <= 4 && 0 < s.ctl.length
  {
    var count := if op == Receive then 1 else s.ctl.length - 1;
    State(
      Control(s.ctl.length, count,
        if 0 < i && op == Receive then [t] else [], if 0 < i && op == Send then [t] else [],
        if 2 < i then UNLOCKED else if op == Receive then INT8_MAX else -128,
        if 1 < i then UNLOCKED else if op == Receive then -128 else INT8_MAX, {}, {}),
      s.pc[t := [Confirmed(op), Unlocking(op, Block), HalfUnlocked(op, Block), Unlocked(op, Block), Blocked(op)][i]],
      if i < 4 then Holds(t) else Nobody,
      if op == Receive then 128 else 127, if op == Receive then 127 else 128)
  }

  /** Every run in which no lock sees more than so many sends, or receives, from interrupts keeps the match. */
  ghost predicate AllSafe(s: State, bound: nat) {
    forall steps | CanRun(s, steps) && PerLock(s, steps, bound) :: Matched(Run(s, steps).ctl)
  }

  /** Wake-ups are safe in all runs if and only if a lock sees at most 127 sends and 127 receives from interrupts. */
  lemma SafeIffCountersSuffice(s: State, t: nat, bound: nat)
    requires Init(s) && t in s.pc && 0 < s.ctl.length
    ensures AllSafe(s, bound) <==> bound <= INT8_MAX
  {
    hide CanRun, PerLock, Run;
    if bound <= INT8_MAX {
      forall steps | CanRun(s, steps) && PerLock(s, steps, bound) ensures Matched(Run(s, steps).ctl) {
        SmallerLimit(s, steps, bound, INT8_MAX);
        NoLostWakeUp(s, steps);
      }
    } else {
      var steps := OverflowLosesWakeUp(s, t, Receive, bound);
      assert !Matched(Run(s, steps).ctl);
    }
  }

  lemma {:induction false} SmallerLimit(s: State, steps: seq<Step>, small: nat, large: nat)
    requires CanRun(s, steps) && PerLock(s, steps, small) && small <= large
    ensures PerLock(s, steps, large)
    decreases |steps|
  {
    if steps != [] { SmallerLimit(Do(s, steps[0]), steps[1..], small, large); }
  }
}
