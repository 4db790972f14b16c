/**
 * The tick, delay and scheduling core of tasks.c.  The concrete state counts
 * ticks modulo w and keeps two delay lists that swap when the count wraps.
 */
module Kernel {
  import opened Arithmetic
  import opened DelayLists
  import Inheritance = PriorityInheritance
  import opened SortedItems

  function AtLeastOne(ticks: int): (r: int)
    ensures 0 < ticks ==> r == ticks
    ensures 0 <= ticks ==> 0 < r
  {
    if ticks == 0 then 1 else ticks
  }

  class Kernel {
    const w: int                          // number of tick readings
    const maxPriorities: nat
    const initialTickCount: int           // configINITIAL_TICK_COUNT
    var tickCount: int                    // xTickCount
    var nextTaskUnblockTime: int
    var numOfOverflows: int
    var schedulerRunning: bool
    var schedulerSuspended: nat
    var pendedTicks: int
    var topReadyPriority: nat
    var current: nat                      // pxCurrentTCB
    var priority: map<nat, nat>           // uxPriority
    var basePriority: map<nat, nat>
    var mutexesHeld: map<nat, nat>
    var ready: ReadyLists
    var delayed: seq<Item>                // pxDelayedTaskList
    var overflowDelayed: seq<Item>        // pxOverflowDelayedTaskList
    var suspendedTasks: set<nat>          // xSuspendedTaskList
    var pendingReady: set<nat>            // xPendingReadyList
    var onEventList: set<nat>             // tasks whose event item is on an object's event list

    ghost var epoch: int                  // unbounded time of the last wrap of the tick count
    ghost var delivered: int              // the initial count and the tick interrupts so far
    ghost var lostWraps: nat              // how often xPendedTicks wrapped
    ghost var status: Statuses
    ghost var history: seq<Event>         // in processed time, since the first task was created
    ghost const origin: Clocked

    /** The processed time on the unbounded clock. */
    ghost function Now(): int
      reads `epoch, `tickCount
    {
      epoch + tickCount
    }

    /** The state of the delay lists when every tick up to `low` of this epoch has been processed. */
    ghost predicate Consistent(low: int)
      reads `tickCount, `nextTaskUnblockTime, `numOfOverflows, `current, `priority, `ready, `topReadyPriority, `delayed, `overflowDelayed, `epoch, `status,
        `suspendedTasks, `pendingReady, `onEventList
    {
      && Core(low)
      && Waiting(suspendedTasks, pendingReady, onEventList, status)
    }

    ghost predicate Core(low: int)
      reads `tickCount, `nextTaskUnblockTime, `numOfOverflows, `current, `priority, `ready, `topReadyPriority, `delayed, `overflowDelayed, `epoch, `status
    {
      && 1 < w && 0 <= tickCount < w && 0 <= nextTaskUnblockTime < w && WrapsMake(w, numOfOverflows, epoch)
      && current in status && |ready| == maxPriorities
      && ReadyByPriority(ready, priority, status)
      && TopBounds(ready, topReadyPriority)
      && Delays(w, delayed, overflowDelayed, epoch, low, status)
    }

    /**
     * What holds between kernel calls: every delivered tick is counted, except
     * when the pended ones wrap; and the history explains every task's status.
     */
    ghost predicate Valid()
      reads this
    {
      && Consistent(tickCount)
      && CacheIsEarly(delayed, nextTaskUnblockTime)
      && (schedulerSuspended == 0 ==> pendedTicks == 0 && pendingReady == {})
      && 0 <= pendedTicks < w && WrapsMake(w, lostWraps, delivered - epoch - tickCount - pendedTicks)
      && Journal(origin, history, status, epoch + tickCount, basePriority, mutexesHeld, maxPriorities)
    }

    lemma NobodyIsDue()
      requires Consistent(tickCount)
      ensures Elapse(status, Now()) == status
    {
      AllInFuture(w, delayed, overflowDelayed, epoch, tickCount, status, Now());
    }

    /** prvInitialiseTaskLists, and the first task created. */
    constructor (w: int, maxPriorities: nat, initialTickCount: int, first: nat, p: nat)
      requires 1 < w && p < maxPriorities && 0 <= initialTickCount < w
      ensures Valid() && status == map[first := Ready] && Now() == initialTickCount && current == first
      ensures priority == map[first := p] && basePriority == map[first := p] && mutexesHeld == map[first := 0]
      ensures this.w == w && this.maxPriorities == maxPriorities && this.initialTickCount == initialTickCount
      ensures !schedulerRunning && schedulerSuspended == 0
      ensures tickCount == initialTickCount && delayed == [] && lostWraps == 0 && delivered == Now() && history == []
    {
      this.w, this.maxPriorities, this.initialTickCount := w, maxPriorities, initialTickCount;
      tickCount, nextTaskUnblockTime, numOfOverflows := initialTickCount, 0, 0;
      schedulerRunning, schedulerSuspended, pendedTicks := false, 0, 0;
      topReadyPriority, current := p, first;
      priority, basePriority, mutexesHeld := map[first := p], map[first := p], map[first := 0];
      ready := seq(maxPriorities, i => if i == p then {first} else {});
      delayed, overflowDelayed, suspendedTasks, pendingReady, onEventList := [], [], {}, {}, {};
      epoch, delivered, lostWraps := 0, initialTickCount, 0;
      status, history, origin := map[first := Ready], [], Clocked(map[first := Ready], initialTickCount);
    }

    /** What vTaskStartScheduler does to the tick, before the first tick can arrive. */
    method StartScheduler()
      requires Valid() && !schedulerRunning && tickCount == initialTickCount && delayed == []
      modifies `schedulerRunning, `tickCount, `nextTaskUnblockTime
      ensures Valid() && schedulerRunning && tickCount == initialTickCount && nextTaskUnblockTime == w - 1
    {
      hide Delays, TopBounds, Waiting, ReadyByPriority, CacheIsEarly, WrapsMake, Journal;
      EmptyCache(w - 1);
      nextTaskUnblockTime := w - 1;
      schedulerRunning := true;
      tickCount := initialTickCount;
    }

    /** Of the ticks delivered, all are processed or pended but for whole wraps. */
    lemma DeliveredTicks()
      requires Valid()
      ensures delivered == Now() + pendedTicks + lostWraps * w
    {
    }

    /** prvAddTaskToReadyList, for a task that is on no state list. */
    method AddTaskToReadyList(t: nat, ghost before: Statuses)
      requires t in before && ReadyByPriority(ready, priority, before) && TopBounds(ready, topReadyPriority)
      modifies `ready, `topReadyPriority
      ensures ReadyByPriority(ready, priority, before[t := Ready]) && TopBounds(ready, topReadyPriority) && |ready| == |old(ready)|
      ensures t in priority && topReadyPriority == if priority[t] > old(topReadyPriority) then priority[t] else old(topReadyPriority)
    {
      AddReady(ready, priority, before, t);
      if priority[t] > topReadyPriority {
        topReadyPriority := priority[t];
      }
      ready := ready[priority[t] := ready[priority[t]] + {t}];
    }

    /** prvResetNextTaskUnblockTime. */
    method ResetNextTaskUnblockTime()
      requires Consistent(tickCount) || Consistent(-1)
      modifies `nextTaskUnblockTime
      ensures 0 <= nextTaskUnblockTime < w && CacheIsEarly(delayed, nextTaskUnblockTime) && CacheIsExact(w, delayed, nextTaskUnblockTime)
      ensures old(Consistent(tickCount)) ==> Consistent(tickCount)
    {
      if delayed == [] {
        nextTaskUnblockTime := w - 1;
      } else {
        Head(delayed);
        nextTaskUnblockTime := delayed[0].value;
      }
    }

    /**
     * The loop of xTaskIncrementTick: moves every task whose time has come from
     * the head of the delay list to its ready list, and off any event list.
     */
    method UnblockDueTasks()
      requires Consistent(tickCount - 1) && pendingReady == {}
      modifies `delayed, `ready, `topReadyPriority, `nextTaskUnblockTime, `onEventList, `status
      ensures Consistent(tickCount) && CacheIsEarly(delayed, nextTaskUnblockTime) && CacheIsExact(w, delayed, nextTaskUnblockTime)
      ensures status == Elapse(old(status), Now())
      ensures onEventList == StillWaiting(old(onEventList), status)
    {
      hide Delays, ReadyByPriority, TopBounds, Waiting, StillWaiting, CacheIsEarly, Elapse;
      NobodyReadied(suspendedTasks, pendingReady, onEventList, status);
      while true
        invariant Consistent(tickCount - 1)
        invariant Elapse(status, Now()) == Elapse(old(status), Now())
        invariant onEventList == StillWaiting(old(onEventList), status)
        decreases |delayed|
      {
        if delayed == [] {
          nextTaskUnblockTime := w - 1;
          EmptyCache(w - 1);
          break;
        }
        WakeHead(w, delayed, overflowDelayed, epoch, tickCount - 1, status);
        var t := delayed[0].owner;
        var itemValue := delayed[0].value;
        if tickCount < itemValue {
          nextTaskUnblockTime := itemValue;
          break;
        }
        delayed := delayed[1..];
        TimeOutWaiter(suspendedTasks, onEventList, old(onEventList), status, t);
        if t in onEventList {
          onEventList := onEventList - {t};
        }
        assert onEventList == StillWaiting(old(onEventList), status[t := Ready]);
        AddTaskToReadyList(t, status);
        ElapseOne(status, Now(), t);
        status := status[t := Ready];
      }
      NoneBeforeHead(w, delayed, overflowDelayed, epoch, tickCount - 1, status, Now());
      ElapseNothing(status, Now());
    }

    /** The first part of xTaskIncrementTick: counts the tick, and swaps the delay lists if the count wraps. */
    method CountTick()
      requires Consistent(tickCount) && CacheIsEarly(delayed, nextTaskUnblockTime)
      modifies `tickCount, `numOfOverflows, `nextTaskUnblockTime, `delayed, `overflowDelayed, `epoch
      ensures Consistent(tickCount - 1) && CacheIsEarly(delayed, nextTaskUnblockTime) && Now() == old(Now()) + 1
    {
      hide Delays, ReadyByPriority, TopBounds, Waiting, CacheIsEarly, WrapsMake;
      var constTickCount := if tickCount + 1 == w then 0 else tickCount + 1;
      if constTickCount == 0 {
        SwitchDelays(w, delayed, overflowDelayed, epoch, status);
        tickCount := 0;
        delayed, overflowDelayed := overflowDelayed, delayed;
        OneMoreWrap(w, numOfOverflows, epoch);
        numOfOverflows := numOfOverflows + 1;
        epoch := epoch + w;
        ResetNextTaskUnblockTime();
      } else {
        tickCount := constTickCount;
      }
    }

    /**
     * xTaskIncrementTick.  While the scheduler runs, one tick passes and exactly
     * the tasks due at it become ready, although the delay list is scanned only
     * when the cached time is reached; while it is suspended, the tick is pended,
     * in a counter that wraps.
     */
    method IncrementTick()
      requires Consistent(tickCount) && CacheIsEarly(delayed, nextTaskUnblockTime)
      requires (schedulerSuspended == 0 ==> pendingReady == {}) && 0 <= pendedTicks < w
      modifies `tickCount, `numOfOverflows, `nextTaskUnblockTime, `pendedTicks, `delayed, `overflowDelayed,
        `ready, `topReadyPriority, `onEventList, `status, `epoch
      ensures Consistent(tickCount) && CacheIsEarly(delayed, nextTaskUnblockTime)
      ensures schedulerSuspended != 0 ==>
        && Now() == old(Now()) && status == old(status) && onEventList == old(onEventList)
        && pendedTicks == if old(pendedTicks) + 1 < w then old(pendedTicks) + 1 else 0
      ensures schedulerSuspended == 0 ==>
        && Now() == old(Now()) + 1 && pendedTicks == old(pendedTicks)
        && status == Elapse(old(status), Now()) && onEventList == StillWaiting(old(onEventList), status)
        && (forall t | t in status :: status[t] == if old(status)[t].Timed? && old(status)[t].wake <= Now() then Ready else old(status)[t])
        && (forall t :: t in onEventList <==> t in old(onEventList) && t in status && !status[t].Ready?)
    {
      hide Delays, ReadyByPriority, TopBounds, Elapse, Readied, Waiting, StillWaiting, CacheIsEarly, WrapsMake;
      NobodyReadied(suspendedTasks, pendingReady, onEventList, status);
      WhoIsReady(status, suspendedTasks, pendingReady, onEventList, {}, Now() + 1);
      ReadiedNone(status);
      if schedulerSuspended == 0 {
        CountTick();
        if tickCount >= nextTaskUnblockTime {
          UnblockDueTasks();
        } else {
          NotYetDue(w, delayed, overflowDelayed, epoch, tickCount - 1, status, nextTaskUnblockTime, Now());
        }
      } else {
        pendedTicks := if pendedTicks + 1 == w then 0 else pendedTicks + 1;
      }
    }

    /** The tick interrupt. */
    method TickInterrupt()
      requires Valid()
      modifies `tickCount, `numOfOverflows, `nextTaskUnblockTime, `pendedTicks, `delayed, `overflowDelayed,
        `ready, `topReadyPriority, `onEventList, `status, `epoch, `delivered, `lostWraps, `history
      ensures Valid() && delivered == old(delivered) + 1
      ensures schedulerSuspended == 0 ==>
        && Now() == old(Now()) + 1 && pendedTicks == 0 && lostWraps == old(lostWraps)
        && status == Elapse(old(status), Now()) && onEventList == StillWaiting(old(onEventList), status) && history == old(history) + [Tick]
      ensures schedulerSuspended != 0 ==>
        && Now() == old(Now()) && status == old(status) && history == old(history) && onEventList == old(onEventList)
        && pendedTicks == (if old(pendedTicks) + 1 < w then old(pendedTicks) + 1 else 0)
        && lostWraps == old(lostWraps) + if old(pendedTicks) + 1 < w then 0 else 1
    {
      hide Delays, ReadyByPriority, TopBounds, Elapse, Waiting, StillWaiting, CacheIsEarly, WrapsMake, Journal;
      JournalTick(origin, history, status, Now(), basePriority, mutexesHeld, maxPriorities);
      OneMoreWrap(w, lostWraps, delivered - Now() - pendedTicks);
      IncrementTick();
      delivered := delivered + 1;
      if schedulerSuspended == 0 {
        history := history + [Tick];
      } else if pendedTicks == 0 {
        lostWraps := lostWraps + 1;
      }
    }

    /** vTaskSuspendAll. */
    method SuspendAll()
      requires Valid()
      modifies `schedulerSuspended
      ensures Valid() && schedulerSuspended == old(schedulerSuspended) + 1
    {
      schedulerSuspended := schedulerSuspended + 1;
    }

    /** One round of the first loop of xTaskResumeAll. */
    method ReadyPending(t: nat)
      requires Consistent(tickCount) && CacheIsEarly(delayed, nextTaskUnblockTime) && t in pendingReady
      modifies `pendingReady, `delayed, `overflowDelayed, `suspendedTasks, `ready, `topReadyPriority, `status
      ensures Consistent(tickCount) && CacheIsEarly(delayed, nextTaskUnblockTime)
      ensures pendingReady == old(pendingReady) - {t} && t in old(status) && status == old(status)[t := Ready]
    {
      hide Delays, ReadyByPriority, TopBounds, Waiting, CacheIsEarly;
      WakePending(suspendedTasks, pendingReady, onEventList, status, t);
      HasPriority(ready, priority, status, t);
      HasPriority(ready, priority, status, current);
      pendingReady := pendingReady - {t};
      RemoveFromStateList(t);
      AddTaskToReadyList(t, status);
      status := status[t := Ready];
    }

    /** The first loop of xTaskResumeAll: every task that an event released becomes ready. */
    method ReadyPendingTasks() returns (any: bool)
      requires Consistent(tickCount) && CacheIsEarly(delayed, nextTaskUnblockTime)
      modifies `pendingReady, `delayed, `overflowDelayed, `suspendedTasks, `ready, `topReadyPriority, `status
      ensures Consistent(tickCount) && CacheIsEarly(delayed, nextTaskUnblockTime)
      ensures pendingReady == {} && status == Readied(old(status), old(pendingReady)) && (any <==> old(pendingReady) != {})
    {
      hide Consistent, Readied, CacheIsEarly;
      any := false;
      ghost var s0, done := status, {};
      ReadiedNone(status);
      while pendingReady != {}
        invariant Consistent(tickCount) && CacheIsEarly(delayed, nextTaskUnblockTime)
        invariant done + pendingReady == old(pendingReady) && (any <==> done != {})
        invariant status == Readied(s0, done) && status.Keys == s0.Keys
        decreases pendingReady
      {
        var t :| t in pendingReady;
        any := true;
        ReadyPending(t);
        ReadiedOneMore(s0, done, t);
        done := done + {t};
      }
      assert done == old(pendingReady);
    }

    /** Takes the state item of a task that is not ready off the list that holds it. */
    method RemoveFromStateList(t: nat)
      requires t in status && !status[t].Ready?
      requires Delays(w, delayed, overflowDelayed, epoch, tickCount, status) && CacheIsEarly(delayed, nextTaskUnblockTime)
      modifies `delayed, `overflowDelayed, `suspendedTasks
      ensures Delays(w, delayed, overflowDelayed, epoch, tickCount, status[t := Ready]) && CacheIsEarly(delayed, nextTaskUnblockTime)
      ensures suspendedTasks == old(suspendedTasks) - {t}
    {
      hide Remove;
      UndelayTask(w, delayed, overflowDelayed, epoch, tickCount, status, t, Ready);
      if t in suspendedTasks {
        suspendedTasks := suspendedTasks - {t};
      }
      delayed, overflowDelayed := Remove(delayed, t), Remove(overflowDelayed, t);
    }

    /** The second loop of xTaskResumeAll: replays every pended tick as if it had just arrived. */
    method ReplayPendedTicks()
      requires Consistent(tickCount) && CacheIsEarly(delayed, nextTaskUnblockTime)
      requires schedulerSuspended == 0 && pendingReady == {} && 0 <= pendedTicks < w
      modifies `tickCount, `numOfOverflows, `nextTaskUnblockTime, `pendedTicks, `delayed, `overflowDelayed,
        `ready, `topReadyPriority, `onEventList, `status, `epoch
      ensures Consistent(tickCount) && CacheIsEarly(delayed, nextTaskUnblockTime)
      ensures pendedTicks == 0
      ensures Now() == old(Now() + pendedTicks) && status == Elapse(old(status), Now())
      ensures onEventList == StillWaiting(old(onEventList), status)
    {
      hide Delays, ReadyByPriority, TopBounds, Elapse, CacheIsEarly, Waiting, StillWaiting, WrapsMake;
      AllInFuture(w, delayed, overflowDelayed, epoch, tickCount, status, Now());
      NobodyReadied(suspendedTasks, pendingReady, onEventList, status);
      var pendedCounts := pendedTicks;
      while pendedCounts > 0
        invariant 0 <= pendedCounts && pendedTicks == old(pendedTicks)
        invariant Consistent(tickCount) && CacheIsEarly(delayed, nextTaskUnblockTime)
        invariant Now() + pendedCounts == old(Now() + pendedTicks) && old(Now()) <= Now()
        invariant status == Elapse(old(status), Now()) && onEventList == StillWaiting(old(onEventList), status)
        decreases pendedCounts
      {
        ghost var before, s1 := Now(), status;
        IncrementTick();
        ElapseTwice(old(status), before, Now());
        ElapseKeepsReady(s1, Now());
        StillWaitingTwice(old(onEventList), s1, status);
        pendedCounts := pendedCounts - 1;
      }
      pendedTicks := 0;
    }

    /**
     * xTaskResumeAll.  The outermost call makes every released task ready and
     * then catches up with every tick that arrived meanwhile.
     */
    method ResumeAll()
      requires Valid() && schedulerSuspended > 0
      modifies `schedulerSuspended, `pendingReady, `suspendedTasks, `tickCount, `numOfOverflows, `nextTaskUnblockTime,
        `pendedTicks, `delayed, `overflowDelayed, `ready, `topReadyPriority, `onEventList, `status, `epoch, `history
      ensures Valid() && schedulerSuspended == old(schedulerSuspended) - 1
      ensures schedulerSuspended > 0 ==>
        && Now() == old(Now()) && status == old(status) && pendedTicks == old(pendedTicks)
        && pendingReady == old(pendingReady) && history == old(history) && onEventList == old(onEventList)
      ensures schedulerSuspended == 0 ==>
        && pendedTicks == 0 && pendingReady == {} && Now() == old(Now() + pendedTicks) && status.Keys == old(status).Keys
        && (forall t | t in status :: status[t] ==
              if t in old(pendingReady) || (old(status)[t].Timed? && old(status)[t].wake <= Now()) then Ready else old(status)[t])
        && (forall t :: t in onEventList <==> t in old(onEventList) && t in status && !status[t].Ready?)
        && history == old(history) + [Release(old(pendingReady))] + TickEvents(old(pendedTicks))
    {
      hide Delays, ReadyByPriority, TopBounds, Elapse, Readied, CacheIsEarly, Waiting, StillWaiting, WrapsMake, Journal;
      schedulerSuspended := schedulerSuspended - 1;
      if schedulerSuspended == 0 {
        WhoIsReady(status, suspendedTasks, pendingReady, onEventList, pendingReady, Now() + pendedTicks);
        CatchUp();
      }
    }

    /** The part of xTaskResumeAll that only the outermost call runs. */
    method CatchUp()
      requires schedulerSuspended == 0 && Consistent(tickCount) && CacheIsEarly(delayed, nextTaskUnblockTime)
      requires 0 <= pendedTicks < w && WrapsMake(w, lostWraps, delivered - epoch - tickCount - pendedTicks)
      requires Journal(origin, history, status, Now(), basePriority, mutexesHeld, maxPriorities)
      modifies `pendingReady, `suspendedTasks, `tickCount, `numOfOverflows, `nextTaskUnblockTime,
        `pendedTicks, `delayed, `overflowDelayed, `ready, `topReadyPriority, `onEventList, `status, `epoch, `history
      ensures Valid()
      ensures pendedTicks == 0 && pendingReady == {} && Now() == old(Now() + pendedTicks)
      ensures status == Elapse(Readied(old(status), old(pendingReady)), Now()) && onEventList == StillWaiting(old(onEventList), status)
      ensures history == old(history) + [Release(old(pendingReady))] + TickEvents(old(pendedTicks))
    {
      hide Consistent, Elapse, Readied, CacheIsEarly, StillWaiting, WrapsMake, Journal;
      NobodyIsDue();
      JournalCatchUp(origin, history, status, Now(), basePriority, mutexesHeld, maxPriorities, pendingReady, pendedTicks);
      history := history + [Release(pendingReady)] + TickEvents(pendedTicks);
      var any := ReadyPendingTasks();
      if any {
        ResetNextTaskUnblockTime();
      }
      ReplayPendedTicks();
    }

    /** The part of prvAddCurrentTaskToDelayedList that chooses a delay list by the wrapped wake time. */
    method InsertInDelayList(ticks: int)
      requires 0 <= tickCount < w && 0 <= nextTaskUnblockTime < w && current in status && !status[current].Timed?
      requires 0 <= ticks < w && (ticks == 0 ==> tickCount + 1 < w)
      requires Delays(w, delayed, overflowDelayed, epoch, tickCount, status) && CacheIsEarly(delayed, nextTaskUnblockTime)
      modifies `delayed, `overflowDelayed, `nextTaskUnblockTime
      ensures Delays(w, delayed, overflowDelayed, epoch, tickCount, status[current := Timed(Now() + AtLeastOne(ticks))])
      ensures CacheIsEarly(delayed, nextTaskUnblockTime) && 0 <= nextTaskUnblockTime < w
      ensures nextTaskUnblockTime == old(nextTaskUnblockTime) || (nextTaskUnblockTime == tickCount + ticks < old(nextTaskUnblockTime))
    {
      hide Delays, Insert;
      var timeToWake := if tickCount + ticks < w then tickCount + ticks else tickCount + ticks - w;
      DelayTask(w, delayed, overflowDelayed, epoch, tickCount, status, current, Now() + AtLeastOne(ticks));
      if timeToWake < tickCount {
        overflowDelayed := Insert(overflowDelayed, Item(current, timeToWake));
      } else {
        delayed := Insert(delayed, Item(current, timeToWake));
        if timeToWake < nextTaskUnblockTime {
          nextTaskUnblockTime := timeToWake;
        }
      }
    }

    /** What a block for `ticks` ticks makes of the running task; a block for no tick lasts until the next one. */
    ghost function BlockedFor(ticks: int, canBlockIndefinitely: bool): Status
      reads this
    {
      if ticks == w - 1 && canBlockIndefinitely then Unlimited else Timed(Now() + AtLeastOne(ticks))
    }

    /**
     * prvAddCurrentTaskToDelayedList: blocks the running task, which may already
     * stand on an event list, for `ticks` ticks of processed time or without limit.
     */
    method AddCurrentTaskToDelayedList(ticks: int, canBlockIndefinitely: bool)
      requires Core(tickCount) && CacheIsEarly(delayed, nextTaskUnblockTime)
      requires Waiting(suspendedTasks, pendingReady, onEventList - {current}, status)
      requires status[current].Ready? && 0 <= ticks < w && (ticks == 0 ==> tickCount + 1 < w)
      modifies `ready, `delayed, `overflowDelayed, `suspendedTasks, `nextTaskUnblockTime, `status
      ensures Consistent(tickCount) && CacheIsEarly(delayed, nextTaskUnblockTime)
      ensures status == old(status)[current := old(BlockedFor(ticks, canBlockIndefinitely))]
    {
      hide Delays, ReadyByPriority, TopBounds, WrapsMake, CacheIsEarly;
      HasPriority(ready, priority, status, current);
      ghost var blocked := BlockedFor(ticks, canBlockIndefinitely);
      RemoveReady(ready, priority, status, current, blocked);
      SmallerStaysBounded(ready, topReadyPriority, priority[current], current);
      ready := ready[priority[current] := ready[priority[current]] - {current}];
      if ticks == w - 1 && canBlockIndefinitely {
        DelaysOfOthers(w, delayed, overflowDelayed, epoch, tickCount, status, current, Unlimited);
        suspendedTasks := suspendedTasks + {current};
      } else {
        InsertInDelayList(ticks);
      }
      status := status[current := blocked];
    }

    /** vTaskDelay's blocking step. */
    method DelayCurrent(ticks: int)
      requires Valid() && status[current].Ready? && 0 < ticks < w
      modifies `ready, `delayed, `overflowDelayed, `suspendedTasks, `nextTaskUnblockTime, `status, `history
      ensures Valid() && status == old(status)[current := Timed(Now() + ticks)]
      ensures history == old(history) + [Block(current, ticks)]
    {
      hide Delays, ReadyByPriority, TopBounds, Waiting, CacheIsEarly, WrapsMake, Journal;
      NotWaiting(suspendedTasks, pendingReady, onEventList, status, current);
      JournalBlock(origin, history, status, Now(), basePriority, mutexesHeld, maxPriorities, current, ticks);
      AddCurrentTaskToDelayedList(ticks, false);
      history := history + [Block(current, ticks)];
    }

    /** vTaskPlaceOnEventList and vTaskPlaceOnUnorderedEventList, the scheduler being suspended and the object locked. */
    method PlaceOnEventList(ticks: int)
      requires Valid() && status[current].Ready? && 0 <= ticks < w && (ticks == 0 ==> tickCount + 1 < w)
      modifies `ready, `delayed, `overflowDelayed, `suspendedTasks, `nextTaskUnblockTime, `status, `onEventList, `history
      ensures Valid() && onEventList == old(onEventList) + {current}
      ensures status == old(status)[current := old(BlockedFor(ticks, true))]
      ensures history == old(history) + [if ticks == w - 1 then BlockForever(current) else Block(current, AtLeastOne(ticks))]
    {
      hide Delays, ReadyByPriority, TopBounds, Waiting, CacheIsEarly, WrapsMake, Journal;
      Wait(ticks, true);
    }

    /** The step that all placings on an event list share. */
    method Wait(ticks: int, canBlockIndefinitely: bool)
      requires Valid() && status[current].Ready? && 0 <= ticks < w && (ticks == 0 ==> tickCount + 1 < w)
      modifies `ready, `delayed, `overflowDelayed, `suspendedTasks, `nextTaskUnblockTime, `status, `onEventList, `history
      ensures Valid() && onEventList == old(onEventList) + {current}
      ensures status == old(status)[current := old(BlockedFor(ticks, canBlockIndefinitely))]
      ensures history == old(history) +
        [if ticks == w - 1 && canBlockIndefinitely then BlockForever(current) else Block(current, AtLeastOne(ticks))]
    {
      hide Delays, ReadyByPriority, TopBounds, Waiting, CacheIsEarly, WrapsMake, Journal;
      NotWaiting(suspendedTasks, pendingReady, onEventList, status, current);
      ghost var e := if ticks == w - 1 && canBlockIndefinitely then BlockForever(current) else Block(current, AtLeastOne(ticks));
      JournalBlock(origin, history, status, Now(), basePriority, mutexesHeld, maxPriorities, current, AtLeastOne(ticks));
      onEventList := onEventList + {current};
      assert onEventList - {current} == old(onEventList);
      AddCurrentTaskToDelayedList(ticks, canBlockIndefinitely);
      history := history + [e];
    }

    /** vTaskPlaceOnEventListRestricted, by which the timer daemon waits for a command or the next expiry. */
    method PlaceOnEventListRestricted(ticks: int, waitIndefinitely: bool)
      requires Valid() && status[current].Ready? && 0 <= ticks < w && (ticks == 0 && !waitIndefinitely ==> tickCount + 1 < w)
      modifies `ready, `delayed, `overflowDelayed, `suspendedTasks, `nextTaskUnblockTime, `status, `onEventList, `history
      ensures Valid() && onEventList == old(onEventList) + {current}
      ensures status == old(status)[current := if waitIndefinitely then Unlimited else Timed(old(Now()) + AtLeastOne(ticks))]
      ensures history == old(history) + [if waitIndefinitely then BlockForever(current) else Block(current, AtLeastOne(ticks))]
    {
      hide Delays, ReadyByPriority, TopBounds, Waiting, CacheIsEarly, WrapsMake, Journal;
      var ticksToWait := if waitIndefinitely then w - 1 else ticks;
      Wait(ticksToWait, waitIndefinitely);
    }

    /** The part that both removals from an event list share: the task leaves its state list and becomes ready. */
    method Unblock(t: nat)
      requires t in status && !status[t].Ready? && Core(tickCount) && CacheIsEarly(delayed, nextTaskUnblockTime)
      requires Waiting(suspendedTasks - {t}, pendingReady, onEventList, status[t := Ready])
      requires Journal(origin, history, status, Now(), basePriority, mutexesHeld, maxPriorities)
      modifies `delayed, `overflowDelayed, `suspendedTasks, `ready, `topReadyPriority, `status, `history
      ensures Consistent(tickCount) && CacheIsEarly(delayed, nextTaskUnblockTime)
      ensures Journal(origin, history, status, Now(), basePriority, mutexesHeld, maxPriorities)
      ensures status == old(status)[t := Ready] && history == old(history) + [Release({t})]
    {
      hide Delays, ReadyByPriority, TopBounds, Waiting, CacheIsEarly, WrapsMake, Journal, Readied;
      JournalRelease(origin, history, status, Now(), basePriority, mutexesHeld, maxPriorities, {t});
      ReadiedOne(status, t);
      RemoveFromStateList(t);
      AddTaskToReadyList(t, status);
      status := status[t := Ready];
      history := history + [Release({t})];
    }

    /**
     * xTaskRemoveFromEventList, for the task at the head of an event list: it
     * becomes ready at once, or is held pending while the scheduler is suspended.
     */
    method RemoveFromEventList(t: nat)
      requires Valid() && t in onEventList
      modifies `onEventList, `pendingReady, `delayed, `overflowDelayed, `suspendedTasks, `ready, `topReadyPriority, `status, `history
      ensures Valid() && onEventList == old(onEventList) - {t}
      ensures schedulerSuspended == 0 ==>
        status == old(status)[t := Ready] && pendingReady == old(pendingReady) && history == old(history) + [Release({t})]
      ensures schedulerSuspended != 0 ==>
        status == old(status) && pendingReady == old(pendingReady) + {t} && history == old(history)
    {
      hide Delays, ReadyByPriority, TopBounds, Waiting, CacheIsEarly, WrapsMake, Journal;
      WakeWaiter(suspendedTasks, pendingReady, onEventList, status, t);
      onEventList := onEventList - {t};
      if schedulerSuspended == 0 {
        Unblock(t);
      } else {
        pendingReady := pendingReady + {t};
      }
    }

    /**
     * vTaskRemoveFromUnorderedEventList, which event groups call for any of
     * their waiters while they keep the scheduler suspended: ready at once.
     */
    method RemoveFromUnorderedEventList(t: nat)
      requires Valid() && t in onEventList && schedulerSuspended > 0
      modifies `onEventList, `delayed, `overflowDelayed, `suspendedTasks, `ready, `topReadyPriority, `status, `history
      ensures Valid() && onEventList == old(onEventList) - {t}
      ensures status == old(status)[t := Ready] && history == old(history) + [Release({t})]
    {
      hide Delays, ReadyByPriority, TopBounds, Waiting, CacheIsEarly, WrapsMake, Journal;
      WakeWaiter(suspendedTasks, pendingReady, onEventList, status, t);
      onEventList := onEventList - {t};
      Unblock(t);
    }

    /** The part of prvAddNewTaskToReadyList that concerns the lists. */
    method EnterTask(t: nat, p: nat)
      requires Consistent(tickCount) && t !in status && p < maxPriorities
      modifies `priority, `ready, `topReadyPriority, `status
      ensures Consistent(tickCount) && status == old(status)[t := Ready] && priority == old(priority)[t := p]
    {
      hide Delays, TopBounds, Waiting, ReadyByPriority, WrapsMake;
      ghost var after, away := status[t := Ready], status[t := Unlimited];
      DelaysOfOthers(w, delayed, overflowDelayed, epoch, tickCount, status, t, Ready);
      NewTask(ready, priority, status, t, p, suspendedTasks, pendingReady, onEventList);
      priority := priority[t := p];
      AddTaskToReadyList(t, away);
      status := after;
    }

    /** A new task with its base priority, holding no mutex. */
    method AddNewTask(t: nat, p: nat)
      requires Valid() && t !in status && p < maxPriorities
      modifies `priority, `basePriority, `mutexesHeld, `ready, `topReadyPriority, `status, `history
      ensures Valid() && status == old(status)[t := Ready] && history == old(history) + [Create(t)]
      ensures priority == old(priority)[t := p] && basePriority == old(basePriority)[t := p] && mutexesHeld == old(mutexesHeld)[t := 0]
    {
      hide Consistent, CacheIsEarly, WrapsMake, Journal;
      JournalCreate(origin, history, status, Now(), basePriority, mutexesHeld, maxPriorities, t, p);
      EnterTask(t, p);
      basePriority, mutexesHeld, history := basePriority[t := p], mutexesHeld[t := 0], history + [Create(t)];
    }

    /**
     * The part of xTaskCreate that concerns scheduling: too high a priority is
     * cut to the highest there is, and until the scheduler runs, the last
     * created of the tasks of highest priority is the current one.
     */
    method CreateTask(t: nat, requested: nat)
      requires Valid() && t !in status
      modifies `priority, `basePriority, `mutexesHeld, `ready, `topReadyPriority, `status, `history, `current
      ensures Valid() && status == old(status)[t := Ready] && history == old(history) + [Create(t)]
      ensures 0 < maxPriorities && old(current) in old(priority)
      ensures
        var p := Capped(requested, maxPriorities);
        && priority == old(priority)[t := p] && basePriority == old(basePriority)[t := p] && mutexesHeld == old(mutexesHeld)[t := 0]
        && current == if !schedulerRunning && old(priority)[old(current)] <= p then t else old(current)
    {
      hide Delays, TopBounds, Waiting, ReadyByPriority, CacheIsEarly, Capped, WrapsMake, Journal;
      HasPriority(ready, priority, status, current);
      var p := Capped(requested, maxPriorities);
      AddNewTask(t, p);
      if !schedulerRunning {
        if priority[current] <= p {
          current := t;
        }
      }
    }

    /**
     * taskSELECT_HIGHEST_PRIORITY_TASK: as long as some task is ready, the search
     * down from the recorded bound ends at a highest-priority ready task.
     */
    method SelectHighestPriorityTask()
      requires Valid() && exists t | t in status :: status[t].Ready?
      modifies `current, `topReadyPriority
      ensures Valid() && status[current].Ready? && topReadyPriority == priority[current]
      ensures forall t | t in status && status[t].Ready? :: priority[t] <= priority[current]
    {
      hide Delays, Waiting, CacheIsEarly, WrapsMake, Journal;
      ghost var r :| r in status && status[r].Ready?;
      HasPriority(ready, priority, status, r);
      var topPriority := topReadyPriority;
      while ready[topPriority] == {}
        decreases topPriority
        invariant topPriority < |ready| && priority[r] <= topPriority
        invariant TopBounds(ready, topPriority)
      {
        topPriority := topPriority - 1;
      }
      var t :| t in ready[topPriority];
      current := t;
      topReadyPriority := topPriority;
    }

    /**
     * Gives a task a new priority, as inheriting and disinheriting do: a ready
     * task moves to the ready list of that priority.
     */
    method SetPriority(t: nat, p: nat)
      requires Valid() && t in status && p < maxPriorities
      modifies `priority, `ready, `topReadyPriority
      ensures Valid() && priority == old(priority)[t := p]
    {
      hide Delays, ReadyByPriority, TopBounds, Waiting, CacheIsEarly, WrapsMake, Journal;
      OnReadyList(ready, priority, status, t);
      if t in ready[priority[t]] {
        ghost var away := status[t := Unlimited];
        RemoveReady(ready, priority, status, t, Unlimited);
        SmallerStaysBounded(ready, topReadyPriority, priority[t], t);
        ready := ready[priority[t] := ready[priority[t]] - {t}];
        UnreadyMayChangePriority(ready, priority, away, t, p);
        priority := priority[t := p];
        AddTaskToReadyList(t, away);
        assert away[t := Ready] == status;
      } else {
        UnreadyMayChangePriority(ready, priority, status, t, p);
        priority := priority[t := p];
      }
    }

    /** pvTaskIncrementMutexHeldCount, called when the running task takes a mutex. */
    method IncrementMutexHeldCount() returns (holder: Inheritance.Holder)
      requires Valid()
      modifies `mutexesHeld
      ensures Valid() && holder == Inheritance.Some(current) && current in old(mutexesHeld)
      ensures mutexesHeld == old(mutexesHeld)[current := old(mutexesHeld)[current] + 1]
    {
      hide Delays, ReadyByPriority, TopBounds, Waiting, CacheIsEarly, WrapsMake, Journal;
      JournalHolds(origin, history, status, Now(), basePriority, mutexesHeld, maxPriorities, current);
      JournalCount(origin, history, status, Now(), basePriority, mutexesHeld, maxPriorities, current, mutexesHeld[current] + 1);
      mutexesHeld := mutexesHeld[current := mutexesHeld[current] + 1];
      holder := Inheritance.Some(current);
    }

    /** xTaskPriorityInherit, called by the running task as it is about to block on the holder's mutex. */
    method PriorityInherit(holder: Inheritance.Holder) returns (occurred: bool)
      requires Valid() && (holder.Some? ==> holder.t in status)
      modifies `priority, `ready, `topReadyPriority
      ensures Valid() && current in old(priority)
      ensures holder.None? ==> !occurred && priority == old(priority)
      ensures holder.Some? ==>
        && holder.t in old(priority)
        && holder.t in priority && priority == old(priority)[holder.t := priority[holder.t]]
        && Inheritance.IsMax(priority[holder.t], old(priority)[holder.t], old(priority)[current])
        && (occurred <==> old(priority)[holder.t] < old(priority)[current] || basePriority[holder.t] < old(priority)[current])
    {
      hide Delays, TopBounds, Waiting, ReadyByPriority, CacheIsEarly, WrapsMake, Journal;
      HasPriority(ready, priority, status, current);
      occurred := false;
      if holder.Some? {
        HasPriority(ready, priority, status, holder.t);
        JournalHolds(origin, history, status, Now(), basePriority, mutexesHeld, maxPriorities, holder.t);
        if priority[holder.t] < priority[current] {
          SetPriority(holder.t, priority[current]);
          occurred := true;
        } else if basePriority[holder.t] < priority[current] {
          occurred := true;
        }
      }
    }

    /** xTaskPriorityDisinherit, called by the holder as it gives the mutex back. */
    method PriorityDisinherit(holder: Inheritance.Holder) returns (switchRequired: bool)
      requires Valid()
      requires holder.Some? ==> holder.t == current && mutexesHeld[current] > 0
      modifies `priority, `mutexesHeld, `ready, `topReadyPriority
      ensures Valid() && current in old(priority)
      ensures holder.None? ==> !switchRequired && priority == old(priority) && mutexesHeld == old(mutexesHeld)
      ensures holder.Some? ==>
        && mutexesHeld == old(mutexesHeld)[current := old(mutexesHeld)[current] - 1]
        && priority == old(priority)[current := if mutexesHeld[current] == 0 then basePriority[current] else old(priority)[current]]
        && switchRequired == (priority[current] != old(priority)[current])
    {
      hide Delays, TopBounds, Waiting, ReadyByPriority, CacheIsEarly, WrapsMake, Journal;
      HasPriority(ready, priority, status, current);
      switchRequired := false;
      if holder.Some? {
        JournalHolds(origin, history, status, Now(), basePriority, mutexesHeld, maxPriorities, current);
        JournalCount(origin, history, status, Now(), basePriority, mutexesHeld, maxPriorities, current, mutexesHeld[current] - 1);
        mutexesHeld := mutexesHeld[current := mutexesHeld[current] - 1];
        if priority[current] != basePriority[current] {
          if mutexesHeld[current] == 0 {
            SetPriority(current, basePriority[current]);
            switchRequired := true;
          }
        }
      }
    }

    /** vTaskPriorityDisinheritAfterTimeout, called by a waiter that gave up. */
    method PriorityDisinheritAfterTimeout(holder: Inheritance.Holder, highestWaiting: nat)
      requires Valid() && highestWaiting < maxPriorities && (holder.Some? ==> holder.t in status)
      modifies `priority, `ready, `topReadyPriority
      ensures Valid()
      ensures holder.None? ==> priority == old(priority)
      ensures holder.Some? ==>
        && holder.t in old(priority) && holder.t in priority && priority == old(priority)[holder.t := priority[holder.t]]
        && if mutexesHeld[holder.t] == 1 then Inheritance.IsMax(priority[holder.t], basePriority[holder.t], highestWaiting)
           else priority == old(priority)
    {
      hide Delays, TopBounds, Waiting, ReadyByPriority, CacheIsEarly, WrapsMake, Journal;
      if holder.Some? {
        HasPriority(ready, priority, status, holder.t);
        JournalHolds(origin, history, status, Now(), basePriority, mutexesHeld, maxPriorities, holder.t);
        var priorityToUse := basePriority[holder.t];
        if basePriority[holder.t] < highestWaiting {
          priorityToUse := highestWaiting;
        }
        if priority[holder.t] != priorityToUse {
          if mutexesHeld[holder.t] == 1 {
            SetPriority(holder.t, priorityToUse);
          }
        }
      }
    }
  }

  /**
   * Delays of the kernel itself: whenever a task was blocked for d > 0 ticks,
   * and none of the events since then concerns it, it is blocked as long as
   * fewer than d ticks have been processed since, and ready from the d-th on.
   */
  lemma BlockedTaskWakesOnTime(k: Kernel, before: seq<Event>, since: seq<Event>, t: nat, d: int)
    requires k.Valid() && k.history == before + since && 0 < d
    requires var c := Run(k.origin, before); t in c.status && c.status[t] == Timed(c.now + d)
    requires forall e | e in since :: !Concerns(e, t)
    ensures t in k.status && k.status[t] == if Ticks(since) < d then Timed(Run(k.origin, before).now + d) else Ready
  {
    RunBoth(k.origin, before, since);
    BlockedForExactly(Run(k.origin, before), since, t, d);
  }

  /**
   * Ticks that arrive during a suspension are pended, but in a counter that
   * wraps: whole wraps of them are lost, so none is lost if and only if together
   * they are fewer than a wrap.
   */
  method PendTicks(k: Kernel, ticks: nat)
    requires k.Valid() && k.schedulerSuspended > 0
    modifies k
    ensures k.Valid() && k.schedulerSuspended == old(k.schedulerSuspended) && k.Now() == old(k.Now()) && k.delivered == old(k.delivered) + ticks
    ensures k.w > 0 && k.pendedTicks == (old(k.pendedTicks) + ticks) % k.w && k.lostWraps == old(k.lostWraps) + (old(k.pendedTicks) + ticks) / k.w
    ensures k.lostWraps == old(k.lostWraps) <==> old(k.pendedTicks) + ticks < k.w
  {
    k.DeliveredTicks();
    assert 0 <= k.pendedTicks < k.w;
    ghost var before, lost := k.pendedTicks, k.lostWraps;
    hide *;
    for n := 0 to ticks
      invariant k.Valid() && k.schedulerSuspended == old(k.schedulerSuspended) && k.Now() == old(k.Now()) && k.delivered == old(k.delivered) + n
      invariant 0 <= k.pendedTicks < k.w
    {
      k.TickInterrupt();
    }
    k.DeliveredTicks();
    WholeWrapsAreLost(k.w, before, k.pendedTicks, lost, k.lostWraps, ticks);
  }

  lemma {:induction false} WholeWrapsAreLost(w: int, before: int, after: int, lostBefore: int, lostAfter: int, ticks: int)
    requires 0 <= after < w && before + lostBefore * w + ticks == after + lostAfter * w
    ensures after == (before + ticks) % w && lostAfter == lostBefore + (before + ticks) / w
    ensures 0 <= before + ticks ==> (lostAfter == lostBefore <==> before + ticks < w)
  {
    var n := lostAfter - lostBefore;
    assert n * w == lostAfter * w - lostBefore * w;
    Remainder(before + ticks, after, n, w);
  }
}
