/**
 * The co-routine scheduler of croutine.c.  It keeps its own tick count, which
 * lags behind the kernel's and is replayed tick by tick when it next runs.
 * Interrupts may release co-routines between any two of its steps.
 */
module CoRoutines {
  import opened Arithmetic
  import opened DelayLists
  import opened SortedItems

  /**
   * From p0 pending and e0 on event lists, with some co-routines released by
   * interrupts and some timed out, to p and e: those that are not ready by now
   * still wait, the released ones among the pending.
   */
  ghost predicate Moved(p0: set<nat>, e0: set<nat>, released: set<nat>, p: set<nat>, e: set<nat>, s: Statuses) {
    released <= e0 && e == StillWaiting(e0 - released, s) && p == StillWaiting(p0 + released, s)
  }

  lemma NoneMoved(p: set<nat>, e: set<nat>, s: Statuses)
    requires Waiting({}, p, e, s)
    ensures Moved(p, e, {}, p, e, s)
  {
  }

  lemma MoreReleased(p0: set<nat>, e0: set<nat>, released: set<nat>, p: set<nat>, e: set<nat>, s: Statuses, ts: set<nat>)
    requires Moved(p0, e0, released, p, e, s) && ts <= e
    ensures Moved(p0, e0, released + ts, p + ts, e - ts, s)
  {
  }

  /** A co-routine that times out leaves both the event list and the pending list it may stand on. */
  lemma TimeOutCoRoutine(p0: set<nat>, e0: set<nat>, released: set<nat>, p: set<nat>, e: set<nat>, s: Statuses, t: nat)
    requires Waiting({}, p, e, s) && t in s && s[t].Timed? && Moved(p0, e0, released, p, e, s)
    ensures Waiting({}, p - {t}, e - {t}, s[t := Ready]) && Moved(p0, e0, released, p - {t}, e - {t}, s[t := Ready])
  {
  }

  lemma MovedTwice(p0: set<nat>, e0: set<nat>, r1: set<nat>, p1: set<nat>, e1: set<nat>, s1: Statuses, r2: set<nat>, p2: set<nat>, e2: set<nat>, s2: Statuses)
    requires Moved(p0, e0, r1, p1, e1, s1) && Moved(p1, e1, r2, p2, e2, s2)
    requires s1.Keys == s2.Keys && forall t | t in s1 && s1[t].Ready? :: s2[t].Ready?
    ensures Moved(p0, e0, r1 + r2, p2, e2, s2)
  {
  }

  lemma NowWaits(p: set<nat>, e: set<nat>, s: Statuses, t: nat, wake: int)
    requires Waiting({}, p, e, s) && t in s && s[t].Ready?
    ensures Waiting({}, p, e, s[t := Timed(wake)]) && Waiting({}, p, e + {t}, s[t := Timed(wake)])
  {
  }

  /** A pending co-routine leaves the pending list, and is made ready after that. */
  lemma TakePending(p: set<nat>, e: set<nat>, s: Statuses, t: nat)
    requires Waiting({}, p, e, s) && t in p
    ensures t in s && !s[t].Ready? && Waiting({}, p - {t}, e, s[t := Ready]) && t !in e
  {
  }

  lemma CaughtUp(w: int, before: int, seen: int, last: int, t: int, lag: nat, epoch: int) returns (newLag: nat)
    requires 0 < w && WrapsMake(w, lag, last - before) && last <= t
    requires before <= seen < before + w && ReadingOf(w, epoch, seen) == ReadingOf(w, epoch, t)
    ensures WrapsMake(w, newLag, t - seen)
    ensures newLag == 0 <==> lag == 0 && t < last + w
  {
    newLag := SampleIsRightIff(w, epoch, before, seen, last, t, lag);
  }

  /** Who is ready, pending or waiting after one call of the scheduler. */
  lemma Scheduled(s: Statuses, p0: set<nat>, e0: set<nat>, released: set<nat>, later: set<nat>, p: set<nat>, e: set<nat>, now: int)
    requires Waiting({}, p0, e0, s) && released <= e0
    requires Moved({}, e0 - released, later, p, e, Elapse(Readied(s, p0 + released), now))
    ensures var s' := Elapse(Readied(s, p0 + released), now);
      && s'.Keys == s.Keys && released + later <= e0
      && (forall t | t in s' :: s'[t] == if t in p0 + released || (s[t].Timed? && s[t].wake <= now) then Ready else s[t])
      && (forall t :: t in e <==> t in e0 && t !in released + later && t in s' && !s'[t].Ready?)
      && (forall t :: t in p <==> t in later && t in s' && !s'[t].Ready?)
  {
  }

  lemma LagIsZero(w: int, lag: nat, ticks: int)
    requires 0 < w && WrapsMake(w, lag, ticks)
    ensures ticks == 0 <==> lag == 0
  {
    if lag > 0 { ProductMonotone(1, lag, w); }
  }

  /** Replaying as many ticks as two readings differ by reaches the second reading. */
  lemma ReachedReading(w: int, epoch: int, tick: int, kernelTick: int, passed: int)
    requires 0 <= tick < w && 0 <= kernelTick < w
    requires passed == if tick <= kernelTick then kernelTick - tick else kernelTick - tick + w
    ensures ReadingOf(w, epoch, epoch + tick + passed) == kernelTick
  {
    Remainder(tick + passed, kernelTick, if tick <= kernelTick then 0 else 1, w);
  }

  class Scheduler {
    const w: int
    var tickCount: int                  // xCoRoutineTickCount
    var lastTickCount: int
    var passedTicks: int
    var topReadyPriority: nat
    var current: nat
    var priority: map<nat, nat>
    var ready: ReadyLists
    var delayed: seq<Item>
    var overflowDelayed: seq<Item>
    var pendingReady: set<nat>
    var onEventList: set<nat>

    ghost var epoch: int
    ghost var status: Statuses
    ghost var history: seq<Event>       // in replayed time
    ghost const origin: Clocked
    ghost var kernelTime: int           // the unbounded time at which the kernel's count was last read
    ghost var lag: nat                  // how many wraps the replayed time is behind that

    /** The replayed time on the unbounded clock. */
    ghost function Now(): int
      reads this
    {
      epoch + tickCount
    }

    ghost predicate Consistent(low: int)
      reads `tickCount, `current, `priority, `ready, `topReadyPriority, `delayed, `overflowDelayed, `pendingReady, `onEventList, `epoch, `status
    {
      && 1 < w && 0 <= tickCount < w && current in status
      && ReadyByPriority(ready, priority, status)
      && TopBounds(ready, topReadyPriority)
      && Delays(w, delayed, overflowDelayed, epoch, low, status)
      && Waiting({}, pendingReady, onEventList, status)
    }

    ghost predicate Valid()
      reads this
    {
      && Consistent(tickCount) && lastTickCount == tickCount && passedTicks == 0
      && Recorded(origin, history, status, epoch + tickCount)
      && WrapsMake(w, lag, kernelTime - epoch - tickCount)
    }

    /** prvInitialiseCoRoutineLists, and the first co-routine created. */
    constructor (w: int, maxPriorities: nat, first: nat, p: nat)
      requires 1 < w && p < maxPriorities
      ensures Valid() && status == map[first := Ready] && Now() == kernelTime == 0 && lag == 0
    {
      this.w := w;
      tickCount, lastTickCount, passedTicks := 0, 0, 0;
      topReadyPriority, current, priority := p, first, map[first := p];
      ready := seq(maxPriorities, i => if i == p then {first} else {});
      delayed, overflowDelayed, pendingReady, onEventList := [], [], {}, {};
      epoch, status, kernelTime, lag := 0, map[first := Ready], 0, 0;
      history, origin := [], Clocked(map[first := Ready], 0);
    }

    /** prvAddCoRoutineToReadyQueue, for a co-routine that is on no ready or delay list. */
    method AddToReadyQueue(t: nat, ghost before: Statuses)
      requires t in before && ReadyByPriority(ready, priority, before) && TopBounds(ready, topReadyPriority)
      modifies `ready, `topReadyPriority
      ensures ReadyByPriority(ready, priority, before[t := Ready]) && TopBounds(ready, topReadyPriority) && |ready| == |old(ready)|
    {
      AddReady(ready, priority, before, t);
      if priority[t] > topReadyPriority {
        topReadyPriority := priority[t];
      }
      ready := ready[priority[t] := ready[priority[t]] + {t}];
    }

    /** xCoRoutineCreate, for one more co-routine; too high a priority is cut to the highest there is. */
    method CreateCoRoutine(t: nat, requested: nat)
      requires Valid() && t !in status
      modifies `priority, `ready, `topReadyPriority, `status, `history
      ensures Valid() && status == old(status)[t := Ready] && current == old(current) && history == old(history) + [Create(t)]
      ensures 0 < |ready| && priority == old(priority)[t := Capped(requested, |ready|)]
    {
      hide Delays, TopBounds, Waiting, ReadyByPriority, Recorded, WrapsMake;
      HasPriority(ready, priority, status, current);
      Record(origin, history, status, Now(), Create(t));
      history := history + [Create(t)];
      var p := Capped(requested, |ready|);
      DelaysOfOthers(w, delayed, overflowDelayed, epoch, tickCount, status, t, Ready);
      NewTask(ready, priority, status, t, p, {}, pendingReady, onEventList);
      priority := priority[t := p];
      AddToReadyQueue(t, status[t := Unlimited]);
      status := status[t := Ready];
    }

    /**
     * vCoRoutineAddToDelayedList: the running co-routine waits `ticks` ticks of
     * replayed time, on an event list as well if `event` says so.
     */
    method AddToDelayedList(ticks: int, event: bool)
      requires Valid() && status[current].Ready? && 0 < ticks < w
      modifies `ready, `delayed, `overflowDelayed, `status, `onEventList, `history
      ensures Valid() && status == old(status)[current := Timed(Now() + ticks)] && history == old(history) + [Block(current, ticks)]
      ensures onEventList == old(onEventList) + if event then {current} else {}
    {
      hide Delays, ReadyByPriority, TopBounds, Waiting, Insert, Recorded, WrapsMake;
      ghost var blocked := Timed(Now() + ticks);
      NowWaits(pendingReady, onEventList, status, current, Now() + ticks);
      Record(origin, history, status, Now(), Block(current, ticks));
      HasPriority(ready, priority, status, current);
      RemoveReady(ready, priority, status, current, blocked);
      SmallerStaysBounded(ready, topReadyPriority, priority[current], current);
      ready := ready[priority[current] := ready[priority[current]] - {current}];
      InsertInDelayList(ticks);
      status, history := status[current := blocked], history + [Block(current, ticks)];
      if event {
        onEventList := onEventList + {current};
      }
    }

    /** The part of vCoRoutineAddToDelayedList that chooses a delay list by the wrapped wake time. */
    method InsertInDelayList(ticks: int)
      requires 0 <= tickCount < w && 0 < ticks < w && current in status && !status[current].Timed?
      requires Delays(w, delayed, overflowDelayed, epoch, tickCount, status)
      modifies `delayed, `overflowDelayed
      ensures Delays(w, delayed, overflowDelayed, epoch, tickCount, status[current := Timed(Now() + ticks)])
    {
      hide Delays, Insert;
      var timeToWake := if tickCount + ticks < w then tickCount + ticks else tickCount + ticks - w;
      DelayTask(w, delayed, overflowDelayed, epoch, tickCount, status, current, Now() + ticks);
      if timeToWake < tickCount {
        overflowDelayed := Insert(overflowDelayed, Item(current, timeToWake));
      } else {
        delayed := Insert(delayed, Item(current, timeToWake));
      }
    }

    /** xCoRoutineRemoveFromEventList: an interrupt marks the head of an event list as released. */
    method RemoveFromEventList(t: nat)
      requires Waiting({}, pendingReady, onEventList, status) && t in onEventList
      modifies `onEventList, `pendingReady
      ensures Waiting({}, pendingReady, onEventList, status) && (old(Valid()) ==> Valid())
      ensures onEventList == old(onEventList) - {t} && pendingReady == old(pendingReady) + {t}
    {
      hide Delays, ReadyByPriority, TopBounds, Recorded, WrapsMake;
      onEventList := onEventList - {t};
      pendingReady := pendingReady + {t};
    }

    /** Any number of interrupts. */
    method Interrupts() returns (ghost ts: set<nat>)
      requires Waiting({}, pendingReady, onEventList, status)
      modifies `onEventList, `pendingReady
      ensures Waiting({}, pendingReady, onEventList, status) && ts <= old(onEventList)
      ensures onEventList == old(onEventList) - ts && pendingReady == old(pendingReady) + ts
    {
      hide Waiting, Valid;
      ts := {};
      while *
        invariant Waiting({}, pendingReady, onEventList, status) && ts <= old(onEventList)
        invariant onEventList == old(onEventList) - ts && pendingReady == old(pendingReady) + ts
        decreases onEventList
      {
        if onEventList == {} {
          break;
        }
        var t :| t in onEventList;
        RemoveFromEventList(t);
        ts := ts + {t};
      }
    }

    /** One round of prvCheckPendingReadyList; interrupts may come once the co-routine is off the pending list. */
    method ReadyPending(t: nat) returns (ghost ts: set<nat>)
      requires Consistent(tickCount) && t in pendingReady
      modifies `pendingReady, `onEventList, `delayed, `overflowDelayed, `ready, `topReadyPriority, `status
      ensures Consistent(tickCount) && status == old(status)[t := Ready] && ts <= old(onEventList)
      ensures onEventList == old(onEventList) - ts && pendingReady == old(pendingReady) - {t} + ts
      ensures t in old(status) && t !in old(onEventList)
    {
      hide Delays, ReadyByPriority, TopBounds, Waiting, Remove;
      ghost var before := status;
      TakePending(pendingReady, onEventList, status, t);
      UndelayTask(w, delayed, overflowDelayed, epoch, tickCount, status, t, Ready);
      pendingReady := pendingReady - {t};
      status := status[t := Ready];
      ts := Interrupts();
      delayed, overflowDelayed := Remove(delayed, t), Remove(overflowDelayed, t);
      AddToReadyQueue(t, before);
      ghost var later := Interrupts();
      ts := ts + later;
    }

    /**
     * prvCheckPendingReadyList: every co-routine that was released before, or is
     * released meanwhile, becomes ready.
     */
    method CheckPendingReadyList() returns (ghost released: set<nat>)
      requires Valid()
      modifies `pendingReady, `onEventList, `delayed, `overflowDelayed, `ready, `topReadyPriority, `status, `history
      ensures Valid() && pendingReady == {} && released <= old(onEventList) && onEventList == old(onEventList) - released
      ensures status == Readied(old(status), old(pendingReady) + released)
      ensures history == old(history) + [Release(old(pendingReady) + released)]
    {
      hide Consistent, Readied, Recorded, WrapsMake;
      ghost var s0, done := status, {};
      released := {};
      ReadiedNone(status);
      while pendingReady != {}
        invariant Consistent(tickCount) && released <= old(onEventList) && history == old(history)
        invariant done + pendingReady == old(pendingReady) + released && onEventList == old(onEventList) - released
        invariant status == Readied(s0, done) && status.Keys == s0.Keys
        decreases pendingReady + onEventList
      {
        var t :| t in pendingReady;
        ghost var waiting := pendingReady + onEventList;
        ghost var ts := ReadyPending(t);
        ReadiedOneMore(s0, done, t);
        done, released := done + {t}, released + ts;
        assert pendingReady + onEventList == waiting - {t} && t in waiting;
      }
      assert done == old(pendingReady) + released;
      Record(origin, history, s0, Now(), Release(done));
      history := history + [Release(done)];
    }

    /** One round of the inner loop of prvCheckDelayedList; interrupts may come before and after the co-routine is taken off its lists. */
    method UnblockHead(ghost p0: set<nat>, ghost e0: set<nat>, ghost before: set<nat>) returns (ghost released: set<nat>)
      requires Consistent(tickCount - 1) && delayed != [] && delayed[0].value <= tickCount
      requires Moved(p0, e0, before, pendingReady, onEventList, status)
      modifies `delayed, `ready, `topReadyPriority, `onEventList, `pendingReady, `status
      ensures Consistent(tickCount - 1) && delayed == old(delayed)[1..]
      ensures Moved(p0, e0, released, pendingReady, onEventList, status)
      ensures var t := old(delayed)[0].owner;
        && t in old(status) && old(status)[t].Timed? && old(status)[t].wake <= Now()
        && status == old(status)[t := Ready]
    {
      hide Delays, ReadyByPriority, TopBounds, Waiting, StillWaiting, Moved;
      WakeHead(w, delayed, overflowDelayed, epoch, tickCount - 1, status);
      var t := delayed[0].owner;
      ghost var p, e, s := pendingReady, onEventList, status;
      ghost var ts := Interrupts();
      MoreReleased(p0, e0, before, p, e, status, ts);
      TimeOutCoRoutine(p0, e0, before + ts, pendingReady, onEventList, status, t);
      delayed := delayed[1..];
      onEventList, pendingReady, status := onEventList - {t}, pendingReady - {t}, status[t := Ready];
      p, e := pendingReady, onEventList;
      ghost var later := Interrupts();
      MoreReleased(p0, e0, before + ts, p, e, status, later);
      released := before + ts + later;
      AddToReadyQueue(t, s);
    }

    /** That loop: readies the co-routines due at the tick just replayed. */
    method UnblockDue() returns (ghost released: set<nat>)
      requires Consistent(tickCount - 1)
      modifies `delayed, `ready, `topReadyPriority, `onEventList, `pendingReady, `status
      ensures Consistent(tickCount) && status == Elapse(old(status), Now())
      ensures Moved(old(pendingReady), old(onEventList), released, pendingReady, onEventList, status)
    {
      hide Delays, ReadyByPriority, TopBounds, Waiting, StillWaiting, Moved, Elapse;
      NoneMoved(pendingReady, onEventList, status);
      released := {};
      while delayed != []
        invariant Consistent(tickCount - 1)
        invariant Elapse(status, Now()) == Elapse(old(status), Now())
        invariant Moved(old(pendingReady), old(onEventList), released, pendingReady, onEventList, status)
        decreases |delayed|
      {
        if tickCount < delayed[0].value {
          break;
        }
        ghost var before, t := status, delayed[0].owner;
        released := UnblockHead(old(pendingReady), old(onEventList), released);
        ElapseOne(before, Now(), t);
      }
      NoneBeforeHead(w, delayed, overflowDelayed, epoch, tickCount - 1, status, Now());
      ElapseNothing(status, Now());
    }

    /** One round of prvCheckDelayedList: a tick passes, the lists swap if the count wraps, and who is due becomes ready. */
    method ReplayTick() returns (ghost released: set<nat>)
      requires Consistent(tickCount)
      modifies `tickCount, `delayed, `overflowDelayed, `ready, `topReadyPriority, `onEventList, `pendingReady, `status, `epoch
      ensures Consistent(tickCount) && Now() == old(Now()) + 1 && (epoch == old(epoch) || epoch == old(epoch) + w)
      ensures tickCount == if old(tickCount) + 1 == w then 0 else old(tickCount) + 1
      ensures status == Elapse(old(status), Now())
      ensures Moved(old(pendingReady), old(onEventList), released, pendingReady, onEventList, status)
    {
      hide Delays, ReadyByPriority, TopBounds, Elapse, Waiting, StillWaiting, Moved;
      tickCount := if tickCount + 1 == w then 0 else tickCount + 1;
      if tickCount == 0 {
        SwitchDelays(w, delayed, overflowDelayed, epoch, status);
        delayed, overflowDelayed := overflowDelayed, delayed;
        epoch := epoch + w;
      }
      released := UnblockDue();
    }

    /** The loop of prvCheckDelayedList. */
    method ReplayPassedTicks() returns (ghost released: set<nat>)
      requires Consistent(tickCount) && 0 <= passedTicks < w
      modifies `tickCount, `passedTicks, `delayed, `overflowDelayed, `ready, `topReadyPriority, `onEventList, `pendingReady, `status, `epoch
      ensures Consistent(tickCount) && passedTicks == 0 && Now() == old(Now() + passedTicks)
      ensures tickCount == old(tickCount + passedTicks) || tickCount == old(tickCount + passedTicks) - w
      ensures status == Elapse(old(status), Now())
      ensures Moved(old(pendingReady), old(onEventList), released, pendingReady, onEventList, status)
    {
      hide Delays, ReadyByPriority, TopBounds, Elapse, Waiting, StillWaiting, Moved;
      AllInFuture(w, delayed, overflowDelayed, epoch, tickCount, status, Now());
      NoneMoved(pendingReady, onEventList, status);
      released := {};
      while passedTicks > 0
        invariant 0 <= passedTicks && Consistent(tickCount)
        invariant tickCount + passedTicks == old(tickCount + passedTicks) || tickCount + passedTicks == old(tickCount + passedTicks) - w
        invariant Now() + passedTicks == old(Now() + passedTicks) && old(Now()) <= Now()
        invariant status == Elapse(old(status), Now())
        invariant Moved(old(pendingReady), old(onEventList), released, pendingReady, onEventList, status)
        decreases passedTicks
      {
        ghost var before, s1, p1, e1 := Now(), status, pendingReady, onEventList;
        passedTicks := passedTicks - 1;
        ghost var ts := ReplayTick();
        ElapseTwice(old(status), before, Now());
        ElapseKeepsReady(s1, Now());
        MovedTwice(old(pendingReady), old(onEventList), released, p1, e1, s1, ts, pendingReady, onEventList, status);
        released := released + ts;
      }
    }

    /**
     * prvCheckDelayedList, called at the kernel's time `time`: replays, one by
     * one, the ticks that passed since it last ran.  Each co-routine whose time
     * has come is ready and no other is, whatever interrupts release meanwhile.
     * The replayed time catches up with the kernel's if and only if this has
     * always run again within a wrap.
     */
    method CheckDelayedList(kernelTickCount: int, ghost time: int) returns (ghost released: set<nat>)
      requires Valid() && kernelTime <= time && kernelTickCount == ReadingOf(w, epoch, time)
      modifies `tickCount, `lastTickCount, `passedTicks, `delayed, `overflowDelayed, `ready, `topReadyPriority,
        `onEventList, `pendingReady, `status, `epoch, `history, `kernelTime, `lag
      ensures Valid() && tickCount == kernelTickCount && kernelTime == time
      ensures old(Now()) <= Now() < old(Now()) + w
      ensures lag == 0 <==> old(lag) == 0 && time < old(kernelTime) + w
      ensures Now() == time <==> lag == 0
      ensures status == Elapse(old(status), Now()) && history == old(history) + TickEvents(Now() - old(Now()))
      ensures Moved(old(pendingReady), old(onEventList), released, pendingReady, onEventList, status)
    {
      hide Delays, ReadyByPriority, TopBounds, Elapse, Waiting, StillWaiting, Moved, Recorded, WrapsMake, ReadingOf;
      ReadingInRange(w, epoch, time);
      passedTicks := if lastTickCount <= kernelTickCount then kernelTickCount - lastTickCount else kernelTickCount - lastTickCount + w;
      AllInFuture(w, delayed, overflowDelayed, epoch, tickCount, status, Now());
      RecordTicks(origin, history, status, Now(), passedTicks);
      ReachedReading(w, epoch, tickCount, kernelTickCount, passedTicks);
      lag := CaughtUp(w, Now(), Now() + passedTicks, kernelTime, time, lag, epoch);
      LagIsZero(w, lag, time - Now() - passedTicks);
      kernelTime, history := time, history + TickEvents(passedTicks);
      released := ReplayPassedTicks();
      lastTickCount := tickCount;
    }

    /** The selection of vCoRoutineSchedule: a highest-priority ready co-routine, or none. */
    method SelectHighestPriority() returns (found: bool)
      requires Valid()
      modifies `topReadyPriority, `current
      ensures Valid() && Now() == old(Now()) && (!found ==> current == old(current) && topReadyPriority == 0)
      ensures found <==> exists t | t in status :: status[t].Ready?
      ensures found ==> status[current].Ready? && priority[current] == topReadyPriority && forall t | t in status && status[t].Ready? :: priority[t] <= priority[current]
    {
      hide Delays, Waiting, Recorded, WrapsMake;
      while ready[topReadyPriority] == {}
        invariant TopBounds(ready, topReadyPriority) && current == old(current)
        decreases topReadyPriority
      {
        if topReadyPriority == 0 {
          return false;
        }
        topReadyPriority := topReadyPriority - 1;
      }
      var t :| t in ready[topReadyPriority];
      current := t;
      found := true;
    }

    lemma WaitersAreKnown()
      requires Valid()
      ensures Waiting({}, pendingReady, onEventList, status)
    {
    }

    /**
     * vCoRoutineSchedule up to the call of the chosen co-routine, which has the
     * highest priority of all that are ready by then.
     */
    method Schedule(kernelTickCount: int, ghost time: int) returns (found: bool, ghost released: set<nat>, ghost later: set<nat>)
      requires Valid() && kernelTime <= time && kernelTickCount == ReadingOf(w, epoch, time)
      modifies this
      ensures Valid() && kernelTime == time && priority == old(priority) && (!found ==> current == old(current))
      ensures lag == 0 <==> old(lag) == 0 && time < old(kernelTime) + w
      ensures Now() == time <==> lag == 0
      ensures old(Now()) <= Now() < old(Now()) + w
      ensures released + later <= old(onEventList) && status.Keys == old(status).Keys
      ensures forall t | t in status ::
        (status[t] == if t in old(pendingReady) + released || (old(status)[t].Timed? && old(status)[t].wake <= Now()) then Ready else old(status)[t])
      ensures forall t :: t in onEventList <==> t in old(onEventList) && t !in released + later && t in status && !status[t].Ready?
      ensures forall t :: t in pendingReady <==> t in later && t in status && !status[t].Ready?
      ensures history == old(history) + [Release(old(pendingReady) + released)] + TickEvents(Now() - old(Now()))
      ensures found <==> exists t | t in status :: status[t].Ready?
      ensures found ==> status[current].Ready? && forall t | t in status && status[t].Ready? :: priority[t] <= priority[current]
    {
      hide Elapse, Readied, Moved, ReadingOf, Valid, Waiting;
      WaitersAreKnown();
      released := CheckPendingReadyList();
      later := CheckDelayedList(kernelTickCount, time);
      Scheduled(old(status), old(pendingReady), old(onEventList), released, later, pendingReady, onEventList, Now());
      found := SelectHighestPriority();
    }
  }

  /**
   * Delays of co-routines, over any number of calls of the scheduler: a
   * co-routine that waits d > 0 ticks and is not released since then waits as
   * long as fewer than d ticks have been replayed, and is ready from the d-th on.
   */
  lemma CoRoutineWakesOnTime(k: Scheduler, before: seq<Event>, since: seq<Event>, t: nat, d: int)
    requires k.Valid() && k.history == before + since && 0 < d
    requires var c := Run(k.origin, before); t in c.status && c.status[t] == Timed(c.now + d)
    requires forall e | e in since :: !Concerns(e, t)
    ensures t in k.status && k.status[t] == if Ticks(since) < d then Timed(Run(k.origin, before).now + d) else Ready
  {
    RunBoth(k.origin, before, since);
    BlockedForExactly(Run(k.origin, before), since, t, d);
  }
}
