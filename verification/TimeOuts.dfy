/**
 * xTaskCheckForTimeOut of tasks.c: a wait that is checked again and again
 * against the wrapping tick count and the count of its wraps.
 */
module TimeOuts {
  import opened Arithmetic

  /** The unbounded time that an overflow count and a tick count stand for. */
  function Time(w: int, overflows: int, tick: int): int {
    overflows * w + tick
  }

  datatype Outcome = Outcome(timedOut: bool, ticksLeft: int)

  /** The decision, for a wait that is not without limit. */
  function Check(w: int, overflows: int, tick: int, entryOverflows: int, entryTick: int, ticks: int): Outcome {
    var elapsed := if entryTick <= tick then tick - entryTick else tick - entryTick + w;
    if overflows != entryOverflows && tick >= entryTick then Outcome(true, 0)
    else if elapsed < ticks then Outcome(false, ticks - elapsed)
    else Outcome(true, 0)
  }

  /** The one case that is misjudged: two wraps or more since the entry, and a reading that looks like less than one. */
  predicate Aliased(w: int, overflows: int, tick: int, entryOverflows: int, entryTick: int, ticks: int) {
    entryOverflows + 2 <= overflows && tick < entryTick && tick - entryTick + w < ticks
  }

  /**
   * On the unbounded clock, the call reports a timeout exactly when the
   * deadline has been reached, and otherwise the ticks still to go, exactly
   * when the reading is not aliased.
   */
  lemma {:induction false} CheckIsExact(w: int, overflows: int, tick: int, entryOverflows: int, entryTick: int, ticks: int)
    requires 1 < w && 0 <= tick < w && 0 <= entryTick < w && 0 <= ticks < w
    requires Time(w, entryOverflows, entryTick) <= Time(w, overflows, tick)
    ensures var left := Time(w, entryOverflows, entryTick) + ticks - Time(w, overflows, tick);
      !(entryOverflows + 2 <= overflows && tick < entryTick && tick - entryTick + w < ticks) <==>
        Check(w, overflows, tick, entryOverflows, entryTick, ticks) == Outcome(left <= 0, if left <= 0 then 0 else left)
  {
    var k := overflows - entryOverflows;
    assert k * w == overflows * w - entryOverflows * w;
    if k < 0 {
      assert k * w <= -w by { ProductMonotone(k, -1, w); }
    } else if k >= 2 {
      ProductMonotone(2, k, w);
    }
  }

  /** With at most one wrap between the entry and the check, no reading is aliased. */
  lemma FewerThanTwoWraps(w: int, overflows: int, tick: int, entryOverflows: int, entryTick: int, ticks: int)
    requires overflows <= entryOverflows + 1
    ensures !Aliased(w, overflows, tick, entryOverflows, entryTick, ticks)
  {
  }

  /** Two wraps in 32 bits: a wait of almost a whole wrap is taken to have lasted two ticks, though it is long over. */
  lemma TwoWrapsAreMissed()
    ensures
      var w, ticks := 0x1_0000_0000, 0xFFFF_FFFE;
      && Aliased(w, 2, 1, 0, 0xFFFF_FFFF, ticks)
      && Check(w, 2, 1, 0, 0xFFFF_FFFF, ticks) == Outcome(false, 0xFFFF_FFFC)
      && Time(w, 0, 0xFFFF_FFFF) + ticks < Time(w, 2, 1)
  {
  }

  /** TimeOut_t and the caller's remaining ticks, with the deadline on the unbounded clock. */
  class TimeOut {
    const w: int
    var overflowCount: int
    var timeOnEntering: int
    var ticksToWait: int
    ghost var deadline: int

    ghost predicate Valid()
      reads this
    {
      && 1 < w && 0 <= timeOnEntering < w && 0 <= ticksToWait < w
      && (ticksToWait < w - 1 ==> Time(w, overflowCount, timeOnEntering) + ticksToWait == deadline)
    }

    /** vTaskSetTimeOutState. */
    constructor (w: int, numOfOverflows: int, tickCount: int, ticksToWait: int)
      requires 1 < w && 0 <= tickCount < w && 0 <= ticksToWait < w
      ensures Valid() && this.w == w && this.ticksToWait == ticksToWait
      ensures overflowCount == numOfOverflows && timeOnEntering == tickCount
      ensures deadline == Time(w, numOfOverflows, tickCount) + ticksToWait
    {
      this.w := w;
      this.ticksToWait := ticksToWait;
      overflowCount, timeOnEntering := numOfOverflows, tickCount;
      deadline := numOfOverflows * w + tickCount + ticksToWait;
    }

    /**
     * xTaskCheckForTimeOut: a wait without limit never times out; a finite one
     * times out exactly when its original deadline has been reached, and keeps
     * that deadline if not, unless the reading is aliased.
     */
    method CheckForTimeOut(numOfOverflows: int, tickCount: int) returns (timedOut: bool)
      requires Valid() && 0 <= tickCount < w
      requires Time(w, overflowCount, timeOnEntering) <= Time(w, numOfOverflows, tickCount)
      modifies `overflowCount, `timeOnEntering, `ticksToWait
      ensures old(ticksToWait) == w - 1 ==>
        !timedOut && ticksToWait == w - 1 && overflowCount == old(overflowCount) && timeOnEntering == old(timeOnEntering)
      ensures old(ticksToWait) != w - 1 ==> (
        (&& (timedOut <==> deadline <= Time(w, numOfOverflows, tickCount))
         && (!timedOut ==> ticksToWait == deadline - Time(w, numOfOverflows, tickCount)))
        <==> !Aliased(w, numOfOverflows, tickCount, old(overflowCount), old(timeOnEntering), old(ticksToWait)))
      ensures old(ticksToWait) != w - 1 && !timedOut ==>
        0 < ticksToWait <= old(ticksToWait) && overflowCount == numOfOverflows && timeOnEntering == tickCount
      ensures !Aliased(w, numOfOverflows, tickCount, old(overflowCount), old(timeOnEntering), old(ticksToWait)) && !timedOut ==> Valid()
      ensures timedOut ==> ticksToWait == 0 && overflowCount == old(overflowCount) && timeOnEntering == old(timeOnEntering)
    {
      CheckIsExact(w, numOfOverflows, tickCount, overflowCount, timeOnEntering, ticksToWait);
      var elapsedTime := if timeOnEntering <= tickCount then tickCount - timeOnEntering else tickCount - timeOnEntering + w;
      if ticksToWait == w - 1 {
        timedOut := false;
      } else if numOfOverflows != overflowCount && tickCount >= timeOnEntering {
        timedOut := true;
        ticksToWait := 0;
      } else if elapsedTime < ticksToWait {
        ticksToWait := ticksToWait - elapsedTime;
        overflowCount, timeOnEntering := numOfOverflows, tickCount;
        timedOut := false;
      } else {
        ticksToWait := 0;
        timedOut := true;
      }
    }

    /**
     * A wait loop: checks at each of the given moments until it times out.  The
     * first check that reports a timeout is the first at or past the deadline,
     * if no reading would be aliased even for the longest finite wait.
     */
    method WaitLoop(overflows: seq<int>, ticks: seq<int>) returns (k: nat)
      requires Valid() && ticksToWait < w - 1 && |overflows| == |ticks|
      requires forall i | 0 <= i < |ticks| :: 0 <= ticks[i] < w
      requires forall i | 0 <= i < |ticks| ::
        var o, t := if i == 0 then overflowCount else overflows[i - 1], if i == 0 then timeOnEntering else ticks[i - 1];
        Time(w, o, t) <= Time(w, overflows[i], ticks[i]) && !Aliased(w, overflows[i], ticks[i], o, t, w - 2)
      modifies `overflowCount, `timeOnEntering, `ticksToWait
      ensures k <= |ticks|
      ensures forall i | 0 <= i < k :: Time(w, overflows[i], ticks[i]) < deadline
      ensures k < |ticks| ==> deadline <= Time(w, overflows[k], ticks[k]) && ticksToWait == 0
      ensures k == |ticks| ==> Valid() && 0 <= ticksToWait <= old(ticksToWait)
    {
      k := 0;
      while k < |ticks|
        invariant k <= |ticks| && Valid() && ticksToWait <= old(ticksToWait) < w - 1
        invariant overflowCount == if k == 0 then old(overflowCount) else overflows[k - 1]
        invariant timeOnEntering == if k == 0 then old(timeOnEntering) else ticks[k - 1]
        invariant forall i | 0 <= i < k :: Time(w, overflows[i], ticks[i]) < deadline
      {
        var timedOut := CheckForTimeOut(overflows[k], ticks[k]);
        if timedOut {
          return;
        }
        k := k + 1;
      }
    }
  }
}
