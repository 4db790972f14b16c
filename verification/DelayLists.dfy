/**
 * What tasks.c and croutine.c share: ready lists by priority, and a pair of
 * delay lists for wake times that wrap.  A ghost status says of every task, on
 * a clock that never wraps, whether it is ready, blocked until a certain tick,
 * or blocked without limit.
 */
module DelayLists {
  import opened Arithmetic
  import opened SortedItems

  datatype Status = Ready | Timed(wake: int) | Unlimited

  type Statuses = map<nat, Status>

  /** What the passing of time up to `now` does: exactly the tasks that are due become ready. */
  ghost function Elapse(s: Statuses, now: int): Statuses {
    map t | t in s :: if s[t].Timed? && s[t].wake <= now then Ready else s[t]
  }

  ghost function Readied(s: Statuses, ts: set<nat>): Statuses {
    map t | t in s :: if t in ts then Ready else s[t]
  }

  lemma ElapseTwice(s: Statuses, a: int, b: int)
    requires a <= b
    ensures Elapse(Elapse(s, a), b) == Elapse(s, b)
  {
  }

  lemma ElapseOne(s: Statuses, now: int, t: nat)
    requires t in s && s[t].Timed? && s[t].wake <= now
    ensures Elapse(s[t := Ready], now) == Elapse(s, now)
  {
  }

  lemma ElapseNothing(s: Statuses, now: int)
    requires forall t | t in s && s[t].Timed? :: now < s[t].wake
    ensures Elapse(s, now) == s
  {
  }

  // What happens to the tasks in processed time; class Kernel keeps the history of it.
  datatype Event = Tick | Block(t: nat, ticks: int) | BlockForever(t: nat) | Release(ts: set<nat>) | Create(t: nat)

  datatype Clocked = Clocked(status: Statuses, now: int)

  ghost function Happen(c: Clocked, e: Event): Clocked {
    match e
    case Tick => Clocked(Elapse(c.status, c.now + 1), c.now + 1)
    case Block(t, ticks) => c.(status := c.status[t := Timed(c.now + ticks)])
    case BlockForever(t) => c.(status := c.status[t := Unlimited])
    case Release(ts) => c.(status := Readied(c.status, ts))
    case Create(t) => c.(status := c.status[t := Ready])
  }

  ghost function Run(c: Clocked, es: seq<Event>): Clocked
    decreases es
  {
    if es == [] then c else Run(Happen(c, es[0]), es[1..])
  }

  lemma {:induction false} RunBoth(c: Clocked, es: seq<Event>, fs: seq<Event>)
    ensures Run(c, es + fs) == Run(Run(c, es), fs)
    decreases es
  {
    if es == [] {
      assert es + fs == fs;
    } else {
      RunBoth(Happen(c, es[0]), es[1..], fs);
      assert (es + fs)[1..] == es[1..] + fs;
    }
  }

  /** The history since `origin` led to these statuses at this time. */
  ghost predicate Recorded(origin: Clocked, history: seq<Event>, s: Statuses, now: int) {
    Run(origin, history) == Clocked(s, now)
  }

  lemma Record(origin: Clocked, history: seq<Event>, s: Statuses, now: int, e: Event)
    requires Recorded(origin, history, s, now)
    ensures var c := Happen(Clocked(s, now), e); Recorded(origin, history + [e], c.status, c.now)
  {
    RunBoth(origin, history, [e]);
    assert [e][1..] == [];
  }

  function TickEvents(n: nat): seq<Event> {
    seq(n, _ => Tick)
  }

  lemma {:induction false} RecordTicks(origin: Clocked, history: seq<Event>, s: Statuses, now: int, n: nat)
    requires Recorded(origin, history, s, now) && Elapse(s, now) == s
    ensures Recorded(origin, history + TickEvents(n), Elapse(s, now + n), now + n)
  {
    hide Recorded;
    if n == 0 {
      assert history + TickEvents(0) == history;
    } else {
      RecordTicks(origin, history, s, now, n - 1);
      Record(origin, history + TickEvents(n - 1), Elapse(s, now + n - 1), now + n - 1, Tick);
      ElapseTwice(s, now + n - 1, now + n);
      assert history + TickEvents(n) == history + TickEvents(n - 1) + [Tick];
    }
  }

  function Ticks(es: seq<Event>): nat {
    if es == [] then 0 else (if es[0].Tick? then 1 else 0) + Ticks(es[1..])
  }

  ghost predicate Concerns(e: Event, t: nat) {
    match e
    case Tick => false
    case Release(ts) => t in ts
    case _ => e.t == t
  }

  /**
   * Exact delays: whatever happens to other tasks, a task blocked for d > 0
   * ticks that no event releases is blocked until the d-th tick, and ready
   * from that very tick on.
   */
  lemma {:induction false} BlockedForExactly(c: Clocked, es: seq<Event>, t: nat, d: int)
    requires t in c.status && c.status[t] == Timed(c.now + d) && 0 < d
    requires forall e | e in es :: !Concerns(e, t)
    ensures t in Run(c, es).status
    ensures Run(c, es).status[t] == if Ticks(es) < d then Timed(c.now + d) else Ready
    decreases es
  {
    if es != [] {
      assert es[0] in es;
      var next := Happen(c, es[0]);
      if es[0].Tick? && d == 1 {
        StaysReady(next, es[1..], t);
      } else {
        BlockedForExactly(next, es[1..], t, if es[0].Tick? then d - 1 else d);
      }
    }
  }

  /** A task blocked without limit stays so until an event releases it. */
  lemma {:induction false} BlockedUntilReleased(c: Clocked, es: seq<Event>, t: nat)
    requires t in c.status && c.status[t] == Unlimited
    requires forall e | e in es :: !Concerns(e, t)
    ensures t in Run(c, es).status && Run(c, es).status[t] == Unlimited
    decreases es
  {
    if es != [] {
      assert es[0] in es;
      BlockedUntilReleased(Happen(c, es[0]), es[1..], t);
    }
  }

  /** Once released, a task is ready until it blocks again. */
  lemma {:induction false} ReleasedIsReady(c: Clocked, es: seq<Event>, t: nat, ts: set<nat>)
    requires t in c.status && t in ts && forall e | e in es :: !Concerns(e, t)
    ensures var d := Run(Happen(c, Release(ts)), es); t in d.status && d.status[t] == Ready
  {
    StaysReady(Happen(c, Release(ts)), es, t);
  }

  lemma {:induction false} StaysReady(c: Clocked, es: seq<Event>, t: nat)
    requires t in c.status && c.status[t] == Ready
    requires forall e | e in es :: !Concerns(e, t)
    ensures t in Run(c, es).status && Run(c, es).status[t] == Ready
    decreases es
  {
    if es != [] {
      assert es[0] in es;
      StaysReady(Happen(c, es[0]), es[1..], t);
    }
  }

  type ReadyLists = seq<set<nat>>

  /** The priority a new task or co-routine gets: too high a request is cut to the highest there is. */
  function Capped(requested: nat, levels: nat): (p: nat)
    requires 0 < levels
    ensures p < levels && p <= requested && (p < requested ==> p == levels - 1)
  {
    if requested < levels then requested else levels - 1
  }

  /** Ready list k holds exactly the ready tasks of priority k. */
  ghost predicate ReadyByPriority(ready: ReadyLists, prio: map<nat, nat>, s: Statuses) {
    && prio.Keys == s.Keys
    && (forall t | t in s :: prio[t] < |ready|)
    && (forall t | t in s && s[t].Ready? :: t in ready[prio[t]])
    && (forall k, t | 0 <= k < |ready| && t in ready[k] :: t in s && s[t].Ready? && prio[t] == k)
  }

  lemma HasPriority(ready: ReadyLists, prio: map<nat, nat>, s: Statuses, t: nat)
    requires ReadyByPriority(ready, prio, s) && t in s
    ensures t in prio && prio[t] < |ready|
  {
  }

  /** Every task has a base priority that there is, and a count of the mutexes it holds. */
  ghost predicate Holdings(base: map<nat, nat>, held: map<nat, nat>, s: Statuses, levels: nat) {
    base.Keys == s.Keys && held.Keys == s.Keys && forall t | t in s :: base[t] < levels
  }

  /** The ghost records of the tasks: the history that led to their statuses, and their mutexes. */
  ghost predicate Journal(origin: Clocked, history: seq<Event>, s: Statuses, now: int, base: map<nat, nat>, held: map<nat, nat>, levels: nat) {
    Recorded(origin, history, s, now) && Holdings(base, held, s, levels)
  }

  lemma JournalTick(origin: Clocked, history: seq<Event>, s: Statuses, now: int, base: map<nat, nat>, held: map<nat, nat>, levels: nat)
    requires Journal(origin, history, s, now, base, held, levels)
    ensures Journal(origin, history + [Tick], Elapse(s, now + 1), now + 1, base, held, levels)
  {
    Record(origin, history, s, now, Tick);
  }

  lemma JournalBlock(origin: Clocked, history: seq<Event>, s: Statuses, now: int, base: map<nat, nat>, held: map<nat, nat>, levels: nat, t: nat, ticks: int)
    requires Journal(origin, history, s, now, base, held, levels) && t in s
    ensures Journal(origin, history + [Block(t, ticks)], s[t := Timed(now + ticks)], now, base, held, levels)
    ensures Journal(origin, history + [BlockForever(t)], s[t := Unlimited], now, base, held, levels)
  {
    Record(origin, history, s, now, Block(t, ticks));
    Record(origin, history, s, now, BlockForever(t));
  }

  lemma JournalRelease(origin: Clocked, history: seq<Event>, s: Statuses, now: int, base: map<nat, nat>, held: map<nat, nat>, levels: nat, ts: set<nat>)
    requires Journal(origin, history, s, now, base, held, levels)
    ensures Journal(origin, history + [Release(ts)], Readied(s, ts), now, base, held, levels)
  {
    Record(origin, history, s, now, Release(ts));
  }

  /** Some tasks are released, and then n ticks pass. */
  lemma JournalCatchUp(origin: Clocked, history: seq<Event>, s: Statuses, now: int, base: map<nat, nat>, held: map<nat, nat>, levels: nat, ts: set<nat>, n: nat)
    requires Journal(origin, history, s, now, base, held, levels) && Elapse(s, now) == s
    ensures Journal(origin, history + [Release(ts)] + TickEvents(n), Elapse(Readied(s, ts), now + n), now + n, base, held, levels)
  {
    Record(origin, history, s, now, Release(ts));
    forall t | t in s ensures Elapse(Readied(s, ts), now)[t] == Readied(s, ts)[t] { assert Elapse(s, now)[t] == s[t]; }
    assert Elapse(Readied(s, ts), now) == Readied(s, ts);
    RecordTicks(origin, history + [Release(ts)], Readied(s, ts), now, n);
  }

  lemma ReadiedOne(s: Statuses, t: nat)
    requires t in s
    ensures Readied(s, {t}) == s[t := Ready]
  {
  }

  lemma JournalCreate(origin: Clocked, history: seq<Event>, s: Statuses, now: int, base: map<nat, nat>, held: map<nat, nat>, levels: nat, t: nat, p: nat)
    requires Journal(origin, history, s, now, base, held, levels) && p < levels
    ensures Journal(origin, history + [Create(t)], s[t := Ready], now, base[t := p], held[t := 0], levels)
  {
    Record(origin, history, s, now, Create(t));
  }

  lemma JournalHolds(origin: Clocked, history: seq<Event>, s: Statuses, now: int, base: map<nat, nat>, held: map<nat, nat>, levels: nat, t: nat)
    requires Journal(origin, history, s, now, base, held, levels) && t in s
    ensures t in base && t in held && base[t] < levels
  {
  }

  lemma JournalCount(origin: Clocked, history: seq<Event>, s: Statuses, now: int, base: map<nat, nat>, held: map<nat, nat>, levels: nat, t: nat, n: nat)
    requires Journal(origin, history, s, now, base, held, levels) && t in s
    ensures Journal(origin, history, s, now, base, held[t := n], levels)
  {
  }

  /** No list above `top` has a task. */
  ghost predicate TopBounds(ready: ReadyLists, top: nat) {
    top < |ready| && forall k | top < k < |ready| :: ready[k] == {}
  }

  /** When an entry of the current list wakes; one that asked for no tick at all at tick `low` wakes at the next. */
  function Wakes(low: int, value: int): int {
    if value == low then low + 1 else value
  }

  /**
   * The delay lists, in the epoch that began at `base`: the current list holds
   * exactly the tasks that wake in this epoch, all of them after tick `low`;
   * the overflow list holds exactly those that wake in the next one.
   */
  ghost predicate Delays(w: int, d: seq<Item>, o: seq<Item>, base: int, low: int, s: Statuses) {
    && Sorted(d) && Sorted(o)
    && (forall x | x in d :: 0 <= x.value && low <= x.value && Wakes(low, x.value) < w && x.owner in s && s[x.owner] == Timed(base + Wakes(low, x.value)))
    && (forall x | x in o :: 0 <= x.value < w && x.owner in s && s[x.owner] == Timed(base + w + x.value))
    && (forall t | t in s && s[t].Timed? ::
          if s[t].wake < base + w then Item(t, s[t].wake - base) in d || (Item(t, low) in d && s[t].wake == base + low + 1) else Item(t, s[t].wake - base - w) in o)
  }

  /** n wraps of the tick count make so many ticks. */
  ghost predicate WrapsMake(w: int, n: int, ticks: int) {
    ticks == n * w
  }

  lemma OneMoreWrap(w: int, n: int, ticks: int)
    requires WrapsMake(w, n, ticks)
    ensures WrapsMake(w, n + 1, ticks + w)
  {
    ProductStep(n, w);
  }

  /** The cached time is no later than any wake time of the current list. */
  ghost predicate CacheIsEarly(d: seq<Item>, next: int) {
    forall x | x in d :: next <= x.value
  }

  /** It is the least of them, or as late as can be if there is none. */
  ghost predicate CacheIsExact(w: int, d: seq<Item>, next: int) {
    if d == [] then next == w - 1 else exists x :: x in d && next == x.value
  }

  lemma EmptyCache(next: int)
    ensures CacheIsEarly([], next)
  {
  }

  lemma UnlistedIsAbsent(w: int, d: seq<Item>, o: seq<Item>, base: int, low: int, s: Statuses, t: nat)
    requires Delays(w, d, o, base, low, s) && (t in s ==> !s[t].Timed?)
    ensures Lacks(d, t) && Lacks(o, t)
  {
  }

  /** A task that is not delayed may change to any status that is not delayed either. */
  lemma DelaysOfOthers(w: int, d: seq<Item>, o: seq<Item>, base: int, low: int, s: Statuses, t: nat, st: Status)
    requires Delays(w, d, o, base, low, s) && (t in s ==> !s[t].Timed?) && !st.Timed?
    ensures Delays(w, d, o, base, low, s[t := st])
  {
  }

  lemma DelayTask(w: int, d: seq<Item>, o: seq<Item>, base: int, low: int, s: Statuses, t: nat, wake: int)
    requires Delays(w, d, o, base, low, s) && t in s && !s[t].Timed?
    requires -1 <= low && base + low < wake < base + 2 * w
    ensures wake < base + w ==> Delays(w, Insert(d, Item(t, wake - base)), o, base, low, s[t := Timed(wake)])
    ensures base + w <= wake ==> Delays(w, d, Insert(o, Item(t, wake - base - w)), base, low, s[t := Timed(wake)])
    ensures wake == base + low + 1 < base + w && 0 <= low ==> Delays(w, Insert(d, Item(t, low)), o, base, low, s[t := Timed(wake)])
  {
    hide Insert;
    UnlistedIsAbsent(w, d, o, base, low, s, t);
  }

  /** Taking a task off the delay lists, whichever holds it. */
  lemma UndelayTask(w: int, d: seq<Item>, o: seq<Item>, base: int, low: int, s: Statuses, t: nat, st: Status)
    requires Delays(w, d, o, base, low, s) && t in s && !st.Timed?
    ensures Delays(w, Remove(d, t), Remove(o, t), base, low, s[t := st])
  {
    hide Remove;
  }

  /** The head of the current list is the next task to wake; removing it is removing its task. */
  lemma WakeHead(w: int, d: seq<Item>, o: seq<Item>, base: int, low: int, s: Statuses)
    requires Delays(w, d, o, base, low, s) && d != []
    ensures var t := d[0].owner;
      && t in s && s[t] == Timed(base + Wakes(low, d[0].value))
      && Delays(w, d[1..], o, base, low, s[t := Ready])
    ensures CacheIsEarly(d, d[0].value)
    ensures 0 <= d[0].value && low <= d[0].value && Wakes(low, d[0].value) < w
  {
    Head(d);
  }

  lemma NoneBeforeHead(w: int, d: seq<Item>, o: seq<Item>, base: int, low: int, s: Statuses, now: int)
    requires Delays(w, d, o, base, low, s) && base <= now < base + w && base + low <= now
    requires d == [] || now < base + d[0].value
    ensures forall t | t in s && s[t].Timed? :: now < s[t].wake
    ensures Delays(w, d, o, base, now - base, s)
  {
    if d != [] { Head(d); }
  }

  /** Skipping the scan misses nobody: before the cached time no task is due. */
  lemma NotYetDue(w: int, d: seq<Item>, o: seq<Item>, base: int, low: int, s: Statuses, next: int, now: int)
    requires Delays(w, d, o, base, low, s) && CacheIsEarly(d, next) && base <= now < base + next <= base + w && base + low <= now
    ensures Elapse(s, now) == s
    ensures Delays(w, d, o, base, now - base, s)
  {
    assert d != [] ==> d[0] in d;
    NoneBeforeHead(w, d, o, base, low, s, now);
    ElapseNothing(s, now);
  }

  lemma AllInFuture(w: int, d: seq<Item>, o: seq<Item>, base: int, low: int, s: Statuses, now: int)
    requires Delays(w, d, o, base, low, s) && now == base + low < base + w
    ensures forall t | t in s && s[t].Timed? :: now < s[t].wake
    ensures Elapse(s, now) == s
  {
    ElapseNothing(s, now);
  }

  lemma SomeMember(d: seq<Item>)
    requires d != []
    ensures exists x :: x in d
  {
    assert d[0] in d;
  }

  /** When the current list is empty, the overflow list becomes the next epoch's current list. */
  lemma SwitchDelays(w: int, d: seq<Item>, o: seq<Item>, base: int, s: Statuses)
    requires Delays(w, d, o, base, w - 1, s)
    ensures d == []
    ensures Delays(w, o, [], base + w, -1, s)
  {
    if d != [] { SomeMember(d); }
  }

  lemma AddReady(ready: ReadyLists, prio: map<nat, nat>, s: Statuses, t: nat)
    requires ReadyByPriority(ready, prio, s) && t in s
    ensures ReadyByPriority(ready[prio[t] := ready[prio[t]] + {t}], prio, s[t := Ready])
  {
  }

  lemma RemoveReady(ready: ReadyLists, prio: map<nat, nat>, s: Statuses, t: nat, st: Status)
    requires ReadyByPriority(ready, prio, s) && t in s && !st.Ready?
    ensures ReadyByPriority(ready[prio[t] := ready[prio[t]] - {t}], prio, s[t := st])
  {
  }

  lemma UnreadyMayChangePriority(ready: ReadyLists, prio: map<nat, nat>, s: Statuses, t: nat, p: nat)
    requires ReadyByPriority(ready, prio, s) && t in s && !s[t].Ready? && p < |ready|
    ensures ReadyByPriority(ready, prio[t := p], s)
  {
  }

  lemma OnReadyList(ready: ReadyLists, prio: map<nat, nat>, s: Statuses, t: nat)
    requires ReadyByPriority(ready, prio, s) && t in s
    ensures t in prio && prio[t] < |ready| && (t in ready[prio[t]] <==> s[t].Ready?)
  {
  }

  lemma SmallerStaysBounded(ready: ReadyLists, top: nat, k: nat, t: nat)
    requires TopBounds(ready, top) && k < |ready|
    ensures TopBounds(ready[k := ready[k] - {t}], top)
  {
  }

  /** The tasks on event lists, and those an event has released while the scheduler was suspended, are not ready. */
  ghost predicate Waiting(suspended: set<nat>, pending: set<nat>, onEvent: set<nat>, s: Statuses) {
    && (forall t | t in s :: s[t].Unlimited? <==> t in suspended)
    && (forall t | t in suspended :: t in s)
    && (forall t | t in pending + onEvent :: t in s && !s[t].Ready?)
    && pending !! onEvent
  }

  lemma WakePending(suspended: set<nat>, pending: set<nat>, onEvent: set<nat>, s: Statuses, t: nat)
    requires Waiting(suspended, pending, onEvent, s) && t in pending
    ensures t in s && !s[t].Ready?
    ensures Waiting(suspended - {t}, pending - {t}, onEvent, s[t := Ready])
  {
  }

  lemma ReadiedOneMore(s: Statuses, ts: set<nat>, t: nat)
    requires t in s
    ensures Readied(s, ts)[t := Ready] == Readied(s, ts + {t})
  {
  }

  lemma ReadiedNone(s: Statuses)
    ensures Readied(s, {}) == s
  {
  }

  lemma NotWaiting(suspended: set<nat>, pending: set<nat>, onEvent: set<nat>, s: Statuses, t: nat)
    requires Waiting(suspended, pending, onEvent, s) && t in s && s[t].Ready?
    ensures onEvent - {t} == onEvent && t !in pending
  {
  }

  lemma WakeWaiter(suspended: set<nat>, pending: set<nat>, onEvent: set<nat>, s: Statuses, t: nat)
    requires Waiting(suspended, pending, onEvent, s) && t in onEvent
    ensures t in s && !s[t].Ready?
    ensures Waiting(suspended - {t}, pending, onEvent - {t}, s[t := Ready])
    ensures Waiting(suspended, pending + {t}, onEvent - {t}, s)
  {
  }

  /** The tasks of e that have not become ready. */
  ghost function StillWaiting(e: set<nat>, s: Statuses): set<nat> {
    set t | t in e && (t in s ==> !s[t].Ready?)
  }

  /**
   * What a release and the time up to `now` make of every task: who is released
   * or due becomes ready and leaves its event list; nothing else changes.
   */
  lemma WhoIsReady(s: Statuses, suspended: set<nat>, pending: set<nat>, onEvent: set<nat>, ts: set<nat>, now: int)
    requires Waiting(suspended, pending, onEvent, s)
    ensures var s' := Elapse(Readied(s, ts), now);
      && s'.Keys == s.Keys
      && (forall t | t in s' :: s'[t] == if t in ts || (s[t].Timed? && s[t].wake <= now) then Ready else s[t])
      && (forall t :: t in StillWaiting(onEvent, s') <==> t in onEvent && t in s' && !s'[t].Ready?)
  {
  }

  lemma StillWaitingTwice(e: set<nat>, s1: Statuses, s2: Statuses)
    requires s1.Keys == s2.Keys && forall t | t in s1 && s1[t].Ready? :: s2[t].Ready?
    ensures StillWaiting(StillWaiting(e, s1), s2) == StillWaiting(e, s2)
  {
  }

  lemma ElapseKeepsReady(s: Statuses, now: int)
    ensures Elapse(s, now).Keys == s.Keys
    ensures forall t | t in s && s[t].Ready? :: Elapse(s, now)[t].Ready?
  {
  }

  lemma NobodyReadied(suspended: set<nat>, pending: set<nat>, onEvent: set<nat>, s: Statuses)
    requires Waiting(suspended, pending, onEvent, s)
    ensures StillWaiting(onEvent, s) == onEvent
  {
  }

  /** A task that times out leaves the event list it waited on. */
  lemma TimeOutWaiter(suspended: set<nat>, onEvent: set<nat>, e0: set<nat>, s: Statuses, t: nat)
    requires Waiting(suspended, {}, onEvent, s) && t in s && s[t].Timed? && onEvent == StillWaiting(e0, s)
    ensures Waiting(suspended, {}, onEvent - {t}, s[t := Ready])
    ensures onEvent - {t} == StillWaiting(e0, s[t := Ready])
  {
  }

  lemma NewTask(ready: ReadyLists, prio: map<nat, nat>, s: Statuses, t: nat, p: nat, suspended: set<nat>, pending: set<nat>, onEvent: set<nat>)
    requires ReadyByPriority(ready, prio, s) && Waiting(suspended, pending, onEvent, s) && t !in s && p < |ready|
    ensures ReadyByPriority(ready, prio[t := p], s[t := Unlimited])
    ensures Waiting(suspended, pending, onEvent, s[t := Ready])
    ensures s[t := Unlimited][t := Ready] == s[t := Ready]
  {
  }
}
