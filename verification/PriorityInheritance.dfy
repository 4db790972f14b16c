/**
 * Priority inheritance: the three priority adjustments of tasks.c, and every
 * interleaving of the mutex calls of queue.c that make them.
 */
module PriorityInheritance {

  const IDLE_PRIORITY: nat := 0

  /** xTaskPriorityInherit: the holder's priority after a task of priority p blocks on its mutex. */
  function Inherited(holder: nat, p: nat): nat {
    if holder < p then p else holder
  }

  /** Its result: whether the holder runs at an inherited priority because of that task. */
  predicate InheritanceOccurred(holder: nat, base: nat, p: nat) {
    holder < p || base < p
  }

  /** xTaskPriorityDisinherit: the priority of a task that has just given one of its mutexes. */
  function Disinherited(priority: nat, base: nat, stillHeld: nat): nat {
    if priority != base && stillHeld == 0 then base else priority
  }

  /** vTaskPriorityDisinheritAfterTimeout: the holder's priority after a waiter gave up. */
  function DisinheritedAfterTimeout(priority: nat, base: nat, held: nat, highestWaiting: nat): nat {
    var toUse := if base < highestWaiting then highestWaiting else base;
    if priority != toUse && held == 1 then toUse else priority
  }

  /** p is the greater of a and b. */
  predicate IsMax(p: nat, a: nat, b: nat) {
    a <= p && b <= p && (p == a || p == b)
  }

  /** The three adjustments: to the greater of two priorities, back to the base, or none. */
  lemma AdjustmentsAreExact(priority: nat, base: nat, held: nat, p: nat)
    ensures IsMax(Inherited(priority, p), priority, p)
    ensures base <= priority ==> (InheritanceOccurred(priority, base, p) <==> base < p)
    ensures Disinherited(priority, base, held) == if held == 0 then base else priority
    ensures if held == 1 then IsMax(DisinheritedAfterTimeout(priority, base, held, p), base, p)
            else DisinheritedAfterTimeout(priority, base, held, p) == priority
  {
  }

  datatype Holder = None | Some(t: nat)

  // `tenure` counts how often the mutex has been taken.
  datatype Mutex = Mutex(holder: Holder, tenure: nat)

  // Where a task is in xQueueSemaphoreTake; `inherited` is its xInheritanceOccurred.
  datatype Where =
    | Outside
    | Waiting(m: nat, since: nat, inherited: bool)   // on the mutex's list since that tenure
    | Retrying(m: nat, inherited: bool)              // woken or timed out, back at the top of the loop
    | GivingUp(m: nat, inherited: bool)              // timed out and has seen the mutex taken

  datatype Task = Task(base: nat, priority: nat, held: nat, place: Where)

  datatype State = State(tasks: map<nat, Task>, mutexes: map<nat, Mutex>)

  datatype Step =
    | Take(t: nat, m: nat)
    | Block(t: nat, m: nat)
    | Give(t: nat, m: nat, next: Holder)    // next: the waiter at the head of the list, if any
    | TimeOut(t: nat)
    | SeeTaken(t: nat)
    | GiveUp(t: nat)

  function WaitersOf(s: State, m: nat): set<nat> {
    set t | t in s.tasks && s.tasks[t].place.Waiting? && s.tasks[t].place.m == m
  }

  /** The priority that prvGetDisinheritPriorityAfterTimeout reads from the head of the waiting list. */
  ghost predicate IsHighestWaiting(s: State, m: nat, p: nat) {
    && (forall t | t in WaitersOf(s, m) :: s.tasks[t].priority <= p)
    && (if WaitersOf(s, m) == {} then p == IDLE_PRIORITY else exists t :: t in WaitersOf(s, m) && s.tasks[t].priority == p)
  }

  /** Whether t may try the mutex m now: a first call, or a retry. */
  predicate MayTry(s: State, t: nat, m: nat) {
    t in s.tasks && m in s.mutexes && match s.tasks[t].place
      case Outside => true
      case Retrying(n, _) => n == m
      case _ => false
  }

  predicate IsHeld(s: State, m: nat) {
    m in s.mutexes && s.mutexes[m].holder.Some? && s.mutexes[m].holder.t in s.tasks
  }

  ghost predicate Enabled(s: State, st: Step) {
    match st
    case Take(t, m) => MayTry(s, t, m) && s.mutexes[m].holder == None
    // Tasks that hold a mutex do not wait for another one.
    case Block(t, m) => MayTry(s, t, m) && IsHeld(s, m) && s.tasks[t].held == 0
    case Give(t, m, next) =>
      && t in s.tasks && m in s.mutexes && s.mutexes[m].holder == Some(t) && s.tasks[t].held > 0
      && (match next
          case None => WaitersOf(s, m) == {}
          case Some(w) => w in WaitersOf(s, m) && IsHighestWaiting(s, m, s.tasks[w].priority))
    case TimeOut(t) => t in s.tasks && s.tasks[t].place.Waiting?
    case SeeTaken(t) => t in s.tasks && s.tasks[t].place.Retrying? && IsHeld(s, s.tasks[t].place.m)
    case GiveUp(t) => t in s.tasks && s.tasks[t].place.GivingUp?
  }

  ghost predicate Next(s: State, st: Step, s': State) {
    Enabled(s, st) && match st
    case Take(t, m) =>
      s' == State(s.tasks[t := s.tasks[t].(held := s.tasks[t].held + 1, place := Outside)],
                  s.mutexes[m := Mutex(Some(t), s.mutexes[m].tenure + 1)])
    case Block(t, m) =>
      var h, p := s.mutexes[m].holder.t, s.tasks[t].priority;
      var raised := s.tasks[h].(priority := Inherited(s.tasks[h].priority, p));
      var inherited := InheritanceOccurred(s.tasks[h].priority, s.tasks[h].base, p);
      s' == s.(tasks := s.tasks[h := raised][t := s.tasks[t].(place := Waiting(m, s.mutexes[m].tenure, inherited))])
    case Give(t, m, next) =>
      var task := s.tasks[t];
      var given := task.(held := task.held - 1, priority := Disinherited(task.priority, task.base, task.held - 1));
      var tasks := s.tasks[t := given];
      s' == State(match next
                  case None => tasks
                  case Some(w) => if w in tasks && tasks[w].place.Waiting? then tasks[w := tasks[w].(place := Retrying(m, tasks[w].place.inherited))] else tasks,
                  s.mutexes[m := s.mutexes[m].(holder := None)])
    case TimeOut(t) => s' == s.(tasks := s.tasks[t := s.tasks[t].(place := Retrying(s.tasks[t].place.m, s.tasks[t].place.inherited))])
    case SeeTaken(t) => s' == s.(tasks := s.tasks[t := s.tasks[t].(place := GivingUp(s.tasks[t].place.m, s.tasks[t].place.inherited))])
    case GiveUp(t) =>
      var m := s.tasks[t].place.m;
      var left := s.tasks[t := s.tasks[t].(place := Outside)];
      if s.tasks[t].place.inherited && IsHeld(s, m) then
        var h := s.mutexes[m].holder.t;
        exists highest :: IsHighestWaiting(s, m, highest) &&
          s' == s.(tasks := left[h := left[h].(priority := DisinheritedAfterTimeout(left[h].priority, left[h].base, left[h].held, highest))])
      else
        s' == s.(tasks := left)
  }

  // ---------- the invariant ----------

  function HeldBy(mutexes: map<nat, Mutex>, t: nat): set<nat> {
    set m | m in mutexes && mutexes[m].holder == Some(t)
  }

  /** What inheritance promises of one task. */
  ghost predicate Fair(s: State, bases: set<nat>, t: nat, task: Task) {
    && task.held == |HeldBy(s.mutexes, t)|
    && task.base <= task.priority
    && (task.held == 0 ==> task.priority == task.base)
    && (!task.place.Outside? ==> task.held == 0 && task.place.m in s.mutexes)
    && (task.place.Waiting? ==> task.place.since <= s.mutexes[task.place.m].tenure)
    && task.base in bases && task.priority in bases
  }

  /** A waiter that blocked on the mutex's present holder does not outrank it, and knows whether it outranks its base. */
  ghost predicate Honoured(s: State, task: Task) {
    task.place.Waiting? && task.place.m in s.mutexes && task.place.since == s.mutexes[task.place.m].tenure && IsHeld(s, task.place.m) ==>
      var holder := s.tasks[s.mutexes[task.place.m].holder.t];
      task.priority <= holder.priority && (task.place.inherited <==> holder.base < task.priority)
  }

  ghost predicate Inv(s: State, bases: set<nat>) {
    && (forall m | m in s.mutexes && s.mutexes[m].holder.Some? :: s.mutexes[m].holder.t in s.tasks)
    && (forall t | t in s.tasks :: Fair(s, bases, t, s.tasks[t]))
    && (forall t | t in s.tasks :: Honoured(s, s.tasks[t]))
  }

  ghost predicate Init(s: State) {
    && (forall m | m in s.mutexes :: s.mutexes[m].holder == None)
    && (forall t | t in s.tasks :: s.tasks[t] == Task(s.tasks[t].base, s.tasks[t].base, 0, Outside))
  }

  ghost function Bases(s: State): set<nat> {
    set t | t in s.tasks :: s.tasks[t].base
  }

  lemma InitIsInv(s: State)
    requires Init(s)
    ensures Inv(s, Bases(s))
  {
    var bases := Bases(s);
    forall t | t in s.tasks ensures Fair(s, bases, t, s.tasks[t]) {
      assert HeldBy(s.mutexes, t) == {};
    }
  }

  lemma HolderHolds(s: State, bases: set<nat>, m: nat)
    requires Inv(s, bases) && IsHeld(s, m)
    ensures s.tasks[s.mutexes[m].holder.t].held > 0 && s.tasks[s.mutexes[m].holder.t].place == Outside
  {
    var h := s.mutexes[m].holder.t;
    assert Fair(s, bases, h, s.tasks[h]);
    assert m in HeldBy(s.mutexes, h);
  }

  lemma OnlyOneHeld(s: State, bases: set<nat>, h: nat, m: nat, n: nat)
    requires Inv(s, bases) && h in s.tasks && s.tasks[h].held == 1
    requires m in HeldBy(s.mutexes, h) && n in HeldBy(s.mutexes, h)
    ensures m == n
  {
    assert Fair(s, bases, h, s.tasks[h]);
    var rest := HeldBy(s.mutexes, h) - {m};
    assert |rest| == 0;
  }

  lemma TakenCount(mutexes: map<nat, Mutex>, m: nat, t: nat, x: nat, tenure: nat)
    requires m in mutexes && mutexes[m].holder == None
    ensures |HeldBy(mutexes[m := Mutex(Some(t), tenure)], x)| == |HeldBy(mutexes, x)| + if x == t then 1 else 0
  {
    var after := mutexes[m := Mutex(Some(t), tenure)];
    if x == t {
      assert HeldBy(after, x) == HeldBy(mutexes, x) + {m};
    } else {
      assert HeldBy(after, x) == HeldBy(mutexes, x);
    }
  }

  lemma GivenCount(mutexes: map<nat, Mutex>, m: nat, t: nat, x: nat)
    requires m in mutexes && mutexes[m].holder == Some(t)
    ensures |HeldBy(mutexes[m := mutexes[m].(holder := None)], x)| == |HeldBy(mutexes, x)| - if x == t then 1 else 0
  {
    var after := mutexes[m := mutexes[m].(holder := None)];
    if x == t {
      assert HeldBy(mutexes, x) == HeldBy(after, x) + {m};
    } else {
      assert HeldBy(after, x) == HeldBy(mutexes, x);
    }
  }

  lemma TakeKeepsInv(s: State, bases: set<nat>, t: nat, m: nat, s': State)
    requires Inv(s, bases) && Next(s, Take(t, m), s')
    ensures Inv(s', bases)
  {
    forall x | x in s'.tasks ensures Fair(s', bases, x, s'.tasks[x]) && Honoured(s', s'.tasks[x]) {
      TakenCount(s.mutexes, m, t, x, s.mutexes[m].tenure + 1);
      assert Fair(s, bases, x, s.tasks[x]) && Honoured(s, s.tasks[x]);
    }
  }

  lemma BlockKeepsInv(s: State, bases: set<nat>, t: nat, m: nat, s': State)
    requires Inv(s, bases) && Next(s, Block(t, m), s')
    ensures Inv(s', bases)
  {
    var h := s.mutexes[m].holder.t;
    HolderHolds(s, bases, m);
    forall x | x in s'.tasks ensures Fair(s', bases, x, s'.tasks[x]) && Honoured(s', s'.tasks[x]) {
      assert Fair(s, bases, x, s.tasks[x]) && Honoured(s, s.tasks[x]);
    }
  }

  lemma GiveKeepsInv(s: State, bases: set<nat>, t: nat, m: nat, next: Holder, s': State)
    requires Inv(s, bases) && Next(s, Give(t, m, next), s')
    ensures Inv(s', bases)
  {
    hide HeldBy, WaitersOf, IsHighestWaiting;
    HolderHolds(s, bases, m);
    forall x | x in s'.tasks ensures Fair(s', bases, x, s'.tasks[x]) {
      GivenCount(s.mutexes, m, t, x);
      assert Fair(s, bases, x, s.tasks[x]);
    }
    forall x | x in s'.tasks ensures Honoured(s', s'.tasks[x]) {
      assert Honoured(s, s.tasks[x]);
      var place := s'.tasks[x].place;
      if place.Waiting? && place.m in s'.mutexes && s'.mutexes[place.m].holder == Some(t) {
        InHeldBy(s.mutexes, m, t);
        InHeldBy(s.mutexes, place.m, t);
        TwoHeld(s, bases, t, m, place.m);
      }
    }
  }

  lemma TwoHeld(s: State, bases: set<nat>, t: nat, m: nat, n: nat)
    requires Inv(s, bases) && t in s.tasks && m != n
    requires m in HeldBy(s.mutexes, t) && n in HeldBy(s.mutexes, t)
    ensures s.tasks[t].held >= 2
  {
    if s.tasks[t].held == 1 { OnlyOneHeld(s, bases, t, m, n); }
    assert Fair(s, bases, t, s.tasks[t]);
  }

  lemma WaitStepKeepsInv(s: State, bases: set<nat>, st: Step, s': State)
    requires Inv(s, bases) && Next(s, st, s') && (st.TimeOut? || st.SeeTaken?)
    ensures Inv(s', bases)
  {
    forall x | x in s'.tasks ensures Fair(s', bases, x, s'.tasks[x]) && Honoured(s', s'.tasks[x]) {
      assert Fair(s, bases, x, s.tasks[x]) && Honoured(s, s.tasks[x]);
    }
  }

  /** The holder's new priority after a timeout: the greatest of its base and the waiters' if it holds one mutex, and else the old one. */
  lemma LoweredPriorityIsFair(s: State, bases: set<nat>, h: nat, m: nat, highest: nat)
    requires Inv(s, bases) && h in s.tasks && m in s.mutexes && IsHighestWaiting(s, m, highest)
    ensures
      var p := DisinheritedAfterTimeout(s.tasks[h].priority, s.tasks[h].base, s.tasks[h].held, highest);
      && p in bases && s.tasks[h].base <= p
      && if s.tasks[h].held == 1 then IsGreatest(p, s.tasks[h].base, s, WaitersOf(s, m)) else p == s.tasks[h].priority
  {
    assert Fair(s, bases, h, s.tasks[h]);
    if s.tasks[h].base < highest {
      var w :| w in WaitersOf(s, m) && s.tasks[w].priority == highest;
      assert Fair(s, bases, w, s.tasks[w]);
    }
  }

  /** It is lowered only if m is all it holds, and then not below the tasks that still wait for m. */
  lemma LoweredPriorityIsHonoured(s: State, bases: set<nat>, h: nat, m: nat, highest: nat, x: nat)
    requires Inv(s, bases) && m in HeldBy(s.mutexes, h) && h in s.tasks && IsHighestWaiting(s, m, highest)
    requires x in s.tasks && s.tasks[x].place.Waiting? && s.tasks[x].place.m in HeldBy(s.mutexes, h)
    requires s.tasks[x].place.since == s.mutexes[s.tasks[x].place.m].tenure
    ensures s.tasks[x].priority <= DisinheritedAfterTimeout(s.tasks[h].priority, s.tasks[h].base, s.tasks[h].held, highest)
  {
    assert Honoured(s, s.tasks[x]);
    if s.tasks[h].held == 1 {
      OnlyOneHeld(s, bases, h, m, s.tasks[x].place.m);
      assert x in WaitersOf(s, m);
    }
  }

  lemma LoweringKeepsInv(s: State, bases: set<nat>, t: nat, m: nat, highest: nat, s': State)
    requires Inv(s, bases) && t in s.tasks && s.tasks[t].place == GivingUp(m, true) && IsHeld(s, m)
    requires IsHighestWaiting(s, m, highest)
    requires
      var left, h := s.tasks[t := s.tasks[t].(place := Outside)], s.mutexes[m].holder.t;
      s' == s.(tasks := left[h := left[h].(priority := DisinheritedAfterTimeout(left[h].priority, left[h].base, left[h].held, highest))])
    ensures Inv(s', bases)
  {
    hide IsHighestWaiting, DisinheritedAfterTimeout, HeldBy;
    HolderHolds(s, bases, m);
    var h := s.mutexes[m].holder.t;
    LoweredPriorityIsFair(s, bases, h, m, highest);
    forall x | x in s'.tasks ensures Fair(s', bases, x, s'.tasks[x]) {
      assert Fair(s, bases, x, s.tasks[x]);
    }
    forall x | x in s'.tasks ensures Honoured(s', s'.tasks[x]) {
      assert Honoured(s, s.tasks[x]);
      var place := s'.tasks[x].place;
      if place.Waiting? && place.m in s.mutexes && place.since == s.mutexes[place.m].tenure && s.mutexes[place.m].holder == Some(h) {
        InHeldBy(s.mutexes, m, h);
        InHeldBy(s.mutexes, place.m, h);
        LoweredPriorityIsHonoured(s, bases, h, m, highest, x);
      }
    }
  }

  lemma InHeldBy(mutexes: map<nat, Mutex>, m: nat, t: nat)
    requires m in mutexes && mutexes[m].holder == Some(t)
    ensures m in HeldBy(mutexes, t)
  {
  }

  lemma GiveUpKeepsInv(s: State, bases: set<nat>, t: nat, s': State)
    requires Inv(s, bases) && Next(s, GiveUp(t), s')
    ensures Inv(s', bases)
  {
    var m := s.tasks[t].place.m;
    if s.tasks[t].place.inherited && IsHeld(s, m) {
      var h := s.mutexes[m].holder.t;
      var left := s.tasks[t := s.tasks[t].(place := Outside)];
      var highest :| IsHighestWaiting(s, m, highest) &&
        s' == s.(tasks := left[h := left[h].(priority := DisinheritedAfterTimeout(left[h].priority, left[h].base, left[h].held, highest))]);
      LoweringKeepsInv(s, bases, t, m, highest, s');
    } else {
      forall x | x in s'.tasks ensures Fair(s', bases, x, s'.tasks[x]) && Honoured(s', s'.tasks[x]) {
        assert Fair(s, bases, x, s.tasks[x]) && Honoured(s, s.tasks[x]);
      }
    }
  }

  lemma StepKeepsInv(s: State, bases: set<nat>, st: Step, s': State)
    requires Inv(s, bases) && Next(s, st, s')
    ensures Inv(s', bases)
  {
    hide Inv, Next;
    match st {
      case Take(t, m) => TakeKeepsInv(s, bases, t, m, s');
      case Block(t, m) => BlockKeepsInv(s, bases, t, m, s');
      case Give(t, m, next) => GiveKeepsInv(s, bases, t, m, next, s');
      case GiveUp(t) => GiveUpKeepsInv(s, bases, t, s');
      case _ => WaitStepKeepsInv(s, bases, st, s');
    }
  }

  // ---------- what holds in every run ----------

  /** The states that a run passes through. */
  ghost predicate IsRun(run: seq<State>, steps: seq<Step>) {
    && |run| == |steps| + 1
    && Init(run[0])
    && forall i | 0 <= i < |steps| :: Next(run[i], steps[i], run[i + 1])
  }

  lemma {:induction false} RunKeepsInv(run: seq<State>, steps: seq<Step>, i: nat)
    requires IsRun(run, steps) && i < |run|
    ensures Inv(run[i], Bases(run[0]))
  {
    if i == 0 {
      InitIsInv(run[0]);
    } else {
      RunKeepsInv(run, steps, i - 1);
      StepKeepsInv(run[i - 1], Bases(run[0]), steps[i - 1], run[i]);
    }
  }

  /** No waiter that blocked while t has held m, and still waits, outranks t. */
  ghost predicate OutranksItsWaiters(s: State, t: nat, m: nat)
    requires t in s.tasks && m in s.mutexes
  {
    forall w | w in WaitersOf(s, m) && s.tasks[w].place.since == s.mutexes[m].tenure :: s.tasks[w].priority <= s.tasks[t].priority
  }

  /**
   * At every moment of every run: a task that holds no mutex runs at its base
   * priority; a holder runs at no less than its base, and at no less than any
   * task that blocked on one of its mutexes while it held it and still waits;
   * every priority is one that some task has as its base; and such a task has
   * noted that the holder inherited because of it just if it outranks its base.
   */
  lemma {:induction false} InheritanceIsHonoured(run: seq<State>, steps: seq<Step>, i: nat, t: nat)
    requires IsRun(run, steps) && i < |run| && t in run[i].tasks
    ensures HeldBy(run[i].mutexes, t) == {} ==> run[i].tasks[t].priority == run[i].tasks[t].base
    ensures run[i].tasks[t].base <= run[i].tasks[t].priority
    ensures forall m | m in HeldBy(run[i].mutexes, t) :: OutranksItsWaiters(run[i], t, m)
    ensures run[i].tasks[t].priority in Bases(run[0])
    ensures forall m, w | m in HeldBy(run[i].mutexes, t) && w in WaitersOf(run[i], m) && run[i].tasks[w].place.since == run[i].mutexes[m].tenure ::
      run[i].tasks[w].place.inherited <==> run[i].tasks[t].base < run[i].tasks[w].priority
  {
    RunKeepsInv(run, steps, i);
    var s, bases := run[i], Bases(run[0]);
    assert Fair(s, bases, t, s.tasks[t]);
    forall m, w | m in HeldBy(s.mutexes, t) && w in WaitersOf(s, m) && s.tasks[w].place.since == s.mutexes[m].tenure
      ensures s.tasks[w].place.inherited <==> s.tasks[t].base < s.tasks[w].priority
    {
      assert Honoured(s, s.tasks[w]);
    }
    forall m | m in HeldBy(s.mutexes, t) ensures OutranksItsWaiters(s, t, m) {
      forall w | w in WaitersOf(s, m) && s.tasks[w].place.since == s.mutexes[m].tenure
        ensures s.tasks[w].priority <= s.tasks[t].priority
      {
        assert Honoured(s, s.tasks[w]);
      }
    }
  }

  /**
   * Which priorities a step changes, and to what.  Blocking raises the holder to
   * the blocker's priority, if that is higher; giving its last mutex takes the
   * giver back to its base.  When a task that made the holder inherit gives up,
   * a holder of this one mutex falls to the highest priority among those that
   * still wait for it, but not below its base; a holder of more keeps its
   * priority.  No step changes any other priority.
   */
  ghost predicate ChangesAsItShould(s: State, st: Step, s': State, x: nat)
    requires x in s.tasks && x in s'.tasks
  {
    var p, p' := s.tasks[x].priority, s'.tasks[x].priority;
    match st
    case Block(t, m) => t in s.tasks && m in s.mutexes &&
      if s.mutexes[m].holder == Some(x) then IsMax(p', p, s.tasks[t].priority) else p' == p
    case Give(t, m, next) =>
      p' == if x == t && HeldBy(s'.mutexes, t) == {} then s.tasks[x].base else p
    case GiveUp(t) => t in s.tasks && s.tasks[t].place.GivingUp? &&
      var m := s.tasks[t].place.m;
      if s.tasks[t].place.inherited && m in HeldBy(s.mutexes, x) && HeldBy(s.mutexes, x) == {m}
      then IsGreatest(p', s.tasks[x].base, s', WaitersOf(s', m))
      else p' == p
    case _ => p' == p
  }

  lemma {:induction false} PrioritiesChangeAsTheyShould(run: seq<State>, steps: seq<Step>, i: nat, x: nat)
    requires IsRun(run, steps) && i < |steps| && x in run[i].tasks
    ensures x in run[i + 1].tasks && ChangesAsItShould(run[i], steps[i], run[i + 1], x) && run[i + 1].tasks[x].base == run[i].tasks[x].base
  {
    RunKeepsInv(run, steps, i);
    RunKeepsInv(run, steps, i + 1);
    var s, s', bases := run[i], run[i + 1], Bases(run[0]);
    assert Next(s, steps[i], s');
    hide Inv, IsRun, HeldBy, Next;
    match steps[i] {
      case GiveUp(t) => GivingUpLowers(s, bases, t, x, s');
      case Block(t, m) => BlockingRaises(s, bases, t, m, s', x);
      case Give(t, m, next) => GivingReturnsToBase(s, bases, t, m, next, x, s');
      case _ => OthersKeepPriorities(s, steps[i], s', x);
    }
  }

  lemma OthersKeepPriorities(s: State, st: Step, s': State, x: nat)
    requires Next(s, st, s') && x in s.tasks && (st.Take? || st.TimeOut? || st.SeeTaken?)
    ensures x in s'.tasks && s'.tasks[x].priority == s.tasks[x].priority && s'.tasks[x].base == s.tasks[x].base
  {
  }

  lemma BlockingRaises(s: State, bases: set<nat>, t: nat, m: nat, s': State, x: nat)
    requires Inv(s, bases) && Next(s, Block(t, m), s') && x in s.tasks
    ensures x in s'.tasks && ChangesAsItShould(s, Block(t, m), s', x) && s'.tasks[x].base == s.tasks[x].base
  {
    hide HeldBy;
    HolderHolds(s, bases, m);
  }

  /** A task that retries may take its mutex if that is free, and may block on it again or give up if it is not. */
  lemma RetryingTaskCanMove(run: seq<State>, steps: seq<Step>, i: nat, t: nat)
    requires IsRun(run, steps) && i < |run| && t in run[i].tasks && run[i].tasks[t].place.Retrying?
    ensures
      var s, m := run[i], run[i].tasks[t].place.m;
      && m in s.mutexes
      && (s.mutexes[m].holder == None ==> Enabled(s, Take(t, m)))
      && (s.mutexes[m].holder != None ==> Enabled(s, Block(t, m)) && Enabled(s, SeeTaken(t)))
      && (forall n | n != m :: !Enabled(s, Take(t, n)) && !Enabled(s, Block(t, n)))
  {
    RunKeepsInv(run, steps, i);
    assert Fair(run[i], Bases(run[0]), t, run[i].tasks[t]);
  }

  lemma GivingReturnsToBase(s: State, bases: set<nat>, t: nat, m: nat, next: Holder, x: nat, s': State)
    requires Inv(s, bases) && Inv(s', bases) && Next(s, Give(t, m, next), s') && x in s.tasks
    ensures x in s'.tasks && ChangesAsItShould(s, Give(t, m, next), s', x) && s'.tasks[x].base == s.tasks[x].base
  {
    hide HeldBy;
    HolderHolds(s, bases, m);
    assert Fair(s, bases, x, s.tasks[x]) && Fair(s', bases, x, s'.tasks[x]);
    EmptyOrNot(s'.mutexes, t);
  }

  lemma EmptyOrNot(mutexes: map<nat, Mutex>, t: nat)
    ensures |HeldBy(mutexes, t)| == 0 <==> HeldBy(mutexes, t) == {}
  {
  }

  /** p is the greatest of a task's base and the priorities of the waiters ws. */
  ghost predicate IsGreatest(p: nat, base: nat, s: State, ws: set<nat>)
    requires forall w | w in ws :: w in s.tasks
  {
    && base <= p && (forall w | w in ws :: s.tasks[w].priority <= p)
    && (p == base || exists w :: w in ws && s.tasks[w].priority == p)
  }

  lemma GivingUpLowers(s: State, bases: set<nat>, t: nat, x: nat, s': State)
    requires Inv(s, bases) && Next(s, GiveUp(t), s') && x in s.tasks
    ensures x in s'.tasks && ChangesAsItShould(s, GiveUp(t), s', x) && s'.tasks[x].base == s.tasks[x].base
  {
    hide HeldBy, WaitersOf, IsHighestWaiting, DisinheritedAfterTimeout, IsGreatest;
    var m := s.tasks[t].place.m;
    if s.tasks[t].place.inherited && IsHeld(s, m) {
      var h := s.mutexes[m].holder.t;
      HolderHolds(s, bases, m);
      var left := s.tasks[t := s.tasks[t].(place := Outside)];
      var highest :| IsHighestWaiting(s, m, highest) &&
        s' == s.(tasks := left[h := left[h].(priority := DisinheritedAfterTimeout(left[h].priority, left[h].base, left[h].held, highest))]);
      LoweredPriorityIsFair(s, bases, h, m, highest);
      HoldsOnly(s, bases, h, m);
      SameWaiters(s, s', m, s'.tasks[h].priority, s.tasks[h].base);
    }
    IsHolder(s.mutexes, m, x);
  }

  lemma IsHolder(mutexes: map<nat, Mutex>, m: nat, x: nat)
    ensures m in HeldBy(mutexes, x) <==> m in mutexes && mutexes[m].holder == Some(x)
  {
  }

  lemma HoldsOnly(s: State, bases: set<nat>, h: nat, m: nat)
    requires Inv(s, bases) && m in s.mutexes && s.mutexes[m].holder == Some(h) && h in s.tasks
    ensures s.tasks[h].held == 1 <==> HeldBy(s.mutexes, h) == {m}
  {
    assert Fair(s, bases, h, s.tasks[h]);
    assert m in HeldBy(s.mutexes, h);
    if s.tasks[h].held == 1 {
      forall n | n in HeldBy(s.mutexes, h) ensures n == m { OnlyOneHeld(s, bases, h, m, n); }
    }
  }

  /** Who waits for a mutex, and with which priorities, is the same when no waiter has moved. */
  lemma SameWaiters(s: State, s': State, m: nat, p: nat, base: nat)
    requires s'.tasks.Keys == s.tasks.Keys
    requires forall x | x in s.tasks :: s.tasks[x].place.Waiting? || s'.tasks[x].place.Waiting? ==> s'.tasks[x] == s.tasks[x]
    ensures IsGreatest(p, base, s, WaitersOf(s, m)) ==> IsGreatest(p, base, s', WaitersOf(s', m))
  {
    assert WaitersOf(s', m) == WaitersOf(s, m);
    if IsGreatest(p, base, s, WaitersOf(s, m)) && p != base {
      var w :| w in WaitersOf(s, m) && s.tasks[w].priority == p;
      assert w in WaitersOf(s', m) && s'.tasks[w].priority == p;
    }
  }
}
