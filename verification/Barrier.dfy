/**
 * The rendezvous of event_groups.c: n tasks that each set bits of their own and
 * wait without limit for all of them, over any number of rounds.  A call of
 * xEventGroupSync is taken apart into the steps between which the scheduler's
 * suspension depth decides who may run.
 */
module Barrier {
  import opened EventGroups

  // Where a task is in xEventGroupSync; `original` is its uxOriginalBitValue.
  datatype Pc =
    | Out
    | Called
    | Suspended
    | Read(original: bv32)
    | SetInside(original: bv32)    // xEventGroupSetBits has done its walk, its own suspension not yet undone
    | HasSet(original: bv32)
    | Leaving                      // will not block
    | Placed                       // is on the list
    | Parked                       // is on the list, or woken but not yet returned

  datatype Task = Task(pc: Pc, entered: nat, returned: nat)   // calls entered, calls returned from

  datatype State = State(group: Group, depth: nat, owner: nat, tasks: seq<Task>)

  datatype Step =
    | Call(t: nat)
    | SuspendAll(t: nat)
    | ReadBits(t: nat)
    | SetBits(t: nat)
    | InnerResume(t: nat)
    | Decide(t: nat)
    | Resume(t: nat)
    | Return(t: nat, normalValue: bv32)

  /** The bits that every task waits for. */
  function All(own: seq<bv32>): bv32 {
    if own == [] then 0 else With(All(own[..|own| - 1]), own[|own| - 1])
  }

  predicate Apart(own: seq<bv32>, j: int, k: int)
    requires 0 <= j < |own| && 0 <= k < |own|
  {
    NoneOf(own[j], own[k])
  }

  ghost predicate OwnBits(own: seq<bv32>) {
    && |own| > 0
    && (forall k | 0 <= k < |own| :: own[k] != 0 && IsPlain(own[k]))
    && (forall j, k | 0 <= j < |own| && 0 <= k < |own| && j != k :: Apart(own, j, k))
  }

  function Rendezvous(own: seq<bv32>): bv32 {
    Request(All(own), true, true)
  }

  /** The test that a task makes with the bits it read before it set its own. */
  predicate Complete(own: seq<bv32>, t: nat, original: bv32)
    requires t < |own|
  {
    Common(With(original, own[t]), All(own)) == All(own)
  }

  /** While a task has suspended the scheduler, no other task runs. */
  predicate MayRun(s: State, t: nat) {
    t < |s.tasks| && (s.depth == 0 || s.owner == t)
  }

  function Moved(s: State, t: nat, pc: Pc): State
    requires t < |s.tasks|
  {
    s.(tasks := s.tasks[t := s.tasks[t].(pc := pc)])
  }

  function Finished(s: State, t: nat): State
    requires t < |s.tasks|
  {
    s.(tasks := s.tasks[t := Task(Out, s.tasks[t].entered, s.tasks[t].returned + 1)])
  }

  /**
   * One step.  `nesting` says whether the suspension nests, as it does in
   * tasks.c: without it the inner resume would already let other tasks run.
   */
  ghost predicate Next(own: seq<bv32>, nesting: bool, s: State, st: Step, s': State) {
    && MayRun(s, st.t) && |s.tasks| == |own| && HaveValues(s.group.waiting, s.group.values)
    && var t, pc := st.t, s.tasks[st.t].pc;
    match st
    case Call(_) => pc.Out? && s' == s.(tasks := s.tasks[t := Task(Called, s.tasks[t].entered + 1, s.tasks[t].returned)])
    case SuspendAll(_) => pc.Called? && s' == Moved(s, t, Suspended).(depth := s.depth + 1, owner := t)
    case ReadBits(_) => pc.Suspended? && s' == Moved(s, t, Read(s.group.bits))
    case SetBits(_) => pc.Read? && s' == Moved(s, t, SetInside(pc.original)).(group := AfterSet(s.group, own[t]), depth := s.depth + 1)
    case InnerResume(_) => pc.SetInside? && s' == Moved(s, t, HasSet(pc.original)).(depth := if nesting && s.depth > 0 then s.depth - 1 else 0)
    case Decide(_) => pc.HasSet? && s' ==
      if Complete(own, t, pc.original)
      then Moved(s, t, Leaving).(group := s.group.(bits := Without(s.group.bits, All(own))))
      else Moved(s, t, Placed).(group := AfterPlacing(s.group, t, Rendezvous(own)))
    case Resume(_) => (pc.Leaving? || pc.Placed?) && s' ==
      (if pc.Leaving? then Finished(s, t) else Moved(s, t, Parked)).(depth := if s.depth > 0 then s.depth - 1 else 0)
    case Return(_, v) => (
      && pc.Parked? && t in s.group.values && WasUnblocked(s.group.values[t])
      && s' == Finished(s, t).(group := s.group.(values := s.group.values[t := v])))
  }

  ghost predicate Init(own: seq<bv32>, s: State) {
    && OwnBits(own) && |s.tasks| == |own|
    && s.group == Group(0, [], s.group.values) && s.depth == 0
    && forall t | 0 <= t < |s.tasks| :: s.tasks[t] == Task(Out, 0, 0)
  }

  // ---------- bits ----------

  predicate Within(bits: bv32, all: bv32) {
    Without(bits, all) == 0
  }

  lemma OwnBitIsSet(bits: bv32, x: bv32)
    ensures Common(With(bits, x), x) == x
  {
  }

  lemma OtherBitsStay(bits: bv32, x: bv32, y: bv32)
    requires NoneOf(x, y)
    ensures Common(With(bits, x), y) == Common(bits, y)
  {
  }

  lemma SetWithin(bits: bv32, x: bv32, mask: bv32, all: bv32)
    requires Within(bits, all) && Within(x, all)
    ensures Within(With(bits, x), all) && Within(Without(bits, mask), all)
  {
  }

  lemma NoneOfNone(b: bv32)
    ensures Common(0, b) == 0 && Within(0, b)
  {
  }

  lemma ContainsPart(bits: bv32, x: bv32, y: bv32)
    requires Common(bits, With(x, y)) == With(x, y)
    ensures Common(bits, x) == x
  {
  }

  lemma WithCommutes(x: bv32, y: bv32)
    ensures With(x, y) == With(y, x)
  {
  }

  lemma ContainsBoth(bits: bv32, x: bv32, y: bv32)
    ensures Common(bits, With(x, y)) == With(x, y) <==> Common(bits, x) == x && Common(bits, y) == y
  {
    hide Common, With;
    if Common(bits, With(x, y)) == With(x, y) {
      ContainsPart(bits, x, y);
      WithCommutes(x, y);
      ContainsPart(bits, y, x);
    }
    MaskCommutes(bits, With(x, y));
    MaskDistributes(x, y, bits);
    MaskCommutes(x, bits);
    MaskCommutes(y, bits);
  }

  lemma WithinEither(x: bv32, y: bv32)
    ensures Within(x, With(x, y)) && Within(y, With(x, y))
  {
  }

  lemma WithinTransitive(x: bv32, y: bv32, z: bv32)
    requires Within(x, y) && Within(y, z)
    ensures Within(x, z)
  {
  }

  /** All bits are set just when everybody's are. */
  lemma {:induction false} AllSet(own: seq<bv32>, bits: bv32)
    ensures Common(bits, All(own)) == All(own) <==> forall k | 0 <= k < |own| :: Common(bits, own[k]) == own[k]
  {
    hide Common, With;
    if own == [] {
      NoneOfNone(bits);
      MaskCommutes(bits, 0);
    } else {
      var n := |own| - 1;
      AllSet(own[..n], bits);
      ContainsBoth(bits, All(own[..n]), own[n]);
      assert forall k | 0 <= k < n :: own[..n][k] == own[k];
    }
  }

  lemma {:induction false} OwnWithinAll(own: seq<bv32>, k: nat)
    requires k < |own|
    ensures Within(own[k], All(own))
  {
    hide Within, With;
    var n := |own| - 1;
    WithinEither(All(own[..n]), own[n]);
    if k < n {
      OwnWithinAll(own[..n], k);
      WithinTransitive(own[k], All(own[..n]), All(own));
    }
  }

  lemma {:induction false} AllIsPlain(own: seq<bv32>)
    requires forall k | 0 <= k < |own| :: IsPlain(own[k])
    ensures IsPlain(All(own))
  {
    hide IsPlain, With;
    if own == [] {
      ZeroIsPlain();
    } else {
      AllIsPlain(own[..|own| - 1]);
      PlainBits(All(own[..|own| - 1]), own[|own| - 1], 0);
    }
  }

  lemma SomeBits(own: seq<bv32>)
    requires OwnBits(own)
    ensures All(own) != 0
  {
    hide All, Within;
    OwnWithinAll(own, 0);
    if All(own) == 0 { WithinNothing(own[0]); }
  }

  lemma WithinNothing(x: bv32)
    requires Within(x, 0)
    ensures x == 0
  {
  }

  lemma ZeroIsPlain()
    ensures IsPlain(0)
  {
  }

  // ---------- setting bits for waiters that all want the same ----------

  ghost predicate AllShow(g: Group, value: bv32) {
    forall k | 0 <= k < |g.waiting| :: g.waiting[k] in g.values && g.values[g.waiting[k]] == value
  }

  lemma {:induction false} NobodyWoken(ws: seq<nat>, values: Values, value: bv32, bits: bv32)
    requires forall k | 0 <= k < |ws| :: ws[k] in values && values[ws[k]] == value
    requires !Satisfied(value, bits)
    ensures Unsatisfied(ws, values, bits) == ws && ClearMask(ws, values, bits) == 0
  {
    hide Satisfied, With;
    if ws != [] {
      NobodyWoken(ws[..|ws| - 1], values, value, bits);
      WithNothing(0);
      assert ws == ws[..|ws| - 1] + [ws[|ws| - 1]];
    }
  }

  lemma {:induction false} EverybodyWoken(ws: seq<nat>, values: Values, value: bv32, bits: bv32)
    requires forall k | 0 <= k < |ws| :: ws[k] in values && values[ws[k]] == value
    requires Satisfied(value, bits)
    ensures Unsatisfied(ws, values, bits) == []
  {
    hide Satisfied, With;
    if ws != [] {
      EverybodyWoken(ws[..|ws| - 1], values, value, bits);
    }
  }

  lemma WithoutNothing(bits: bv32)
    ensures Without(bits, 0) == bits
  {
  }

  lemma SetForNobody(g: Group, value: bv32, toSet: bv32)
    requires AllShow(g, value) && !Satisfied(value, With(g.bits, toSet))
    ensures AfterSet(g, toSet) == g.(bits := With(g.bits, toSet))
  {
    hide Satisfied, With, Without, Result;
    var bits := With(g.bits, toSet);
    NobodyWoken(g.waiting, g.values, value, bits);
    WithoutNothing(bits);
    assert AfterSet(g, toSet).values == g.values;
  }

  lemma SetForEverybody(g: Group, value: bv32, toSet: bv32)
    requires AllShow(g, value) && Satisfied(value, With(g.bits, toSet))
    ensures AfterSet(g, toSet).waiting == []
    ensures AfterSet(g, toSet).values.Keys == g.values.Keys
    ensures forall t | t in g.values :: AfterSet(g, toSet).values[t] == if t in g.waiting then Result(With(g.bits, toSet)) else g.values[t]
    ensures exists mask :: AfterSet(g, toSet).bits == Without(With(g.bits, toSet), mask)
  {
    hide Satisfied, With, Without, Result;
    EverybodyWoken(g.waiting, g.values, value, With(g.bits, toSet));
  }

  // ---------- the invariant ----------

  predicate Inner(pc: Pc) {
    pc.Suspended? || pc.Read? || pc.SetInside? || pc.HasSet? || pc.Leaving? || pc.Placed?
  }

  /** A task has suspended the scheduler just while it owns it, and as deeply as its place says. */
  ghost predicate Scheduling(s: State) {
    && (forall t | 0 <= t < |s.tasks| :: Inner(s.tasks[t].pc) <==> s.depth > 0 && t == s.owner)
    && (s.depth > 0 ==> s.owner < |s.tasks| && s.depth == (if s.tasks[s.owner].pc.SetInside? then 2 else 1))
  }

  /** Whether t has set its bits in the round that is not yet complete. */
  predicate Arrived(own: seq<bv32>, g: Group, t: nat, pc: Pc)
    requires t < |own|
  {
    match pc
    case SetInside(o) => !Complete(own, t, o)
    case HasSet(o) => !Complete(own, t, o)
    case Placed => true
    case Parked => t in g.waiting
    case _ => false
  }

  /** Whether t has seen the present count of rounds completed, without having returned from its call. */
  predicate Passed(own: seq<bv32>, g: Group, t: nat, pc: Pc)
    requires t < |own|
  {
    match pc
    case SetInside(o) => Complete(own, t, o)
    case HasSet(o) => Complete(own, t, o)
    case Leaving => true
    case Parked => t !in g.waiting
    case _ => false
  }

  /** The counts of a task when `rounds` rounds are complete. */
  ghost predicate Counts(own: seq<bv32>, g: Group, rounds: nat, t: nat, task: Task)
    requires t < |own|
  {
    && task.returned + (if Passed(own, g, t, task.pc) then 1 else 0) == rounds
    && task.entered == rounds + (if task.pc.Out? || Passed(own, g, t, task.pc) then 0 else 1)
    && (t in g.waiting ==> task.pc.Placed? || task.pc.Parked?)
    && (task.pc.Placed? ==> t in g.waiting)
    && (task.pc.Parked? && t !in g.waiting ==> t in g.values && WasUnblocked(g.values[t]))
    && (task.pc.Read? ==> task.pc.original == g.bits)
  }

  /** The scheduler is suspended by a task that has completed a round and not yet cleared the bits. */
  predicate Completing(own: seq<bv32>, s: State)
    requires |s.tasks| == |own|
  {
    s.depth > 0 && s.owner < |own| && match s.tasks[s.owner].pc
      case SetInside(o) => Complete(own, s.owner, o)
      case HasSet(o) => Complete(own, s.owner, o)
      case _ => false
  }

  ghost predicate BitsOf(own: seq<bv32>, s: State, t: nat)
    requires |s.tasks| == |own| && t < |own|
  {
    if Arrived(own, s.group, t, s.tasks[t].pc) then !Completing(own, s) && Common(s.group.bits, own[t]) == own[t]
    else Completing(own, s) || Common(s.group.bits, own[t]) == 0
  }

  /** As long as no round is being completed, some bit is missing. */
  predicate Open(own: seq<bv32>, s: State)
    requires |s.tasks| == |own|
  {
    Completing(own, s) || Common(s.group.bits, All(own)) != All(own)
  }

  ghost predicate Inv(own: seq<bv32>, s: State, rounds: nat) {
    && OwnBits(own) && |s.tasks| == |own| && Open(own, s)
    && Scheduling(s)
    && AllShow(s.group, Rendezvous(own)) && (forall k | 0 <= k < |s.group.waiting| :: s.group.waiting[k] < |own|)
    && Within(s.group.bits, All(own))
    && (forall t | 0 <= t < |own| :: Counts(own, s.group, rounds, t, s.tasks[t]))
    && (forall t | 0 <= t < |own| :: BitsOf(own, s, t))
  }

  lemma InitIsInv(own: seq<bv32>, s: State)
    requires Init(own, s)
    ensures Inv(own, s, 0)
  {
    hide Common, Within, All, IsPlain, Rendezvous, Complete, Apart, WasUnblocked;
    NoneOfNone(All(own));
    SomeBits(own);
    forall t | 0 <= t < |own| ensures Common(0, own[t]) == 0 { NoneOfNone(own[t]); }
  }

  lemma QuietStepKeepsInv(own: seq<bv32>, s: State, rounds: nat, st: Step, s': State)
    requires Inv(own, s, rounds) && Next(own, true, s, st, s') && (st.Call? || st.ReadBits?)
    ensures Inv(own, s', rounds)
  {
    hide Common, Within, All, OwnBits, Rendezvous, Complete, WasUnblocked, HaveValues, AllShow;
    assert Counts(own, s.group, rounds, st.t, s.tasks[st.t]);
    assert Completing(own, s) == Completing(own, s');
    forall t | 0 <= t < |own| ensures Counts(own, s'.group, rounds, t, s'.tasks[t]) && BitsOf(own, s', t) {
      assert Counts(own, s.group, rounds, t, s.tasks[t]) && BitsOf(own, s, t);
    }
  }

  lemma SchedulerStepKeepsInv(own: seq<bv32>, s: State, rounds: nat, st: Step, s': State)
    requires Inv(own, s, rounds) && Next(own, true, s, st, s') && (st.SuspendAll? || st.InnerResume? || st.Resume?)
    ensures Inv(own, s', rounds)
  {
    hide Common, Within, All, OwnBits, Rendezvous, Complete, WasUnblocked, HaveValues, AllShow;
    assert Counts(own, s.group, rounds, st.t, s.tasks[st.t]);
    assert Completing(own, s) == Completing(own, s');
    forall t | 0 <= t < |own| ensures Counts(own, s'.group, rounds, t, s'.tasks[t]) && BitsOf(own, s', t) {
      assert Counts(own, s.group, rounds, t, s.tasks[t]) && BitsOf(own, s, t);
    }
  }

  lemma ReturnKeepsInv(own: seq<bv32>, s: State, rounds: nat, st: Step, s': State)
    requires Inv(own, s, rounds) && Next(own, true, s, st, s') && st.Return?
    ensures Inv(own, s', rounds)
  {
    hide Common, Within, All, OwnBits, Complete, WasUnblocked, HaveValues, Rendezvous;
    RendezvousNotUnblocked(own);
    assert st.t !in s.group.waiting;
    forall t | 0 <= t < |own| ensures Counts(own, s'.group, rounds, t, s'.tasks[t]) && BitsOf(own, s', t) {
      assert Counts(own, s.group, rounds, t, s.tasks[t]) && BitsOf(own, s, t);
    }
  }

  lemma RendezvousNotUnblocked(own: seq<bv32>)
    requires OwnBits(own)
    ensures !WasUnblocked(Rendezvous(own))
    ensures forall bits :: Satisfied(Rendezvous(own), bits) <==> Common(bits, All(own)) == All(own)
  {
    hide IsPlain, Satisfied, Request, WasUnblocked, All, Common;
    AllIsPlain(own);
    forall bits: bv32 ensures Satisfied(Rendezvous(own), bits) <==> Common(bits, All(own)) == All(own) {
      RequestIsReadBack(All(own), true, true, bits);
    }
    RequestIsReadBack(All(own), true, true, 0);
  }

  /** A task's bits set or unset after t has set its own. */
  lemma OwnBitsAfterSet(own: seq<bv32>, bits: bv32, t: nat, u: nat)
    requires OwnBits(own) && t < |own| && u < |own|
    ensures Common(With(bits, own[t]), own[u]) == if u == t then own[u] else Common(bits, own[u])
  {
    hide Common, With;
    if u == t {
      OwnBitIsSet(bits, own[t]);
    } else {
      assert Apart(own, t, u);
      OtherBitsStay(bits, own[t], own[u]);
    }
  }

  /** A call of SetBits that completes no round wakes nobody. */
  lemma LonelySetKeepsInv(own: seq<bv32>, s: State, rounds: nat, t: nat, s': State)
    requires Inv(own, s, rounds) && Next(own, true, s, SetBits(t), s')
    requires !Complete(own, t, s.tasks[t].pc.original)
    ensures Inv(own, s', rounds)
  {
    hide Common, With, Without, Within, All, OwnBits, Rendezvous, WasUnblocked, HaveValues, AfterSet, Satisfied;
    assert Counts(own, s.group, rounds, t, s.tasks[t]) && BitsOf(own, s, t);
    RendezvousNotUnblocked(own);
    SetForNobody(s.group, Rendezvous(own), own[t]);
    OwnWithinAll(own, t);
    SetWithin(s.group.bits, own[t], 0, All(own));
    forall u | 0 <= u < |own| ensures Counts(own, s'.group, rounds, u, s'.tasks[u]) && BitsOf(own, s', u) {
      assert Counts(own, s.group, rounds, u, s.tasks[u]) && BitsOf(own, s, u);
      OwnBitsAfterSet(own, s.group.bits, t, u);
    }
  }

  /** A round is complete only when everybody else has arrived and waits. */
  lemma CompleteMeansArrived(own: seq<bv32>, s: State, rounds: nat, t: nat, u: nat)
    requires Inv(own, s, rounds) && t < |own| && s.tasks[t].pc.Read? && Complete(own, t, s.tasks[t].pc.original)
    requires u < |own| && u != t
    ensures s.tasks[u].pc.Parked? && u in s.group.waiting
  {
    hide Common, With, Within, All, Rendezvous, WasUnblocked, IsPlain;
    assert Counts(own, s.group, rounds, t, s.tasks[t]);
    assert BitsOf(own, s, u);
    AllSet(own, With(s.group.bits, own[t]));
    OwnBitsAfterSet(own, s.group.bits, t, u);
  }

  /** A call of SetBits that completes a round wakes everybody. */
  lemma CompletingSetKeepsInv(own: seq<bv32>, s: State, rounds: nat, t: nat, s': State)
    requires Inv(own, s, rounds) && Next(own, true, s, SetBits(t), s')
    requires Complete(own, t, s.tasks[t].pc.original)
    ensures Inv(own, s', rounds + 1)
  {
    hide Common, With, Without, Within, All, OwnBits, Rendezvous, WasUnblocked, HaveValues, AfterSet, Satisfied, Result, Complete;
    assert Counts(own, s.group, rounds, t, s.tasks[t]) && BitsOf(own, s, t);
    RendezvousNotUnblocked(own);
    var bits := With(s.group.bits, own[t]);
    assert Satisfied(Rendezvous(own), bits) by { CompleteTest(own, t, s.group.bits); }
    SetForEverybody(s.group, Rendezvous(own), own[t]);
    var mask :| s'.group.bits == Without(bits, mask);
    OwnWithinAll(own, t);
    SetWithin(s.group.bits, own[t], mask, All(own));
    SetWithin(bits, bits, mask, All(own));
    ResultIsUnblocked(bits);
    forall u | 0 <= u < |own| ensures Counts(own, s'.group, rounds + 1, u, s'.tasks[u]) && BitsOf(own, s', u) {
      assert Counts(own, s.group, rounds, u, s.tasks[u]);
      if u != t { CompleteMeansArrived(own, s, rounds, t, u); }
    }
  }

  lemma CompleteTest(own: seq<bv32>, t: nat, original: bv32)
    requires t < |own| && Complete(own, t, original)
    ensures Common(With(original, own[t]), All(own)) == All(own)
  {
  }

  lemma ClearWithin(bits: bv32, all: bv32)
    requires Within(bits, all)
    ensures Without(bits, all) == 0
  {
  }

  lemma LeavingDecisionKeepsInv(own: seq<bv32>, s: State, rounds: nat, t: nat, s': State)
    requires Inv(own, s, rounds) && Next(own, true, s, Decide(t), s') && Complete(own, t, s.tasks[t].pc.original)
    ensures Inv(own, s', rounds) && s'.group.bits == 0
  {
    hide Common, With, Without, Within, All, OwnBits, Rendezvous, WasUnblocked, HaveValues, Complete;
    assert Counts(own, s.group, rounds, t, s.tasks[t]) && BitsOf(own, s, t);
    ClearWithin(s.group.bits, All(own));
    SomeBits(own);
    NoneOfNone(All(own));
    forall u | 0 <= u < |own| ensures Counts(own, s'.group, rounds, u, s'.tasks[u]) && BitsOf(own, s', u) {
      assert Counts(own, s.group, rounds, u, s.tasks[u]) && BitsOf(own, s, u);
      NoneOfNone(own[u]);
    }
  }

  lemma WaitingDecisionKeepsInv(own: seq<bv32>, s: State, rounds: nat, t: nat, s': State)
    requires Inv(own, s, rounds) && Next(own, true, s, Decide(t), s') && !Complete(own, t, s.tasks[t].pc.original)
    ensures Inv(own, s', rounds)
  {
    hide Common, With, Without, Within, All, OwnBits, Rendezvous, WasUnblocked, HaveValues, Complete;
    assert Counts(own, s.group, rounds, t, s.tasks[t]) && BitsOf(own, s, t);
    forall u | 0 <= u < |own| ensures Counts(own, s'.group, rounds, u, s'.tasks[u]) && BitsOf(own, s', u) {
      assert Counts(own, s.group, rounds, u, s.tasks[u]) && BitsOf(own, s, u);
    }
  }

  ghost function RoundsAfter(own: seq<bv32>, s: State, rounds: nat, st: Step): nat {
    if st.SetBits? && st.t < |own| && |s.tasks| == |own| && s.tasks[st.t].pc.Read? && Complete(own, st.t, s.tasks[st.t].pc.original) then rounds + 1
    else rounds
  }

  lemma KnowsOwnBits(own: seq<bv32>, s: State, rounds: nat)
    requires Inv(own, s, rounds)
    ensures OwnBits(own) && |s.tasks| == |own|
  {
  }

  lemma StepKeepsInv(own: seq<bv32>, s: State, rounds: nat, st: Step, s': State)
    requires Inv(own, s, rounds) && Next(own, true, s, st, s')
    ensures Inv(own, s', RoundsAfter(own, s, rounds, st))
  {
    hide Inv;
    assert OwnBits(own) && |s.tasks| == |own| by { KnowsOwnBits(own, s, rounds); }
    match st {
      case SetBits(t) =>
        if Complete(own, t, s.tasks[t].pc.original) { CompletingSetKeepsInv(own, s, rounds, t, s'); } else { LonelySetKeepsInv(own, s, rounds, t, s'); }
      case Decide(t) =>
        if Complete(own, t, s.tasks[t].pc.original) { LeavingDecisionKeepsInv(own, s, rounds, t, s'); } else { WaitingDecisionKeepsInv(own, s, rounds, t, s'); }
      case Return(_, _) => ReturnKeepsInv(own, s, rounds, st, s');
      case Call(_) => QuietStepKeepsInv(own, s, rounds, st, s');
      case ReadBits(_) => QuietStepKeepsInv(own, s, rounds, st, s');
      case _ => SchedulerStepKeepsInv(own, s, rounds, st, s');
    }
  }

  // ---------- what holds in every run ----------

  ghost predicate IsRun(own: seq<bv32>, nesting: bool, run: seq<State>, steps: seq<Step>) {
    && |run| == |steps| + 1
    && Init(own, run[0])
    && forall i | 0 <= i < |steps| :: Next(own, nesting, run[i], steps[i], run[i + 1])
  }

  lemma {:induction false} RunKeepsInv(own: seq<bv32>, run: seq<State>, steps: seq<Step>, i: nat) returns (rounds: nat)
    requires IsRun(own, true, run, steps) && i < |run|
    ensures Inv(own, run[i], rounds)
  {
    hide Inv, Next;
    if i == 0 {
      rounds := 0;
      InitIsInv(own, run[0]);
    } else {
      var before := RunKeepsInv(own, run, steps, i - 1);
      StepKeepsInv(own, run[i - 1], before, steps[i - 1], run[i]);
      rounds := RoundsAfter(own, run[i - 1], before, steps[i - 1]);
    }
  }

  /**
   * The barrier: at every moment of every run, for any number of rounds, no
   * task has returned from its k-th call unless every task has entered its own
   * k-th; and no task is more than one call ahead of another.
   */
  lemma NobodyReturnsEarly(own: seq<bv32>, run: seq<State>, steps: seq<Step>, i: nat, t: nat, u: nat)
    requires IsRun(own, true, run, steps) && i < |run| && t < |own| && u < |own|
    ensures |run[i].tasks| == |own| && run[i].tasks[t].returned <= run[i].tasks[u].entered
    ensures run[i].tasks[t].entered <= run[i].tasks[u].entered + 1
  {
    var rounds := RunKeepsInv(own, run, steps, i);
    assert Counts(own, run[i].group, rounds, t, run[i].tasks[t]);
    assert Counts(own, run[i].group, rounds, u, run[i].tasks[u]);
  }

  /**
   * Whenever tasks may run freely, exactly the bits of the tasks that wait for
   * the present round are set; so none is left over from the round before.
   */
  lemma BitsAreArrivals(own: seq<bv32>, run: seq<State>, steps: seq<Step>, i: nat, t: nat)
    requires IsRun(own, true, run, steps) && i < |run| && t < |own| && run[i].depth == 0
    ensures Common(run[i].group.bits, own[t]) == if t in run[i].group.waiting then own[t] else 0
    ensures Within(run[i].group.bits, All(own))
  {
    hide Common, Within, All, Rendezvous, WasUnblocked, OwnBits, Complete;
    var rounds := RunKeepsInv(own, run, steps, i);
    assert Counts(own, run[i].group, rounds, t, run[i].tasks[t]) && BitsOf(own, run[i], t);
  }

  /** The step with which a task finds the round complete leaves no bit set. */
  lemma RoundEndsWithBitsClear(own: seq<bv32>, run: seq<State>, steps: seq<Step>, i: nat)
    requires IsRun(own, true, run, steps) && i < |steps| && steps[i].Decide?
    requires steps[i].t < |own| == |run[i + 1].tasks| && run[i + 1].tasks[steps[i].t].pc.Leaving?
    ensures run[i + 1].group.bits == 0
  {
    var rounds := RunKeepsInv(own, run, steps, i);
    LeavingDecisionKeepsInv(own, run[i], rounds, steps[i].t, run[i + 1]);
  }

  /** In every reachable state some task can take a step: the rendezvous never deadlocks. */
  lemma SomebodyCanMove(own: seq<bv32>, run: seq<State>, steps: seq<Step>, i: nat) returns (st: Step, s': State)
    requires IsRun(own, true, run, steps) && i < |run|
    ensures Next(own, true, run[i], st, s')
  {
    hide Common, Within, All, Rendezvous, WasUnblocked, OwnBits, Complete, AfterSet, Inv, Next;
    var s := run[i];
    var rounds := RunKeepsInv(own, run, steps, i);
    if s.depth > 0 {
      st, s' := OwnerMoves(own, s, rounds);
    } else {
      var t := SomebodyHasNotArrived(own, s, rounds);
      st, s' := FreeTaskMoves(own, s, rounds, t);
    }
  }

  lemma OwnerMoves(own: seq<bv32>, s: State, rounds: nat) returns (st: Step, s': State)
    requires Inv(own, s, rounds) && s.depth > 0
    ensures Next(own, true, s, st, s')
  {
    hide Common, Within, All, Rendezvous, WasUnblocked, OwnBits, Complete, AfterSet, Without;
    var t := s.owner;
    var pc := s.tasks[t].pc;
    match pc {
      case Suspended =>
        st, s' := ReadBits(t), Moved(s, t, Read(s.group.bits));
      case Read(_) =>
        st, s' := SetBits(t), Moved(s, t, SetInside(pc.original)).(group := AfterSet(s.group, own[t]), depth := s.depth + 1);
      case SetInside(_) =>
        st, s' := InnerResume(t), Moved(s, t, HasSet(pc.original)).(depth := s.depth - 1);
      case HasSet(_) =>
        st := Decide(t);
        if Complete(own, t, pc.original) {
          s' := Moved(s, t, Leaving).(group := s.group.(bits := Without(s.group.bits, All(own))));
        } else {
          s' := Moved(s, t, Placed).(group := AfterPlacing(s.group, t, Rendezvous(own)));
        }
      case Leaving =>
        st, s' := Resume(t), Finished(s, t).(depth := s.depth - 1);
      case Placed =>
        st, s' := Resume(t), Moved(s, t, Parked).(depth := s.depth - 1);
    }
  }

  lemma FreeTaskMoves(own: seq<bv32>, s: State, rounds: nat, t: nat) returns (st: Step, s': State)
    requires Inv(own, s, rounds) && s.depth == 0 && t < |own| && t !in s.group.waiting
    ensures Next(own, true, s, st, s')
  {
    hide Common, Within, All, Rendezvous, WasUnblocked, OwnBits, Complete, AfterSet;
    assert Counts(own, s.group, rounds, t, s.tasks[t]);
    match s.tasks[t].pc {
      case Out => st, s' := Call(t), s.(tasks := s.tasks[t := Task(Called, s.tasks[t].entered + 1, s.tasks[t].returned)]);
      case Called => st, s' := SuspendAll(t), Moved(s, t, Suspended).(depth := s.depth + 1, owner := t);
      case Parked => st, s' := Return(t, 0), Finished(s, t).(group := s.group.(values := s.group.values[t := 0]));
    }
  }

  lemma SomebodyHasNotArrived(own: seq<bv32>, s: State, rounds: nat) returns (t: nat)
    requires Inv(own, s, rounds) && s.depth == 0
    ensures t < |own| && t !in s.group.waiting
  {
    hide Common, Within, All, Rendezvous, WasUnblocked, IsPlain, Complete, Apart;
    AllSet(own, s.group.bits);
    var k :| 0 <= k < |own| && Common(s.group.bits, own[k]) != own[k];
    t := k;
    assert Counts(own, s.group, rounds, t, s.tasks[t]) && BitsOf(own, s, t);
  }

  // ---------- why the suspension must nest ----------

  function Last(run: seq<State>): State
    requires run != []
  {
    run[|run| - 1]
  }

  lemma Extend(own: seq<bv32>, run: seq<State>, steps: seq<Step>, st: Step, s': State)
    requires IsRun(own, false, run, steps) && Next(own, false, Last(run), st, s')
    ensures IsRun(own, false, run + [s'], steps + [st]) && Last(run + [s']) == s'
  {
    hide Next, Init;
  }

  /** Without nesting: the steps of a call up to the point where other tasks run again, too early. */
  lemma EnterAndSet(own: seq<bv32>, run0: seq<State>, steps0: seq<Step>, t: nat) returns (run: seq<State>, steps: seq<Step>)
    requires IsRun(own, false, run0, steps0) && t < |own| == |Last(run0).tasks|
    requires Last(run0).depth == 0 && Last(run0).tasks[t].pc == Out
    requires HaveValues(Last(run0).group.waiting, Last(run0).group.values)
    requires var g := AfterSet(Last(run0).group, own[t]); HaveValues(g.waiting, g.values)
    ensures IsRun(own, false, run, steps) && run != []
    ensures
      var s := Last(run0);
      Last(run) == State(AfterSet(s.group, own[t]), 0, t, s.tasks[t := Task(HasSet(s.group.bits), s.tasks[t].entered + 1, s.tasks[t].returned)])
  {
    var s := Last(run0);
    hide AfterSet, IsRun, HaveValues;
    var task := s.tasks[t];
    var s1 := s.(tasks := s.tasks[t := Task(Called, task.entered + 1, task.returned)]);
    Extend(own, run0, steps0, Call(t), s1);
    var s2 := Moved(s1, t, Suspended).(depth := 1, owner := t);
    Extend(own, run0 + [s1], steps0 + [Call(t)], SuspendAll(t), s2);
    run, steps := run0 + [s1] + [s2], steps0 + [Call(t)] + [SuspendAll(t)];
    var s3 := Moved(s2, t, Read(s.group.bits));
    Extend(own, run, steps, ReadBits(t), s3);
    run, steps := run + [s3], steps + [ReadBits(t)];
    var s4 := Moved(s3, t, SetInside(s.group.bits)).(group := AfterSet(s.group, own[t]), depth := 2);
    Extend(own, run, steps, SetBits(t), s4);
    run, steps := run + [s4], steps + [SetBits(t)];
    var s5 := Moved(s4, t, HasSet(s.group.bits)).(depth := 0);
    Extend(own, run, steps, InnerResume(t), s5);
    run, steps := run + [s5], steps + [InnerResume(t)];
  }

  lemma DecideAndWait(own: seq<bv32>, run0: seq<State>, steps0: seq<Step>, t: nat) returns (run: seq<State>, steps: seq<Step>)
    requires IsRun(own, false, run0, steps0) && t < |own| == |Last(run0).tasks|
    requires Last(run0).depth == 0 && Last(run0).tasks[t].pc.HasSet? && !Complete(own, t, Last(run0).tasks[t].pc.original)
    requires HaveValues(Last(run0).group.waiting, Last(run0).group.values)
    ensures IsRun(own, false, run, steps) && run != []
    ensures Last(run) == Moved(Last(run0), t, Parked).(group := AfterPlacing(Last(run0).group, t, Rendezvous(own)))
  {
    var s := Last(run0);
    hide IsRun, Complete, Rendezvous;
    var s1 := Moved(s, t, Placed).(group := AfterPlacing(s.group, t, Rendezvous(own)));
    Extend(own, run0, steps0, Decide(t), s1);
    var s2 := Moved(s1, t, Parked);
    Extend(own, run0 + [s1], steps0 + [Decide(t)], Resume(t), s2);
    run, steps := run0 + [s1] + [s2], steps0 + [Decide(t)] + [Resume(t)];
  }

  const TWO_TASKS: seq<bv32> := [1, 2]

  lemma TwoTasks()
    ensures OwnBits(TWO_TASKS) && All(TWO_TASKS) == 3
    ensures !Complete(TWO_TASKS, 0, 0) && !Complete(TWO_TASKS, 1, 0) && Complete(TWO_TASKS, 1, 1)
    ensures Rendezvous(TWO_TASKS) == 0x8500_0003
  {
    assert TWO_TASKS[..1] == [1] && [1][..0] == [];
    assert Apart(TWO_TASKS, 0, 1) && Apart(TWO_TASKS, 1, 0);
    assert All([1]) == 1;
  }

  /** How the group of two tasks changes when nobody waits, or task 0 does. */
  lemma TwoTasksSet(values: Values)
    ensures AfterSet(Group(0, [], values), 1) == Group(1, [], values)
    ensures AfterSet(Group(0, [], values), 2) == Group(2, [], values)
    ensures AfterSet(Group(1, [0], values[0 := 0x8500_0003]), 2) == Group(0, [], values[0 := 0x8200_0003])
    ensures !WasUnblocked(0x8500_0003) && WasUnblocked(0x8200_0003)
  {
  }

  const WAITING: bv32 := 0x8500_0003   // the item value of a task that waits for bits 1 and 2
  const WOKEN: bv32 := 0x8200_0003     // and of one that both bits have woken

  /** Task 1 has completed the first round, but not yet looked at its result; task 0 is already free to go on. */
  lemma FastTaskIsFree() returns (run: seq<State>, steps: seq<Step>)
    ensures IsRun(TWO_TASKS, false, run, steps) && run != []
    ensures Last(run) == State(Group(0, [], map[0 := WOKEN]), 0, 1, [Task(Parked, 1, 0), Task(HasSet(1), 1, 0)])
  {
    TwoTasks();
    TwoTasksSet(map[]);
    hide AfterSet, Complete, All, Rendezvous, OwnBits, WasUnblocked, IsRun, Next;
    run, steps := [State(Group(0, [], map[]), 0, 0, [Task(Out, 0, 0), Task(Out, 0, 0)])], [];
    StartOfRun(map[]);
    run, steps := EnterAndSet(TWO_TASKS, run, steps, 0);
    run, steps := DecideAndWait(TWO_TASKS, run, steps, 0);
    assert Last(run) == State(Group(1, [0], map[0 := WAITING]), 0, 0, [Task(Parked, 1, 0), Task(Out, 0, 0)]);
    run, steps := EnterAndSet(TWO_TASKS, run, steps, 1);
  }

  /** Task 0 returns, calls again and waits for the second round. */
  lemma FastTaskWaitsAgain() returns (run: seq<State>, steps: seq<Step>)
    ensures IsRun(TWO_TASKS, false, run, steps) && run != []
    ensures Last(run) == State(Group(1, [0], map[0 := WAITING]), 0, 0, [Task(Parked, 2, 1), Task(HasSet(1), 1, 0)])
  {
    TwoTasks();
    TwoTasksSet(map[0 := WOKEN]);
    run, steps := FastTaskIsFree();
    hide AfterSet, Complete, All, Rendezvous, OwnBits, WasUnblocked, IsRun;
    var s1 := State(Group(0, [], map[0 := WOKEN]), 0, 1, [Task(Out, 1, 1), Task(HasSet(1), 1, 0)]);
    Extend(TWO_TASKS, run, steps, Return(0, WOKEN), s1);
    run, steps := run + [s1], steps + [Return(0, WOKEN)];
    hide Next;
    run, steps := EnterAndSet(TWO_TASKS, run, steps, 0);
    run, steps := DecideAndWait(TWO_TASKS, run, steps, 0);
    assert map[0 := WOKEN][0 := WAITING] == map[0 := WAITING];
  }

  /** Task 1 ends the first round and wipes task 0's bit. */
  lemma SlowTaskWipesBit() returns (run: seq<State>, steps: seq<Step>)
    ensures IsRun(TWO_TASKS, false, run, steps) && run != []
    ensures Last(run) == State(Group(0, [0], map[0 := WAITING]), 0, 0, [Task(Parked, 2, 1), Task(Out, 1, 1)])
  {
    TwoTasks();
    run, steps := FastTaskWaitsAgain();
    hide Complete, All, Rendezvous, OwnBits, IsRun;
    var s2 := State(Group(0, [0], map[0 := WAITING]), 0, 0, [Task(Parked, 2, 1), Task(Leaving, 1, 0)]);
    assert Without(1, 3) == 0;
    Extend(TWO_TASKS, run, steps, Decide(1), s2);
    run, steps := run + [s2], steps + [Decide(1)];
    var s3 := State(Group(0, [0], map[0 := WAITING]), 0, 0, [Task(Parked, 2, 1), Task(Out, 1, 1)]);
    Extend(TWO_TASKS, run, steps, Resume(1), s3);
    run, steps := run + [s3], steps + [Resume(1)];
  }

  /**
   * If the inner xTaskResumeAll already let other tasks run, two tasks could
   * end up waiting for each other for ever: the bit that the faster one sets for
   * its second round is wiped by the slower one, which still ends the first.
   */
  lemma WithoutNestingTheBarrierDeadlocks() returns (run: seq<State>, steps: seq<Step>)
    ensures IsRun(TWO_TASKS, false, run, steps) && run != []
    ensures Last(run).tasks == [Task(Parked, 2, 1), Task(Parked, 2, 1)]
    ensures forall st, s' :: !Next(TWO_TASKS, false, Last(run), st, s')
  {
    TwoTasks();
    TwoTasksSet(map[]);
    LateSet(map[0 := WAITING]);
    run, steps := SlowTaskWipesBit();
    hide AfterSet, Complete, All, Rendezvous, OwnBits, WasUnblocked, IsRun;
    run, steps := EnterAndSet(TWO_TASKS, run, steps, 1);
    run, steps := DecideAndWait(TWO_TASKS, run, steps, 1);
    assert Last(run).tasks == [Task(Parked, 2, 1), Task(Parked, 2, 1)];
    assert Last(run).group.values == map[0 := WAITING, 1 := WAITING];
  }

  lemma LateSet(values: Values)
    requires 0 in values && values[0] == WAITING
    ensures AfterSet(Group(0, [0], values), 2) == Group(2, [0], values)
  {
    assert !Satisfied(WAITING, 2);
    SetForNobody(Group(0, [0], values), WAITING, 2);
  }

  lemma StartOfRun(values: Values)
    ensures IsRun(TWO_TASKS, false, [State(Group(0, [], values), 0, 0, [Task(Out, 0, 0), Task(Out, 0, 0)])], [])
  {
    TwoTasks();
  }
}
