/**
 * The shared ring between the LM32, which pushes items, and a Linux client,
 * which reads them and acknowledges what it has read (circular_index.h and
 * daq_base_interface.cpp).  The two statements with which the server takes an
 * acknowledgement, and the client's look, read and acknowledgement, are
 * separate steps in any order; so an acknowledgement can be wiped unseen.
 */
module Handshake {
  import opened Arithmetic
  import opened RingIndexes
  import opened Rings

  // What the client does next.
  datatype Client =
    | Looking
    | MayRead(size: nat)
    | Acknowledging(n: nat)        // has read n items, or sees that its acknowledgement was lost

  datatype State = State(
    ram: seq<int>, start: nat, end: nat, wasRead: nat,        // shared
    clearing: bool,                                           // the server has added wasRead and not yet cleared it
    client: Client, lastReadIndex: nat, sentWasRead: nat,     // the client's own copies
    pushed: seq<int>, released: seq<int>, got: seq<int>)      // the history

  datatype Step =
    | Push(items: seq<int>)
    | TakeWasRead
    | ClearWasRead
    | Look
    | Read(n: nat)
    | Acknowledge

  predicate InRange(s: State) {
    s.start < |s.ram| && s.end <= |s.ram| && |s.ram| <= INDEX_RANGE / 2
  }

  function Size(s: State): nat
    requires InRange(s)
  {
    SizeOf(|s.ram|, s.start, s.end)
  }

  /** The items that have been pushed and not yet released. */
  function Items(s: State): (items: seq<int>)
    requires InRange(s)
    ensures |items| == Size(s)
  {
    Window(s.ram, s.start, Size(s))
  }

  ghost predicate Next(s: State, st: Step, s': State) {
    InRange(s) && match st
    case Push(items) => (
      && !s.clearing && |items| <= |s.ram| - Size(s)
      && Overwritten(s.ram, s'.ram, WriteSlot(|s.ram|, s.start, s.end), items)
      && s' == s.(ram := s'.ram, end := EndAfterAdd(|s.ram|, s.start, s.end, |items|), pushed := s.pushed + items))
    // ramRingSharedSynchonizeReadIndex, first statement
    case TakeWasRead => (
      && !s.clearing
      && s' == s.(start := StartAfterAdd(|s.ram|, s.start, s.wasRead), end := EndBeforeRead(|s.ram|, s.start, s.end, s.wasRead),
                  clearing := true, released := s.released + Items(s)[..Min(s.wasRead, Size(s))]))
    case ClearWasRead => s.clearing && s' == s.(wasRead := 0, clearing := false)
    // getNumberOfNewData
    case Look =>
      s.client.Looking? && s' ==
        if s.wasRead != 0 then s.(sentWasRead := s.wasRead)
        else if s.lastReadIndex == s.start && s.sentWasRead != 0 then s.(client := Acknowledging(s.sentWasRead), sentWasRead := 0)
        else s.(client := MayRead(Size(s)), lastReadIndex := s.start, sentWasRead := 0)
    case Read(n) => (
      && s.client.MayRead? && n <= s.client.size && s.lastReadIndex < |s.ram| && n <= |s.ram|
      && s' == s.(client := if n == 0 then Looking else Acknowledging(n), got := s.got + Window(s.ram, s.lastReadIndex, n)))
    // sendWasRead
    case Acknowledge => s.client.Acknowledging? && s' == s.(client := Looking, wasRead := s.client.n, sentWasRead := s.client.n)
  }

  ghost predicate Init(s: State) {
    && 0 < |s.ram| <= INDEX_RANGE / 2
    && s == State(s.ram, 0, 0, 0, false, Looking, 0, 0, [], [], [])
  }

  /** The client never reads the whole ring at once. */
  predicate LeavesSome(s: State, st: Step) {
    st.Read? ==> st.n < |s.ram|
  }

  // ---------- the invariant ----------

  /** n items are read and not released; nobody has seen the acknowledgement, or will. */
  predicate Outstanding(s: State, n: nat)
    requires InRange(s)
  {
    0 < n < |s.ram| && n <= Size(s) && |s.got| == |s.released| + n && s.start == s.lastReadIndex
  }

  /** The last n items read have been released. */
  predicate Applied(s: State, n: nat)
    requires InRange(s)
  {
    0 < n < |s.ram| && |s.got| == |s.released| && s.lastReadIndex < |s.ram| && s.start == Wrap(s.lastReadIndex + n, |s.ram|)
  }

  predicate Handshaking(s: State)
    requires InRange(s)
  {
    match s.client
    case Looking => (
      || (s.sentWasRead == 0 && s.wasRead == 0 && |s.got| == |s.released|)
      || (Outstanding(s, s.sentWasRead) && (s.wasRead == s.sentWasRead || s.wasRead == 0))
      || (Applied(s, s.sentWasRead) && (s.wasRead == 0 || (s.clearing && s.wasRead == s.sentWasRead))))
    case MayRead(size) =>
      s.sentWasRead == 0 && s.wasRead == 0 && |s.got| == |s.released| && s.start == s.lastReadIndex && size <= Size(s)
    case Acknowledging(n) =>
      s.sentWasRead == 0 && s.wasRead == 0 && Outstanding(s, n)
  }

  ghost predicate Inv(s: State) {
    && InRange(s)
    && s.pushed == s.released + Items(s)
    && |s.got| <= |s.pushed| && s.got == s.pushed[..|s.got|]
    && Handshaking(s)
  }

  lemma NoWrapHere(s: State, index: nat, toAdd: nat)
    requires InRange(s) && index <= |s.ram| && toAdd <= |s.ram| && (index == |s.ram| ==> toAdd == 0)
    ensures index + toAdd < INDEX_RANGE
  {
  }

  lemma PushKeepsInv(s: State, items: seq<int>, s': State)
    requires Inv(s) && Next(s, Push(items), s')
    ensures Inv(s')
  {
    hide Window, Overwritten, EndAfterAdd;
    AddGrowsIff(|s.ram|, s.start, s.end, |items|);
    NoWrapHere(s, s.end, |items|);
    SameLength(s.ram, s'.ram, WriteSlot(|s.ram|, s.start, s.end), items);
    if Size(s) < |s.ram| {
      WriteAppends(s.ram, s'.ram, s.start, Size(s), items);
      assert Items(s') == Items(s) + items;
      assert s.released + (Items(s) + items) == s.released + Items(s) + items;
      assert s'.pushed[..|s.got|] == s.pushed[..|s.got|];
    } else {
      NothingWritten(s.ram, s'.ram, WriteSlot(|s.ram|, s.start, s.end));
    }
  }

  lemma SameLength(before: seq<int>, after: seq<int>, place: nat, data: seq<int>)
    requires Overwritten(before, after, place, data)
    ensures |after| == |before|
  {
  }

  lemma NothingWritten(before: seq<int>, after: seq<int>, place: nat)
    requires Overwritten(before, after, place, [])
    ensures after == before
  {
    forall i | 0 <= i < |before| ensures after[i] == before[i] {
      var k := if place <= i then i - place else i - place + |before|;
      assert At(after, place, k) == At(before, place, k);
    }
  }

  /** What the server takes is never more than the ring holds, and has been read. */
  lemma TakesWhatWasRead(s: State)
    requires Inv(s) && !s.clearing
    ensures s.wasRead <= Size(s) && s.wasRead < |s.ram| && |s.released| + s.wasRead <= |s.got|
  {
    hide Window;
  }

  lemma TakeKeepsInv(s: State, s': State)
    requires Inv(s) && Next(s, TakeWasRead, s')
    ensures Inv(s')
  {
    hide Window, StartAfterAdd, EndBeforeRead, Handshaking;
    TakesWhatWasRead(s);
    ItemsAfterTake(s, s.wasRead, s');
    TakenHandshaking(s, s');
    assert s.released + (Items(s)[..s.wasRead] + Items(s)[s.wasRead..]) == s.released + Items(s)[..s.wasRead] + Items(s)[s.wasRead..];
  }

  lemma ItemsAfterTake(s: State, n: nat, s': State)
    requires InRange(s) && Next(s, TakeWasRead, s') && n == s.wasRead <= Size(s) && n < |s.ram|
    ensures InRange(s') && Items(s') == Items(s)[n..]
  {
    hide Window, StartAfterAdd, EndBeforeRead;
    Taken(s, n, s');
    WindowSplit(s.ram, s.start, n, Size(s) - n);
  }

  /** Where the indexes are when n items have been released. */
  lemma Taken(s: State, n: nat, s': State)
    requires InRange(s) && Next(s, TakeWasRead, s') && n == s.wasRead <= Size(s)
    ensures InRange(s') && Size(s') == Size(s) - n && s'.start == if n == 0 then s.start else Wrap(s.start + n, |s.ram|)
  {
    AddShrinksIff(|s.ram|, s.start, s.end, n);
    NoWrapHere(s, s.start, n);
    AdvanceWraps(s.start, n, |s.ram|);
  }

  lemma TakenHandshaking(s: State, s': State)
    requires Inv(s) && Next(s, TakeWasRead, s')
    ensures InRange(s') && Handshaking(s')
  {
    hide Window, StartAfterAdd, EndBeforeRead;
    TakesWhatWasRead(s);
    Taken(s, s.wasRead, s');
  }

  lemma ReadKeepsInv(s: State, n: nat, s': State)
    requires Inv(s) && Next(s, Read(n), s') && n < |s.ram|
    ensures Inv(s')
  {
    hide Window;
    WindowSplit(s.ram, s.start, n, Size(s) - n);
    var read := Window(s.ram, s.start, n);
    assert Items(s)[..n] == read;
    assert s.pushed[..|s.got| + n] == s.pushed[..|s.got|] + read;
  }

  /**
   * Once the server has cleared the acknowledgement, a look tells whether it was
   * taken or lost: the client repeats it just when items it has got are not
   * released, and otherwise may read exactly the items it has not got yet.
   */
  lemma LookTellsLostFromTaken(s: State, s': State)
    requires Inv(s) && Next(s, Look, s')
    ensures s.wasRead != 0 ==> s'.client == Looking
    ensures s.wasRead == 0 && |s.got| > |s.released| ==> s'.client == Acknowledging(|s.got| - |s.released|)
    ensures s.wasRead == 0 && |s.got| <= |s.released| ==> s'.client == MayRead(|s.pushed| - |s.got|)
  {
    hide Window;
  }

  lemma StepKeepsInv(s: State, st: Step, s': State)
    requires Inv(s) && Next(s, st, s') && LeavesSome(s, st)
    ensures Inv(s')
  {
    match st {
      case Push(items) => PushKeepsInv(s, items, s');
      case TakeWasRead => TakeKeepsInv(s, s');
      case Read(n) => ReadKeepsInv(s, n, s');
      case _ => QuietStepKeepsInv(s, st, s');
    }
  }

  lemma QuietStepKeepsInv(s: State, st: Step, s': State)
    requires Inv(s) && Next(s, st, s') && (st.ClearWasRead? || st.Look? || st.Acknowledge?)
    ensures Inv(s')
  {
    hide Window;
  }

  // ---------- what holds in every run ----------

  ghost predicate IsRun(run: seq<State>, steps: seq<Step>) {
    && |run| == |steps| + 1
    && Init(run[0])
    && forall i | 0 <= i < |steps| :: Next(run[i], steps[i], run[i + 1])
  }

  ghost predicate Careful(run: seq<State>, steps: seq<Step>)
    requires |run| == |steps| + 1
  {
    forall i | 0 <= i < |steps| :: LeavesSome(run[i], steps[i])
  }

  lemma {:induction false} RunKeepsInv(run: seq<State>, steps: seq<Step>, i: nat)
    requires IsRun(run, steps) && Careful(run, steps) && i < |run|
    ensures Inv(run[i])
  {
    hide Next, LeavesSome;
    if i == 0 {
      assert Items(run[0]) == [];
    } else {
      RunKeepsInv(run, steps, i - 1);
      StepKeepsInv(run[i - 1], steps[i - 1], run[i]);
    }
  }

  ghost predicate Safe(s: State) {
    && InRange(s) && s.pushed == s.released + Items(s)
    && s.released <= s.got <= s.pushed
    && (!s.clearing ==> s.wasRead <= Size(s))
  }

  /**
   * At every moment, however the steps interleave and however many
   * acknowledgements are wiped: what the client has got is the beginning of what
   * was pushed, in order and each item once; the items released are among those
   * the client has got; the released items and those in the ring are all items
   * pushed; and the server never takes more than the ring holds.
   */
  lemma NothingIsLost(run: seq<State>, steps: seq<Step>, i: nat)
    requires IsRun(run, steps) && Careful(run, steps) && i < |run|
    ensures Safe(run[i])
  {
    RunKeepsInv(run, steps, i);
    var s := run[i];
    assert s.released == s.pushed[..|s.released|];
    assert |s.released| <= |s.got|;
    assert s.got[..|s.released|] == s.pushed[..|s.released|];
  }

  // ---------- reading the whole ring at once ----------

  ghost predicate ReadsAtMost(steps: seq<Step>, bound: nat) {
    forall i | 0 <= i < |steps| && steps[i].Read? :: steps[i].n <= bound
  }

  lemma Extend(run: seq<State>, steps: seq<Step>, st: Step, s': State)
    requires IsRun(run, steps) && Next(run[|steps|], st, s')
    ensures IsRun(run + [s'], steps + [st]) && |run + [s']| == |steps + [st]| + 1
  {
    hide Next, Init;
  }

  /** A full ring of items written from slot 0 on. */
  lemma FullRing(before: seq<int>, items: seq<int>)
    requires |items| == |before| > 0 && |items| <= INDEX_RANGE / 2
    ensures Overwritten(before, items, 0, items) && Window(items, 0, |items|) == items
    ensures EndAfterAdd(|items|, 0, 0, |items|) == |items| && StartAfterAdd(|items|, 0, |items|) == 0
    ensures EndBeforeRead(|items|, 0, |items|, |items|) == 0
  {
    AdvanceWraps(0, |items|, |items|);
  }

  /** The server pushes a ring full of items, and the client reads and acknowledges them all. */
  lemma FillAndReadAll(ram: seq<int>, a: seq<int>) returns (run: seq<State>, steps: seq<Step>)
    requires |a| == |ram| > 0 && |a| <= INDEX_RANGE / 2
    ensures IsRun(run, steps) && ReadsAtMost(steps, |a|) && run[0].ram == ram
    ensures run[|steps|] == State(a, 0, |a|, |a|, false, Looking, 0, |a|, a, [], a)
  {
    FullRing(ram, a);
    var n := |a|;
    var s0 := State(ram, 0, 0, 0, false, Looking, 0, 0, [], [], []);
    run, steps := [s0], [];
    hide Window, Overwritten, EndAfterAdd;
    var s1 := s0.(ram := a, end := n, pushed := a);
    Extend(run, steps, Push(a), s1);
    run, steps := run + [s1], steps + [Push(a)];
    var s2 := s1.(client := MayRead(n));
    Extend(run, steps, Look, s2);
    run, steps := run + [s2], steps + [Look];
    var s3 := s2.(client := Acknowledging(n), got := a);
    Extend(run, steps, Read(n), s3);
    run, steps := run + [s3], steps + [Read(n)];
    var s4 := s3.(client := Looking, wasRead := n, sentWasRead := n);
    Extend(run, steps, Acknowledge, s4);
    run, steps := run + [s4], steps + [Acknowledge];
  }

  /**
   * In a ring of any capacity: after the client has read the whole full ring at
   * once, the read index is where it was.  The client takes its acknowledgement
   * for lost and repeats it, and if the ring is full again, all the new items
   * are released although nobody has read them.
   */
  lemma FullReadLosesItems(ram: seq<int>, a: seq<int>, b: seq<int>) returns (run: seq<State>, steps: seq<Step>)
    requires |a| == |b| == |ram| > 0 && |a| <= INDEX_RANGE / 2
    ensures IsRun(run, steps) && ReadsAtMost(steps, |a|) && run[0].ram == ram
    ensures run[|steps|].got == a && run[|steps|].released == a + b
  {
    FullRing(a, a);
    FullRing(a, b);
    var n := |a|;
    run, steps := FillAndReadAll(ram, a);
    hide Window, Overwritten, EndAfterAdd, StartAfterAdd;
    var s := run[|steps|];
    var s5 := s.(end := 0, clearing := true, released := a);
    assert a[..n] == a && [] + a == a;
    Extend(run, steps, TakeWasRead, s5);
    run, steps := run + [s5], steps + [TakeWasRead];
    var s6 := s5.(wasRead := 0, clearing := false);
    Extend(run, steps, ClearWasRead, s6);
    run, steps := run + [s6], steps + [ClearWasRead];
    var s7 := s6.(ram := b, end := n, pushed := a + b);
    Extend(run, steps, Push(b), s7);
    run, steps := run + [s7], steps + [Push(b)];
    var s8 := s7.(client := Acknowledging(n), sentWasRead := 0);
    Extend(run, steps, Look, s8);
    run, steps := run + [s8], steps + [Look];
    var s9 := s8.(client := Looking, wasRead := n, sentWasRead := n);
    Extend(run, steps, Acknowledge, s9);
    run, steps := run + [s9], steps + [Acknowledge];
    var s10 := s9.(end := 0, clearing := true, released := a + b);
    assert b[..n] == b;
    Extend(run, steps, TakeWasRead, s10);
    run, steps := run + [s10], steps + [TakeWasRead];
  }

  // ---------- the exact condition ----------

  /** A client that never reads more than `bound` items at once is safe on every ring of this capacity. */
  ghost predicate AllSafe(capacity: nat, bound: nat) {
    forall run: seq<State>, steps: seq<Step> | IsRun(run, steps) && |run[0].ram| == capacity && ReadsAtMost(steps, bound) :: SafeThroughout(run)
  }

  ghost predicate SafeThroughout(run: seq<State>) {
    forall i | 0 <= i < |run| :: Safe(run[i])
  }

  lemma {:induction false} CapacityStays(run: seq<State>, steps: seq<Step>, i: nat)
    requires IsRun(run, steps) && i < |run|
    ensures |run[i].ram| == |run[0].ram|
  {
    if i > 0 {
      CapacityStays(run, steps, i - 1);
      assert Next(run[i - 1], steps[i - 1], run[i]);
    }
  }

  /** The handshake is safe in all runs if and only if the client's reads are smaller than the ring. */
  lemma SafeIffReadsAreSmaller(capacity: nat, bound: nat)
    requires 0 < capacity <= INDEX_RANGE / 2
    ensures AllSafe(capacity, bound) <==> bound < capacity
  {
    hide Next, Safe;
    if bound < capacity {
      forall run: seq<State>, steps: seq<Step> | IsRun(run, steps) && |run[0].ram| == capacity && ReadsAtMost(steps, bound) ensures SafeThroughout(run) {
        forall i | 0 <= i < |steps| ensures LeavesSome(run[i], steps[i]) { CapacityStays(run, steps, i); }
        forall i | 0 <= i < |run| ensures Safe(run[i]) { NothingIsLost(run, steps, i); }
      }
    } else {
      var items := seq(capacity, _ => 0);
      var run, steps := FullReadLosesItems(items, items, items);
      ReleasedTooMuch(run[|steps|]);
      assert !SafeThroughout(run);
    }
  }

  lemma ReleasedTooMuch(s: State)
    requires |s.got| < |s.released|
    ensures !Safe(s)
  {
  }
}
