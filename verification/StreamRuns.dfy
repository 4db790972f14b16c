/**
 * One writer and one reader on the same stream buffer, without mutual
 * exclusion: sampling the other side's index, copying each byte and publishing
 * the own index are separate steps, interleaved in any order.
 */
module StreamRuns {
  import opened Arithmetic
  import opened Framing
  import opened Rings
  import opened StreamBuffer

  datatype Writer =
    | Resting
    | MaySend(space: nat)                      // has sampled the tail
    | Writing(data: seq<byte>, done: nat)

  datatype Reader =
    | Idle
    | MayReceive(available: nat)               // has sampled the head
    | Reading(wanted: nat, got: seq<byte>)

  // `sent` and `received` are the bytes of all published writes and reads.
  datatype State = State(slots: seq<byte>, head: nat, tail: nat, writer: Writer, reader: Reader, sent: seq<byte>, received: seq<byte>)

  datatype Step =
    | SampleTail
    | BeginWrite(data: seq<byte>)
    | WriteByte
    | PublishHead
    | AbandonWrite
    | SampleHead
    | BeginRead(wanted: nat)
    | ReadByte
    | PublishTail
    | AbandonRead

  predicate InRange(s: State) {
    s.head < |s.slots| && s.tail < |s.slots|
  }

  function Unread(s: State): seq<byte>
    requires InRange(s)
  {
    Window(s.slots, s.tail, BytesBetween(|s.slots|, s.tail, s.head))
  }

  ghost predicate Next(s: State, st: Step, s': State) {
    InRange(s) && match st
    case SampleTail =>
      s.writer.Resting? && s' == s.(writer := MaySend(SpacesBetween(|s.slots|, s.tail, s.head)))
    case BeginWrite(data) =>
      s.writer.MaySend? && |data| <= s.writer.space && s' == s.(writer := Writing(data, 0))
    case WriteByte => (
      && s.writer.Writing? && s.writer.done < |s.writer.data| && s.writer.done < |s.slots|
      && s' == s.(slots := s.slots[Wrap(s.head + s.writer.done, |s.slots|) := s.writer.data[s.writer.done]],
                  writer := s.writer.(done := s.writer.done + 1)))
    case PublishHead => (
      && s.writer.Writing? && s.writer.done == |s.writer.data| > 0
      && s' == s.(head := Wrap(s.head + |s.writer.data|, |s.slots|), writer := Resting, sent := s.sent + s.writer.data))
    case AbandonWrite => !s.writer.Resting? && s' == s.(writer := Resting)
    case SampleHead =>
      s.reader.Idle? && s' == s.(reader := MayReceive(BytesBetween(|s.slots|, s.tail, s.head)))
    case BeginRead(wanted) =>
      s.reader.MayReceive? && wanted <= s.reader.available && s' == s.(reader := Reading(wanted, []))
    case ReadByte => (
      && s.reader.Reading? && |s.reader.got| < s.reader.wanted && |s.reader.got| < |s.slots|
      && s' == s.(reader := s.reader.(got := s.reader.got + [At(s.slots, s.tail, |s.reader.got|)])))
    case PublishTail => (
      && s.reader.Reading? && |s.reader.got| == s.reader.wanted > 0
      && s' == s.(tail := Wrap(s.tail + s.reader.wanted, |s.slots|), reader := Idle, received := s.received + s.reader.got))
    case AbandonRead => !s.reader.Idle? && s' == s.(reader := Idle)
  }

  ghost predicate Init(s: State) {
    |s.slots| > 0 && s.head == 0 && s.tail == 0 && s.writer == Resting && s.reader == Idle && s.sent == [] && s.received == []
  }

  // ---------- the invariant ----------

  ghost predicate WriterInv(s: State)
    requires InRange(s)
  {
    match s.writer
    case Resting => true
    case MaySend(space) => space <= SpacesBetween(|s.slots|, s.tail, s.head)
    case Writing(data, done) => (
      && done <= |data| <= SpacesBetween(|s.slots|, s.tail, s.head)
      && forall j | 0 <= j < done :: At(s.slots, s.head, j) == data[j])
  }

  ghost predicate ReaderInv(s: State)
    requires InRange(s)
  {
    match s.reader
    case Idle => true
    case MayReceive(available) => available <= |Unread(s)|
    case Reading(wanted, got) => |got| <= wanted <= |Unread(s)| && got == Unread(s)[..|got|]
  }

  ghost predicate Inv(s: State) {
    InRange(s) && s.sent == s.received + Unread(s) && WriterInv(s) && ReaderInv(s)
  }

  /** A slot behind the unread bytes is none of theirs. */
  lemma FreeSlot(length: nat, tail: nat, head: nat, k: nat, j: nat)
    requires tail < length && head < length && k < SpacesBetween(length, tail, head) && j < BytesBetween(length, tail, head)
    ensures Wrap(head + k, length) != Wrap(tail + j, length)
  {
  }

  lemma WriteByteKeepsInv(s: State, s': State)
    requires Inv(s) && Next(s, WriteByte, s')
    ensures Inv(s') && Unread(s') == Unread(s)
  {
    var count := BytesBetween(|s.slots|, s.tail, s.head);
    forall j | 0 <= j < count ensures Unread(s')[j] == Unread(s)[j] {
      FreeSlot(|s.slots|, s.tail, s.head, s.writer.done, j);
    }
    assert Unread(s') == Unread(s);
  }

  lemma PublishHeadKeepsInv(s: State, s': State)
    requires Inv(s) && Next(s, PublishHead, s')
    ensures Inv(s') && Unread(s') == Unread(s) + s.writer.data
  {
    hide Window;
    var count, data := BytesBetween(|s.slots|, s.tail, s.head), s.writer.data;
    AfterPublishing(|s.slots|, s.tail, s.head, |data|);
    WindowSplit(s.slots, s.tail, count, |data|);
    Copied(s.slots, s.head, data);
    assert Unread(s') == Unread(s) + data;
    assert s.received + (Unread(s) + data) == s.received + Unread(s) + data;
  }

  lemma AfterPublishing(length: nat, tail: nat, head: nat, n: nat)
    requires tail < length && head < length && n <= SpacesBetween(length, tail, head)
    ensures Wrap(head + n, length) < length
    ensures BytesBetween(length, tail, Wrap(head + n, length)) == BytesBetween(length, tail, head) + n
  {
  }

  lemma Copied(slots: seq<byte>, head: nat, data: seq<byte>)
    requires head < |slots| && |data| <= |slots| && forall j | 0 <= j < |data| :: At(slots, head, j) == data[j]
    ensures Window(slots, head, |data|) == data
  {
    forall j | 0 <= j < |data| ensures Window(slots, head, |data|)[j] == data[j] {
      assert At(slots, head, j) == data[j];
    }
  }

  lemma ReadByteKeepsInv(s: State, s': State)
    requires Inv(s) && Next(s, ReadByte, s')
    ensures Inv(s')
  {
    var n := |s.reader.got|;
    assert Unread(s)[..n + 1] == Unread(s)[..n] + [Unread(s)[n]];
  }

  lemma PublishTailKeepsInv(s: State, s': State)
    requires Inv(s) && Next(s, PublishTail, s')
    ensures Inv(s') && Unread(s) == s.reader.got + Unread(s')
  {
    hide Window;
    var n := s.reader.wanted;
    WindowSplit(s.slots, s.tail, n, |Unread(s)| - n);
    assert s.reader.got == Unread(s)[..n];
    assert s.received + (s.reader.got + Unread(s')) == s.received + s.reader.got + Unread(s');
  }

  lemma StepKeepsInv(s: State, st: Step, s': State)
    requires Inv(s) && Next(s, st, s')
    ensures Inv(s')
  {
    match st {
      case WriteByte => WriteByteKeepsInv(s, s');
      case PublishHead => PublishHeadKeepsInv(s, s');
      case ReadByte => ReadByteKeepsInv(s, s');
      case PublishTail => PublishTailKeepsInv(s, s');
      case _ =>
    }
  }

  /** A fresh sample is exact: of the unread bytes, and of the slots that are neither theirs nor the one kept free. */
  lemma SamplesAreExact(s: State, s': State)
    requires Inv(s)
    ensures Next(s, SampleHead, s') ==> s'.reader == MayReceive(|Unread(s)|)
    ensures Next(s, SampleTail, s') ==> s'.writer == MaySend(|s.slots| - 1 - |Unread(s)|)
  {
  }

  // ---------- what holds in every run ----------

  ghost predicate IsRun(run: seq<State>, steps: seq<Step>) {
    && |run| == |steps| + 1
    && Init(run[0])
    && forall i | 0 <= i < |steps| :: Next(run[i], steps[i], run[i + 1])
  }

  /** At every moment of every run the bytes received and the unread ones are the bytes sent, in order. */
  lemma {:induction false} RunConserves(run: seq<State>, steps: seq<Step>, i: nat)
    requires IsRun(run, steps) && i < |run|
    ensures Inv(run[i])
    ensures run[i].sent == run[i].received + Unread(run[i])
  {
    hide Next;
    if i == 0 {
      assert run[0].sent == run[0].received + Unread(run[0]);
    } else {
      RunConserves(run, steps, i - 1);
      StepKeepsInv(run[i - 1], steps[i - 1], run[i]);
    }
  }

  /** The writer never writes to a slot that holds an unread byte. */
  lemma WriterSparesUnreadBytes(run: seq<State>, steps: seq<Step>, i: nat, j: nat)
    requires IsRun(run, steps) && i < |steps| && steps[i].WriteByte?
    requires InRange(run[i]) && j < |Unread(run[i])|
    ensures run[i].writer.Writing?
    ensures Wrap(run[i].head + run[i].writer.done, |run[i].slots|) != Wrap(run[i].tail + j, |run[i].slots|)
    ensures InRange(run[i + 1]) && Unread(run[i + 1]) == Unread(run[i])
  {
    hide Window;
    RunConserves(run, steps, i);
    var s := run[i];
    assert Next(s, steps[i], run[i + 1]);
    FreeSlot(|s.slots|, s.tail, s.head, s.writer.done, j);
    WriteByteKeepsInv(s, run[i + 1]);
  }

  /** Every byte that the reader copies out is published, and is the one sent at that place. */
  lemma ReaderGetsWhatWasSent(run: seq<State>, steps: seq<Step>, i: nat)
    requires IsRun(run, steps) && i < |steps| && steps[i].ReadByte?
    ensures
      var s := run[i];
      && s.reader.Reading? && run[i + 1].reader.Reading?
      && |s.received| + |s.reader.got| < |s.sent|
      && run[i + 1].reader.got == s.reader.got + [s.sent[|s.received| + |s.reader.got|]]
  {
    RunConserves(run, steps, i);
    assert Next(run[i], steps[i], run[i + 1]);
  }

  // ---------- message buffers ----------

  /**
   * In a message buffer every write is a framed message, and the reader first
   * reads the length field, whose h bytes it then takes along with the message.
   */
  ghost predicate Framed(s: State, st: Step, h: nat) {
    match st
    case BeginWrite(data) => exists m :: Sendable(m, h) && data == Frame(m, h)
    case BeginRead(wanted) => (
      && InRange(s) && h < |s.slots|
      && s.reader.MayReceive? && s.reader.available > h
      && wanted == h + Min(LengthOf(Window(s.slots, s.tail, h)), s.reader.available - h))
    case _ => true
  }

  /** The first `available` bytes behind the first k messages are whole messages. */
  ghost predicate WholeMessages(ms: seq<seq<byte>>, k: nat, available: nat, h: nat) {
    exists j | k <= j <= |ms| :: available == |Frames(ms[k..j], h)|
  }

  /** ms are the messages sent, of which the first k have been received. */
  ghost predicate FramedInv(s: State, h: nat, ms: seq<seq<byte>>, k: nat) {
    && k <= |ms| && AllSendable(ms, h)
    && s.sent == Frames(ms, h) && s.received == Frames(ms[..k], h)
    && (s.writer.Writing? ==> exists m :: Sendable(m, h) && s.writer.data == Frame(m, h))
    && (s.reader.MayReceive? ==> WholeMessages(ms, k, s.reader.available, h))
    && (s.reader.Reading? ==> k < |ms| && s.reader.wanted == |Frame(ms[k], h)|)
  }

  /** The unread bytes are the unread messages. */
  lemma UnreadMessages(s: State, h: nat, ms: seq<seq<byte>>, k: nat)
    requires Inv(s) && FramedInv(s, h, ms, k)
    ensures Unread(s) == Frames(ms[k..], h)
  {
    hide Frames, Window;
    FramesOfBoth(ms[..k], ms[k..], h);
    assert ms[..k] + ms[k..] == ms;
    SameRest(s.received, Unread(s), Frames(ms[k..], h));
  }

  lemma SameRest(x: seq<byte>, y: seq<byte>, z: seq<byte>)
    requires x + y == x + z
    ensures y == z
  {
    assert y == (x + y)[|x|..] && z == (x + z)[|x|..];
  }

  lemma SampledWhole(s: State, h: nat, ms: seq<seq<byte>>, k: nat, s': State)
    requires Inv(s) && FramedInv(s, h, ms, k) && Next(s, SampleHead, s')
    ensures FramedInv(s', h, ms, k)
  {
    hide Frames, Window;
    UnreadMessages(s, h, ms, k);
    assert ms[k..|ms|] == ms[k..];
  }

  lemma SentWhole(s: State, h: nat, ms: seq<seq<byte>>, k: nat, s': State) returns (ms': seq<seq<byte>>)
    requires FramedInv(s, h, ms, k) && Next(s, PublishHead, s')
    ensures FramedInv(s', h, ms', k)
  {
    hide Frames, Frame;
    var m :| Sendable(m, h) && s.writer.data == Frame(m, h);
    ms' := ms + [m];
    FramesOfMore(ms, m, h);
    assert ms'[..k] == ms[..k];
    if s.reader.MayReceive? {
      var j :| k <= j <= |ms| && s.reader.available == |Frames(ms[k..j], h)|;
      assert ms'[k..j] == ms[k..j];
    }
  }

  /** The reader finds the length of the oldest unread message, all of which it may read. */
  lemma FindsOldest(s: State, h: nat, ms: seq<seq<byte>>, k: nat, wanted: nat)
    requires Inv(s) && FramedInv(s, h, ms, k) && h < |s.slots| && Framed(s, BeginRead(wanted), h)
    ensures k < |ms| && wanted == |Frame(ms[k], h)|
  {
    hide Window, Frames;
    var j :| k <= j <= |ms| && s.reader.available == |Frames(ms[k..j], h)|;
    var some, rest := ms[k..j], ms[k..];
    MoreThanAHeader(some, h);
    OldestFrame(some, h);
    UnreadMessages(s, h, ms, k);
    OldestFrame(rest, h);
    WindowSplit(s.slots, s.tail, h, |Unread(s)| - h);
    assert Unread(s)[..h] == Window(s.slots, s.tail, h);
    assert some[0] == ms[k] && rest[0] == ms[k];
  }

  lemma ReceivedWhole(s: State, h: nat, ms: seq<seq<byte>>, k: nat, s': State)
    requires Inv(s) && FramedInv(s, h, ms, k) && Next(s, PublishTail, s')
    ensures k < |ms| && s.reader.got == Frame(ms[k], h) && FramedInv(s', h, ms, k + 1)
  {
    hide Frames, Frame, Window;
    UnreadMessages(s, h, ms, k);
    FramesOfMore(ms[..k], ms[k], h);
    assert ms[..k] + [ms[k]] == ms[..k + 1];
    assert ms[k..] == [ms[k]] + ms[k + 1..];
    FramesOfBoth([ms[k]], ms[k + 1..], h);
    OneFrame(ms[k], h);
    assert s.reader.got == Unread(s)[..s.reader.wanted];
  }

  lemma OneFrame(m: seq<byte>, h: nat)
    ensures Frames([m], h) == Frame(m, h)
  {
    assert [m][1..] == [];
  }

  lemma FramedStepKeepsInv(s: State, st: Step, s': State, h: nat, ms: seq<seq<byte>>, k: nat) returns (ms': seq<seq<byte>>, k': nat)
    requires Inv(s) && FramedInv(s, h, ms, k) && Next(s, st, s') && Framed(s, st, h)
    ensures FramedInv(s', h, ms', k')
  {
    ms', k' := ms, k;
    match st {
      case SampleHead => SampledWhole(s, h, ms, k, s');
      case PublishHead => ms' := SentWhole(s, h, ms, k, s');
      case BeginRead(wanted) => FindsOldest(s, h, ms, k, wanted);
      case PublishTail => ReceivedWhole(s, h, ms, k, s'); k' := k + 1;
      case _ =>
    }
  }

  ghost predicate IsFramedRun(run: seq<State>, steps: seq<Step>, h: nat) {
    IsRun(run, steps) && forall i | 0 <= i < |steps| :: Framed(run[i], steps[i], h)
  }

  /**
   * At every moment of every run of a message buffer, what has been sent is a
   * sequence of whole messages, and what has been received is its beginning.
   */
  lemma {:induction false} MessagesStayWhole(run: seq<State>, steps: seq<Step>, h: nat, i: nat) returns (ms: seq<seq<byte>>, k: nat)
    requires IsFramedRun(run, steps, h) && i < |run|
    ensures FramedInv(run[i], h, ms, k)
  {
    hide Next, Framed;
    if i == 0 {
      ms, k := [], 0;
    } else {
      ms, k := MessagesStayWhole(run, steps, h, i - 1);
      RunConserves(run, steps, i - 1);
      assert Framed(run[i - 1], steps[i - 1], h) && Next(run[i - 1], steps[i - 1], run[i]);
      ms, k := FramedStepKeepsInv(run[i - 1], steps[i - 1], run[i], h, ms, k);
    }
  }

  /** Each receive gives exactly the oldest message that has been sent and not yet received. */
  lemma EachReceiveGivesTheOldest(run: seq<State>, steps: seq<Step>, h: nat, i: nat) returns (ms: seq<seq<byte>>, k: nat)
    requires IsFramedRun(run, steps, h) && i < |steps| && steps[i] == PublishTail
    ensures k < |ms| && run[i].sent == Frames(ms, h) && run[i].received == Frames(ms[..k], h)
    ensures run[i].reader.Reading? && run[i].reader.got == Frame(ms[k], h)
    ensures run[i + 1].received == Frames(ms[..k + 1], h)
  {
    hide Frames, Frame;
    ms, k := MessagesStayWhole(run, steps, h, i);
    RunConserves(run, steps, i);
    assert Next(run[i], steps[i], run[i + 1]);
    ReceivedWhole(run[i], h, ms, k, run[i + 1]);
  }
}
