/**
 * Stream and message buffers (stream_buffer.c): a circular byte buffer with
 * one slot always free, carrying a stream of bytes or whole messages.
 */
module StreamBuffer {
  import opened Arithmetic
  import opened Framing
  import opened Rings

  const HEADER := SIZEOF_SIZE_T       // sbBYTES_TO_STORE_MESSAGE_LENGTH: the length type is size_t

  /** The arithmetic of prvBytesInBuffer: the distance from the tail to the head. */
  function BytesBetween(length: nat, tail: nat, head: nat): (count: nat)
    requires tail < length && head < length
    ensures count < length && Wrap(tail + count, length) == head
  {
    var count := length + head - tail;
    if count >= length then count - length else count
  }

  /** The arithmetic of xStreamBufferSpacesAvailable: one slot is never used. */
  function SpacesBetween(length: nat, tail: nat, head: nat): (space: nat)
    requires tail < length && head < length
    ensures space + BytesBetween(length, tail, head) == length - 1
  {
    var space := length + tail - head - 1;
    if space >= length then space - length else space
  }

  lemma TailSendable(ms: seq<seq<byte>>, h: nat)
    requires ms != [] && AllSendable(ms, h)
    ensures AllSendable(ms[1..], h)
  {
  }

  /** Where the tail is, and how much is left, when a header and n bytes have been read. */
  lemma AfterReading(length: nat, tail: nat, head: nat, h: nat, n: nat)
    requires tail < length && head < length && h + n <= BytesBetween(length, tail, head)
    ensures
      var place := Wrap(tail + h, length);
      var next := Wrap(place + n, length);
      0 <= place < length && 0 <= next < length && BytesBetween(length, next, head) == BytesBetween(length, tail, head) - h - n
  {
  }

  lemma NoFrames(h: nat)
    ensures Frames([], h) == []
  {
  }

  lemma PartsOf(x: seq<byte>, y: seq<byte>, z: seq<byte>)
    ensures
      var bytes := x + (y + z);
      bytes[..|x|] == x && bytes[|x|..|x| + |y|] == y && bytes[|x| + |y|..] == z
  {
  }

  /** Where the oldest message lies in the buffer. */
  lemma OldestInWindow(slots: seq<byte>, tail: nat, count: nat, ms: seq<seq<byte>>, h: nat)
    requires tail < |slots| && count < |slots| && Window(slots, tail, count) == Frames(ms, h)
    requires ms != [] && AllSendable(ms, h)
    ensures
      var n := |ms[0]|;
      && h + n <= count && n > 0
      && LengthOf(Window(slots, tail, h)) == n
      && Window(slots, Wrap(tail + h, |slots|), n) == ms[0]
      && Window(slots, Wrap(Wrap(tail + h, |slots|) + n, |slots|), count - h - n) == Frames(ms[1..], h)
  {
    hide Window, Frames, LengthOf, AllSendable;
    OldestFrame(ms, h);
    var n, place := |ms[0]|, Wrap(tail + h, |slots|);
    WindowSplit(slots, tail, h, count - h);
    WindowSplit(slots, place, n, count - h - n);
    PartsOf(Window(slots, tail, h), Window(slots, place, n), Window(slots, Wrap(place + n, |slots|), count - h - n));
  }

  class StreamBuffer {
    const buffer: array<byte>
    const length: nat
    const isMessageBuffer: bool
    var head: nat
    var tail: nat

    ghost var messages: seq<seq<byte>>      // unread, if this is a message buffer

    ghost predicate Valid()
      reads this, buffer
    {
      && buffer.Length == length && head < length && tail < length
      && (isMessageBuffer ==> AllSendable(messages, HEADER) && Contents() == Frames(messages, HEADER))
    }

    /** The unread bytes, oldest first. */
    ghost function Contents(): (s: seq<byte>)
      reads this, buffer
      requires buffer.Length == length && head < length && tail < length
    {
      Window(buffer[..], tail, BytesBetween(length, tail, head))
    }

    /** xStreamBufferGenericCreate: one byte more than the caller asked for. */
    constructor (size: nat, isMessageBuffer: bool)
      requires if isMessageBuffer then HEADER < size else 0 < size
      ensures Valid() && Contents() == [] && messages == [] && length == size + 1 && fresh(buffer)
      ensures this.isMessageBuffer == isMessageBuffer
    {
      this.isMessageBuffer := isMessageBuffer;
      length := size + 1;
      buffer := new byte[size + 1](_ => 0);
      head, tail, messages := 0, 0, [];
    }

    /** xStreamBufferSpacesAvailable. */
    method SpacesAvailable() returns (space: nat)
      requires Valid()
      ensures space + |Contents()| == length - 1
    {
      space := SpacesBetween(length, tail, head);
    }

    /** prvBytesInBuffer. */
    method BytesInBuffer() returns (count: nat)
      requires Valid()
      ensures count == |Contents()|
    {
      count := BytesBetween(length, tail, head);
    }

    /** memcpy into the buffer. */
    method CopyIn(offset: nat, data: seq<byte>)
      requires offset + |data| <= buffer.Length
      modifies buffer
      ensures forall i | 0 <= i < buffer.Length :: buffer[i] == if offset <= i < offset + |data| then data[i - offset] else old(buffer[i])
    {
      for i := 0 to |data|
        invariant forall j | 0 <= j < buffer.Length :: buffer[j] == if offset <= j < offset + i then data[j - offset] else old(buffer[j])
      {
        buffer[offset + i] := data[i];
      }
    }

    /** prvWriteBytesToBuffer: writes from `place` on, in two parts if the end of the buffer is in between. */
    method WriteBytes(data: seq<byte>, place: nat) returns (next: nat)
      requires buffer.Length == length && place < length && 0 < |data| <= length
      modifies buffer
      ensures Overwritten(old(buffer[..]), buffer[..], place, data) && next == Wrap(place + |data|, length)
    {
      var firstLength := Min(length - place, |data|);
      CopyIn(place, data[..firstLength]);
      if |data| > firstLength {
        CopyIn(0, data[firstLength..]);
      }
      next := place + |data|;
      if next >= length {
        next := next - length;
      }
    }

    /** prvReadBytesFromBuffer. */
    method ReadBytes(count: nat, place: nat) returns (data: seq<byte>, next: nat)
      requires buffer.Length == length && place < length && 0 < count <= length
      ensures data == Window(buffer[..], place, count) && next == Wrap(place + count, length)
    {
      var firstLength := Min(length - place, count);
      data := buffer[place..place + firstLength];
      if count > firstLength {
        data := data + buffer[..count - firstLength];
      }
      next := place + count;
      if next >= length {
        next := next - length;
      }
    }

    /** The writing part of prvWriteMessageToBuffer for a stream: as many bytes as there is space for. */
    method WriteStream(data: seq<byte>, space: nat) returns (written: nat)
      requires Valid() && !isMessageBuffer && space + |Contents()| < length
      modifies buffer, `head
      ensures Valid() && written == Min(|data|, space) && Contents() == old(Contents()) + data[..written]
    {
      hide Window, Overwritten;
      written := Min(|data|, space);
      if written != 0 {
        ghost var count := BytesBetween(length, tail, head);
        var next := WriteBytes(data[..written], head);
        WriteAppends(old(buffer[..]), buffer[..], tail, count, data[..written]);
        head := next;
      }
    }

    /** For a message buffer: the message behind its length, published at once, or nothing. */
    method WriteMessage(data: seq<byte>, space: nat) returns (written: nat)
      requires Valid() && isMessageBuffer && space + |Contents()| < length && |data| + HEADER < Capacity(SIZEOF_SIZE_T)
      modifies buffer, `head, `messages
      ensures Valid()
      ensures written == if |data| + HEADER <= space then |data| else 0
      ensures messages == if written > 0 then old(messages) + [data] else old(messages)
    {
      hide Window, Overwritten, Frames;
      var next := head;
      ghost var count, bytes := BytesBetween(length, tail, head), LengthBytes(|data|, HEADER);
      written := |data|;
      if space >= |data| + HEADER {
        next := WriteBytes(LengthBytes(|data|, SIZEOF_SIZE_T)[..HEADER], next);
        assert LengthBytes(|data|, SIZEOF_SIZE_T)[..HEADER] == bytes;
        HiddenWrite(old(buffer[..]), buffer[..], tail, count, bytes);
      } else {
        written := 0;
      }
      if written != 0 {
        ghost var between := buffer[..];
        var end := WriteBytes(data, next);
        OverwrittenTwice(old(buffer[..]), between, buffer[..], head, bytes, data);
        WriteAppends(old(buffer[..]), buffer[..], tail, count, bytes + data);
        FramesOfMore(messages, data, HEADER);
        head := end;
        messages := messages + [data];
      }
    }

    /** prvWriteMessageToBuffer. */
    method WriteMessageToBuffer(data: seq<byte>, space: nat) returns (written: nat)
      requires Valid() && space + |Contents()| < length && (isMessageBuffer ==> |data| + HEADER < Capacity(SIZEOF_SIZE_T))
      modifies buffer, `head, `messages
      ensures Valid()
      ensures isMessageBuffer ==>
        && written == (if |data| + HEADER <= space then |data| else 0)
        && messages == if written > 0 then old(messages) + [data] else old(messages)
      ensures !isMessageBuffer ==> written == Min(|data|, space) && Contents() == old(Contents()) + data[..written]
    {
      if isMessageBuffer {
        written := WriteMessage(data, space);
      } else {
        written := WriteStream(data, space);
      }
    }

    /**
     * xStreamBufferSend without waiting: a stream takes as many bytes as fit;
     * a message is sent whole, or, if it does not fit or is empty, not at all.
     */
    method Send(data: seq<byte>) returns (written: nat)
      requires Valid() && (isMessageBuffer ==> |data| + HEADER < Capacity(SIZEOF_SIZE_T))
      modifies buffer, `head, `messages
      ensures Valid()
      ensures isMessageBuffer ==>
        if |old(Contents())| + HEADER + |data| < length && data != []
        then written == |data| && messages == old(messages) + [data]
        else written == 0 && messages == old(messages)
      ensures !isMessageBuffer ==>
        && written == Min(|data|, length - 1 - |old(Contents())|)
        && Contents() == old(Contents()) + data[..written]
    {
      var space := SpacesAvailable();
      written := WriteMessageToBuffer(data, space);
    }

    /** The reading part of prvReadMessageFromBuffer for a stream. */
    method ReadStream(maxLength: nat, bytesAvailable: nat) returns (data: seq<byte>)
      requires Valid() && !isMessageBuffer && bytesAvailable == |Contents()|
      modifies `tail
      ensures Valid()
      ensures |data| == Min(maxLength, |old(Contents())|) && old(Contents()) == data + Contents()
    {
      hide Window;
      var count := Min(maxLength, bytesAvailable);
      data := [];
      if count != 0 {
        WindowSplit(buffer[..], tail, count, bytesAvailable - count);
        data, tail := ReadBytes(count, tail);
      }
    }

    /** For a message buffer: the whole oldest message, or nothing if the caller's buffer is too small for it. */
    method ReadMessage(maxLength: nat, bytesAvailable: nat) returns (data: seq<byte>)
      requires Valid() && isMessageBuffer && bytesAvailable == |Contents()| && bytesAvailable > HEADER
      modifies `tail, `messages
      ensures Valid() && old(messages) != []
      ensures
        if |old(messages)[0]| <= maxLength
        then data == old(messages)[0] && messages == old(messages)[1..]
        else data == [] && messages == old(messages)
    {
      hide Window, Frames, AllSendable, Wrap, BytesBetween, LengthOf;
      MoreThanAHeader(messages, HEADER);
      OldestInWindow(buffer[..], tail, bytesAvailable, messages, HEADER);
      TailSendable(messages, HEADER);
      AfterReading(length, tail, head, HEADER, |messages[0]|);
      var field, nextTail := ReadBytes(HEADER, tail);
      var available, nextMessageLength := bytesAvailable - HEADER, LengthOf(field);
      if nextMessageLength > maxLength {
        nextMessageLength := 0;
      }
      var count := Min(nextMessageLength, available);
      data := [];
      if count != 0 {
        data, tail := ReadBytes(count, nextTail);
        messages := messages[1..];
      }
    }

    /** prvReadMessageFromBuffer, called when more bytes are available than a header takes. */
    method ReadMessageFromBuffer(maxLength: nat, bytesAvailable: nat) returns (data: seq<byte>)
      requires Valid() && bytesAvailable == |Contents()|
      requires bytesAvailable > if isMessageBuffer then HEADER else 0
      modifies `tail, `messages
      ensures Valid()
      ensures isMessageBuffer ==>
        && old(messages) != []
        && (if |old(messages)[0]| <= maxLength
            then data == old(messages)[0] && messages == old(messages)[1..]
            else data == [] && messages == old(messages))
      ensures !isMessageBuffer ==> |data| == Min(maxLength, |old(Contents())|) && old(Contents()) == data + Contents()
    {
      if isMessageBuffer {
        data := ReadMessage(maxLength, bytesAvailable);
      } else {
        data := ReadStream(maxLength, bytesAvailable);
      }
    }

    /**
     * xStreamBufferReceive without waiting.  A message buffer gives its oldest
     * message, whole; if there is none, or the caller's buffer is too small for
     * it, nothing is given and nothing lost.
     */
    method Receive(maxLength: nat) returns (data: seq<byte>)
      requires Valid()
      modifies `tail, `messages
      ensures Valid()
      ensures isMessageBuffer ==>
        if old(messages) != [] && |old(messages)[0]| <= maxLength
        then data == old(messages)[0] && messages == old(messages)[1..]
        else data == [] && messages == old(messages)
      ensures !isMessageBuffer ==> |data| == Min(maxLength, |old(Contents())|) && old(Contents()) == data + Contents()
    {
      hide Window, Frames;
      var bytesAvailable := BytesInBuffer();
      if isMessageBuffer { MoreThanAHeader(messages, HEADER); }
      data := [];
      if bytesAvailable > if isMessageBuffer then HEADER else 0 {
        data := ReadMessageFromBuffer(maxLength, bytesAvailable);
      }
    }

    /** xStreamBufferNextMessageLengthBytes; its assertion holds: at most a header's worth of bytes means none. */
    method NextMessageLength() returns (result: nat)
      requires Valid()
      ensures result == if isMessageBuffer && messages != [] then |messages[0]| else 0
    {
      hide Window, Frames;
      result := 0;
      if isMessageBuffer {
        var bytesAvailable := BytesInBuffer();
        MoreThanAHeader(messages, HEADER);
        if bytesAvailable > HEADER {
          OldestInWindow(buffer[..], tail, bytesAvailable, messages, HEADER);
          var field, _ := ReadBytes(HEADER, tail);
          result := LengthOf(field);
        } else {
          assert bytesAvailable == 0 by { NoFrames(HEADER); }
        }
      }
    }

    /** xStreamBufferReset: refused while a task is blocked on the buffer. */
    method Reset(receiverWaits: bool, senderWaits: bool) returns (done: bool)
      requires Valid()
      modifies `head, `tail, `messages
      ensures Valid() && done == (!receiverWaits && !senderWaits)
      ensures done ==> Contents() == [] && messages == []
      ensures !done ==> Contents() == old(Contents()) && messages == old(messages)
    {
      done := false;
      if !receiverWaits {
        if !senderWaits {
          head, tail, messages := 0, 0, [];
          done := true;
        }
      }
    }
  }
}
