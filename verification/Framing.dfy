/** The byte format of a message buffer: each message behind the bytes of its length. */
module Framing {
  import opened Rings

  const SIZEOF_SIZE_T: nat := 4       // on the LM32

  /** The values that a length field of h bytes can hold. */
  function Capacity(h: nat): nat {
    if h == 0 then 1 else 256 * Capacity(h - 1)
  }

  lemma CapacityOfSizeT()
    ensures Capacity(SIZEOF_SIZE_T) == 0x1_0000_0000
  {
    assert Capacity(2) == 0x1_0000;
  }

  /** A length as it lies in the memory of the big-endian LM32. */
  function LengthBytes(n: nat, h: nat): (bytes: seq<byte>)
    ensures |bytes| == h
  {
    if h == 0 then [] else LengthBytes(n / 256, h - 1) + [n % 256]
  }

  function LengthOf(bytes: seq<byte>): nat {
    if bytes == [] then 0 else 256 * LengthOf(bytes[..|bytes| - 1]) + bytes[|bytes| - 1]
  }

  lemma {:induction false} LengthIsReadBack(n: nat, h: nat)
    requires n < Capacity(h)
    ensures LengthOf(LengthBytes(n, h)) == n
  {
    if h > 0 {
      LengthIsReadBack(n / 256, h - 1);
      assert LengthBytes(n, h)[..h - 1] == LengthBytes(n / 256, h - 1);
    }
  }

  /** n without its k low-order bytes. */
  function HighBytes(n: nat, k: nat): (r: nat)
    ensures r <= n && (r == n <==> k == 0 || n == 0)
  {
    if k == 0 then n else HighBytes(n / 256, k - 1)
  }

  lemma {:induction false} FirstBytesAreHigh(n: nat, size: nat, h: nat)
    requires n < Capacity(size) && h <= size
    ensures LengthOf(LengthBytes(n, size)[..h]) == HighBytes(n, size - h)
  {
    if h == size {
      LengthIsReadBack(n, size);
      assert LengthBytes(n, size)[..h] == LengthBytes(n, size);
    } else {
      FirstBytesAreHigh(n / 256, size - 1, h);
      assert LengthBytes(n, size)[..h] == LengthBytes(n / 256, size - 1)[..h];
    }
  }

  /**
   * The writer stores the first h bytes of a size_t, the reader reads them as a
   * number of h bytes: that gives the length back if and only if the field is
   * as wide as a size_t, or the length is 0.
   */
  lemma LengthFieldIsRightIff(n: nat, h: nat)
    requires n < Capacity(SIZEOF_SIZE_T) && h <= SIZEOF_SIZE_T
    ensures LengthOf(LengthBytes(n, SIZEOF_SIZE_T)[..h]) == n <==> h == SIZEOF_SIZE_T || n == 0
  {
    FirstBytesAreHigh(n, SIZEOF_SIZE_T, h);
  }

  /** With two bytes for the length, the length of a message of one byte is read back as 0. */
  lemma NarrowLengthFieldLosesLengths()
    ensures LengthOf(LengthBytes(1, SIZEOF_SIZE_T)[..2]) == 0
  {
    FirstBytesAreHigh(1, SIZEOF_SIZE_T, 2);
    assert HighBytes(1, 2) == HighBytes(0, 1) == 0;
  }

  function Frame(m: seq<byte>, h: nat): seq<byte> {
    LengthBytes(|m|, h) + m
  }

  function Frames(ms: seq<seq<byte>>, h: nat): seq<byte> {
    if ms == [] then [] else Frame(ms[0], h) + Frames(ms[1..], h)
  }

  /** Messages that a buffer can hold: not empty, and short enough for the length field. */
  ghost predicate Sendable(m: seq<byte>, h: nat) {
    0 < |m| < Capacity(h)
  }

  ghost predicate AllSendable(ms: seq<seq<byte>>, h: nat) {
    forall k | 0 <= k < |ms| :: Sendable(ms[k], h)
  }

  lemma {:induction false} FramesOfMore(ms: seq<seq<byte>>, m: seq<byte>, h: nat)
    ensures Frames(ms + [m], h) == Frames(ms, h) + Frame(m, h)
  {
    hide Frame;
    if ms == [] {
      assert ms + [m] == [m];
    } else {
      FramesOfMore(ms[1..], m, h);
      assert (ms + [m])[1..] == ms[1..] + [m];
      assert Frame(ms[0], h) + (Frames(ms[1..], h) + Frame(m, h)) == Frame(ms[0], h) + Frames(ms[1..], h) + Frame(m, h);
    }
  }

  lemma {:induction false} FramesOfBoth(ms: seq<seq<byte>>, ns: seq<seq<byte>>, h: nat)
    ensures Frames(ms + ns, h) == Frames(ms, h) + Frames(ns, h)
  {
    hide Frame;
    if ms == [] {
      assert ms + ns == ns;
    } else {
      FramesOfBoth(ms[1..], ns, h);
      assert (ms + ns)[1..] == ms[1..] + ns;
      assert Frame(ms[0], h) + (Frames(ms[1..], h) + Frames(ns, h)) == Frame(ms[0], h) + Frames(ms[1..], h) + Frames(ns, h);
    }
  }

  /** How the oldest of some buffered messages is found. */
  lemma OldestFrame(ms: seq<seq<byte>>, h: nat)
    requires ms != [] && AllSendable(ms, h)
    ensures
      var bytes, n := Frames(ms, h), |ms[0]|;
      && h + n <= |bytes| && LengthOf(bytes[..h]) == n && 0 < n
      && bytes[h..h + n] == ms[0] && bytes[h + n..] == Frames(ms[1..], h)
  {
    var bytes, n := Frames(ms, h), |ms[0]|;
    assert Sendable(ms[0], h);
    LengthIsReadBack(n, h);
    assert bytes[..h] == LengthBytes(n, h);
  }

  /** At most a header's worth of bytes can only be none at all. */
  lemma MoreThanAHeader(ms: seq<seq<byte>>, h: nat)
    requires AllSendable(ms, h)
    ensures |Frames(ms, h)| <= h <==> ms == []
  {
    if ms != [] { OldestFrame(ms, h); }
  }

  /** The bytes determine the messages. */
  lemma {:induction false} FramesAreUnambiguous(ms: seq<seq<byte>>, ns: seq<seq<byte>>, h: nat)
    requires AllSendable(ms, h) && AllSendable(ns, h) && Frames(ms, h) == Frames(ns, h)
    ensures ms == ns
  {
    MoreThanAHeader(ms, h);
    MoreThanAHeader(ns, h);
    if ms != [] {
      OldestFrame(ms, h);
      OldestFrame(ns, h);
      assert AllSendable(ms[1..], h) && AllSendable(ns[1..], h);
      FramesAreUnambiguous(ms[1..], ns[1..], h);
      assert ms == [ms[0]] + ms[1..] && ns == [ns[0]] + ns[1..];
    }
  }
}
