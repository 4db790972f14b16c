/** Sequences that lie in a circular buffer. */
module Rings {
  import opened Arithmetic

  type byte = b: int | 0 <= b < 256

  /** The n slots of a ring from slot h on. */
  function Window<T>(slots: seq<T>, h: nat, n: nat): (s: seq<T>)
    requires h < |slots| && n <= |slots|
    ensures |s| == n && forall i {:trigger s[i]} | 0 <= i < n :: s[i] == slots[Wrap(h + i, |slots|)]
  {
    seq(n, i requires 0 <= i < n => slots[Wrap(h + i, |slots|)])
  }

  /** Writing the slot after the window appends. */
  lemma WindowBack<T>(slots: seq<T>, h: nat, n: nat, x: T)
    requires h < |slots| && n < |slots|
    ensures Window(slots[Wrap(h + n, |slots|) := x], h, n + 1) == Window(slots, h, n) + [x]
  {
  }

  /** Writing the slot before the window and starting there prepends. */
  lemma WindowFront<T>(slots: seq<T>, h: nat, n: nat, x: T)
    requires h < |slots| && n < |slots|
    ensures var p := if h == 0 then |slots| - 1 else h - 1;
      Window(slots[p := x], p, n + 1) == [x] + Window(slots, h, n)
  {
  }

  /** Starting the window one slot later drops its first item. */
  lemma WindowPop<T>(slots: seq<T>, h: nat, n: nat)
    requires h < |slots| && 0 < n <= |slots|
    ensures Window(slots, h, n) == [slots[h]] + Window(slots, Wrap(h + 1, |slots|), n - 1)
  {
  }

  /** The slot k places behind `place`. */
  function At<T>(slots: seq<T>, place: nat, k: nat): T
    requires place < |slots| && k < |slots|
  {
    slots[Wrap(place + k, |slots|)]
  }

  /** `data` has been written from `place` on, and nothing else has changed. */
  ghost predicate Overwritten<T(!new)>(before: seq<T>, after: seq<T>, place: nat, data: seq<T>) {
    && |after| == |before| && place < |before| && |data| <= |before|
    && forall k {:trigger At(after, place, k)} | 0 <= k < |before| :: At(after, place, k) == if k < |data| then data[k] else At(before, place, k)
  }

  /** Two writes, one behind the other, are one. */
  lemma OverwrittenTwice<T(!new)>(s0: seq<T>, s1: seq<T>, s2: seq<T>, place: nat, x: seq<T>, y: seq<T>)
    requires Overwritten(s0, s1, place, x) && |x| + |y| <= |s0|
    requires |x| < |s0| && Overwritten(s1, s2, Wrap(place + |x|, |s0|), y)
    ensures Overwritten(s0, s2, place, x + y)
  {
    var n, next := |s0|, Wrap(place + |x|, |s0|);
    forall k | 0 <= k < n ensures At(s2, place, k) == if k < |x + y| then (x + y)[k] else At(s0, place, k) {
      var j := if |x| <= k then k - |x| else k - |x| + n;
      assert Wrap(next + j, n) == Wrap(place + k, n);
      assert At(s2, next, j) == if j < |y| then y[j] else At(s1, next, j);
      assert At(s1, place, k) == if k < |x| then x[k] else At(s0, place, k);
    }
  }

  /** Writing behind a window appends to it. */
  lemma WriteAppends<T(!new)>(before: seq<T>, after: seq<T>, h: nat, n: nat, data: seq<T>)
    requires h < |before| && n < |before| && n + |data| <= |before|
    requires Overwritten(before, after, Wrap(h + n, |before|), data)
    ensures Window(after, h, n + |data|) == Window(before, h, n) + data
  {
    var place, size := Wrap(h + n, |before|), |before|;
    forall i | 0 <= i < n + |data| ensures Window(after, h, n + |data|)[i] == (Window(before, h, n) + data)[i] {
      var k := if n <= i then i - n else i - n + size;
      assert Wrap(place + k, size) == Wrap(h + i, size);
      assert At(after, place, k) == if k < |data| then data[k] else At(before, place, k);
    }
  }

  /** A window is its first m slots and the rest. */
  lemma WindowSplit<T>(slots: seq<T>, h: nat, m: nat, n: nat)
    requires h < |slots| && m < |slots| && m + n <= |slots|
    ensures Window(slots, h, m + n) == Window(slots, h, m) + Window(slots, Wrap(h + m, |slots|), n)
  {
  }

  /** Writing behind a window does not change it. */
  lemma HiddenWrite<T(!new)>(before: seq<T>, after: seq<T>, h: nat, n: nat, data: seq<T>)
    requires h < |before| && n < |before| && n + |data| <= |before|
    requires Overwritten(before, after, Wrap(h + n, |before|), data)
    ensures Window(after, h, n) == Window(before, h, n)
  {
    WriteAppends(before, after, h, n, data);
    assert Window(after, h, n) == Window(after, h, n + |data|)[..n];
  }
}
