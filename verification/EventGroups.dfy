/**
 * Event groups (event_groups.c): setting, clearing and waiting for bits, with
 * broadcast wake-up.  A waiter's request is packed into the value of its
 * event list item, next to control bits; so is the result when it is woken.
 */
module EventGroups {
  import opened BitSets
  import opened Sequences

  const CLEAR_ON_EXIT: bv32 := 0x0100_0000
  const UNBLOCKED_BY_BITS: bv32 := 0x0200_0000
  const WAIT_FOR_ALL: bv32 := 0x0400_0000
  const VALUE_IN_USE: bv32 := 0x8000_0000
  const CONTROL: bv32 := 0xff00_0000

  type Values = map<nat, bv32>

  function Common(x: bv32, y: bv32): bv32 {
    x & y
  }

  function With(bits: bv32, more: bv32): bv32 {
    bits | more
  }

  function Without(bits: bv32, mask: bv32): bv32 {
    bits & !mask
  }

  /** prvTestWaitCondition. */
  predicate TestWaitCondition(bits: bv32, wanted: bv32, all: bool) {
    if all then Common(bits, wanted) == wanted else Common(bits, wanted) != 0
  }

  /** The item value of a task that waits. */
  function Request(wanted: bv32, clear: bool, all: bool): bv32 {
    wanted | (if clear then CLEAR_ON_EXIT else 0) | (if all then WAIT_FOR_ALL else 0) | VALUE_IN_USE
  }

  /** The item value of a task that was woken because of `bits`. */
  function Result(bits: bv32): bv32 {
    bits | UNBLOCKED_BY_BITS | VALUE_IN_USE
  }

  function Wanted(value: bv32): bv32 {
    value & !CONTROL
  }

  predicate ClearsOnExit(value: bv32) {
    value & CONTROL & CLEAR_ON_EXIT != 0
  }

  predicate WaitsForAll(value: bv32) {
    value & CONTROL & WAIT_FOR_ALL != 0
  }

  predicate WasUnblocked(value: bv32) {
    value & UNBLOCKED_BY_BITS != 0
  }

  /** The test that the walk of xEventGroupSetBits makes on a waiter's item value. */
  predicate Satisfied(value: bv32, bits: bv32) {
    var wanted := Wanted(value);
    if WaitsForAll(value) then Common(wanted, bits) == wanted else Common(wanted, bits) != 0
  }

  predicate IsPlain(bits: bv32) {
    bits & CONTROL == 0
  }

  lemma RequestKeepsWanted(wanted: bv32, clear: bool, all: bool)
    requires IsPlain(wanted)
    ensures Wanted(Request(wanted, clear, all)) == wanted
  {
  }

  lemma RequestKeepsControl(wanted: bv32, clear: bool, all: bool)
    requires IsPlain(wanted)
    ensures WaitsForAll(Request(wanted, clear, all)) == all
    ensures ClearsOnExit(Request(wanted, clear, all)) == clear
    ensures !WasUnblocked(Request(wanted, clear, all))
  {
  }

  /** Packing a request and testing it in the walk agree with the test made on entry. */
  lemma RequestIsReadBack(wanted: bv32, clear: bool, all: bool, bits: bv32)
    requires IsPlain(wanted)
    ensures Satisfied(Request(wanted, clear, all), bits) == TestWaitCondition(bits, wanted, all)
    ensures Wanted(Request(wanted, clear, all)) == wanted
    ensures ClearsOnExit(Request(wanted, clear, all)) == clear
    ensures !WasUnblocked(Request(wanted, clear, all))
  {
    hide Request, Wanted, ClearsOnExit, WaitsForAll, WasUnblocked, Common;
    RequestKeepsWanted(wanted, clear, all);
    RequestKeepsControl(wanted, clear, all);
    MaskCommutes(bits, wanted);
  }

  /** The four operations on words, as operations on sets of bits. */
  lemma WordsAreSets(x: bv32, y: bv32)
    ensures Bits(Common(x, y)) == Bits(x) * Bits(y) && Bits(With(x, y)) == Bits(x) + Bits(y)
    ensures Bits(Without(x, y)) == Bits(x) - Bits(y)
  {
    hide Bits;
    BitsOfBoth(x, y);
    BitsOfEither(x, y);
    BitsWithout(x, y);
  }

  /** The test, with the operations written out; and what it means. */
  lemma WaitingMeans(bits: bv32, wanted: bv32)
    ensures TestWaitCondition(bits, wanted, true) <==> bits & wanted == wanted
    ensures TestWaitCondition(bits, wanted, false) <==> bits & wanted != 0
  {
  }

  lemma AllMeans(bits: bv32, wanted: bv32)
    ensures Common(bits, wanted) == wanted <==> Bits(wanted) <= Bits(bits)
  {
    hide *;
    WordsAreSets(bits, wanted);
    SameBits(Common(bits, wanted), wanted);
    var b, n := Bits(bits), Bits(wanted);
    assert b * n == n <==> n <= b;
  }

  lemma NoneInBoth(b: set<nat>, n: set<nat>)
    ensures b * n == {} <==> n !! b
  {
    if b * n == {} {
      forall k | k in n ensures k !in b { assert k !in b * n; }
    }
  }

  lemma AnyMeans(bits: bv32, wanted: bv32)
    ensures Common(bits, wanted) != 0 <==> !(Bits(wanted) !! Bits(bits))
  {
    hide *;
    WordsAreSets(bits, wanted);
    NoBits(Common(bits, wanted));
    NoneInBoth(Bits(bits), Bits(wanted));
  }

  lemma TestMeans(bits: bv32, wanted: bv32, all: bool)
    ensures TestWaitCondition(bits, wanted, all) <==> if all then Bits(wanted) <= Bits(bits) else !(Bits(wanted) !! Bits(bits))
  {
    hide Bits, Common;
    AllMeans(bits, wanted);
    AnyMeans(bits, wanted);
  }

  /** What a waiter's packed request asks for. */
  lemma RequestMeans(wanted: bv32, clear: bool, all: bool, bits: bv32)
    requires IsPlain(wanted)
    ensures Satisfied(Request(wanted, clear, all), bits) <==> if all then Bits(wanted) <= Bits(bits) else !(Bits(wanted) !! Bits(bits))
    ensures ClearsOnExit(Request(wanted, clear, all)) == clear && Wanted(Request(wanted, clear, all)) == wanted
  {
    hide Bits, IsPlain, Satisfied, Request, TestWaitCondition, ClearsOnExit, Wanted;
    RequestIsReadBack(wanted, clear, all, bits);
    TestMeans(bits, wanted, all);
  }

  lemma ResultIsReadBack(bits: bv32)
    requires IsPlain(bits)
    ensures WasUnblocked(Result(bits)) && Wanted(Result(bits)) == bits
  {
  }

  lemma PlainBits(bits: bv32, more: bv32, mask: bv32)
    requires IsPlain(bits) && IsPlain(more)
    ensures IsPlain(With(bits, more)) && IsPlain(Without(bits, mask))
  {
  }

  lemma FewerAllSet(wanted: bv32, bits: bv32, mask: bv32)
    requires Common(wanted, Without(bits, mask)) == wanted
    ensures Common(wanted, bits) == wanted
  {
  }

  lemma FewerAnySet(wanted: bv32, bits: bv32, mask: bv32)
    requires Common(wanted, bits) == 0
    ensures Common(wanted, Without(bits, mask)) == 0
  {
  }

  /** Clearing bits satisfies nobody. */
  lemma ClearingSatisfiesNone(value: bv32, bits: bv32, mask: bv32)
    requires Satisfied(value, Without(bits, mask))
    ensures Satisfied(value, bits)
  {
    hide Wanted, WaitsForAll, Common, Without;
    if WaitsForAll(value) {
      FewerAllSet(Wanted(value), bits, mask);
    } else if Common(Wanted(value), bits) == 0 {
      FewerAnySet(Wanted(value), bits, mask);
    }
  }

  // ---------- the specification ----------

  datatype Group = Group(bits: bv32, waiting: seq<nat>, values: Values)

  ghost predicate HaveValues(ws: seq<nat>, values: Values) {
    forall k | 0 <= k < |ws| :: ws[k] in values
  }

  /** The waiters that `bits` leaves waiting, in their order. */
  ghost function Unsatisfied(ws: seq<nat>, values: Values, bits: bv32): (r: seq<nat>)
    requires HaveValues(ws, values)
    ensures |r| <= |ws|
  {
    if ws == [] then [] else
      var n := |ws| - 1;
      Unsatisfied(ws[..n], values, bits) + if Satisfied(values[ws[n]], bits) then [] else [ws[n]]
  }

  /** The bits that the waiters satisfied by `bits` want cleared. */
  ghost function ClearMask(ws: seq<nat>, values: Values, bits: bv32): bv32
    requires HaveValues(ws, values)
  {
    if ws == [] then 0 else
      var n := |ws| - 1;
      var value := values[ws[n]];
      With(ClearMask(ws[..n], values, bits), if Satisfied(value, bits) && ClearsOnExit(value) then Wanted(value) else 0)
  }

  ghost predicate WokenBy(g: Group, t: nat, bits: bv32) {
    t in g.values && t in g.waiting && Satisfied(g.values[t], bits)
  }

  /** What xEventGroupSetBits makes of the group. */
  ghost function AfterSet(g: Group, toSet: bv32): Group
    requires HaveValues(g.waiting, g.values)
  {
    var bits := With(g.bits, toSet);
    Group(Without(bits, ClearMask(g.waiting, g.values, bits)),
          Unsatisfied(g.waiting, g.values, bits),
          map t | t in g.values :: if WokenBy(g, t, bits) then Result(bits) else g.values[t])
  }

  ghost function AfterPlacing(g: Group, t: nat, value: bv32): Group {
    Group(g.bits, g.waiting + [t], g.values[t := value])
  }

  /** Exactly the unsatisfied waiters remain. */
  lemma {:induction false} WhoRemains(ws: seq<nat>, values: Values, bits: bv32, t: nat)
    requires HaveValues(ws, values)
    ensures t in Unsatisfied(ws, values, bits) <==> t in ws && !Satisfied(values[t], bits)
  {
    hide Satisfied;
    if ws != [] {
      var n := |ws| - 1;
      assert ws == ws[..n] + [ws[n]];
      WhoRemains(ws[..n], values, bits, t);
    }
  }

  lemma {:induction false} StaysWithoutDuplicates(ws: seq<nat>, values: Values, bits: bv32)
    requires HaveValues(ws, values) && NoDuplicates(ws)
    ensures NoDuplicates(Unsatisfied(ws, values, bits))
  {
    hide Satisfied;
    if ws != [] {
      var n := |ws| - 1;
      forall j, k | 0 <= j < k < n ensures Differ(ws[..n], j, k) { assert Differ(ws, j, k); }
      StaysWithoutDuplicates(ws[..n], values, bits);
      forall j | 0 <= j < n ensures ws[j] != ws[n] { assert Differ(ws, j, n); }
      var r := Unsatisfied(ws[..n], values, bits);
      forall j | 0 <= j < |r| ensures r[j] != ws[n] {
        WhoRemains(ws[..n], values, bits, r[j]);
      }
      forall j, k | 0 <= j < k < |Unsatisfied(ws, values, bits)| ensures Differ(Unsatisfied(ws, values, bits), j, k) {
        if k < |r| { assert Differ(r, j, k); }
      }
    }
  }

  predicate NoneOf(bits: bv32, b: bv32) {
    Common(bits, b) == 0
  }

  /** A bit is cleared just when a woken waiter that clears on exit waited for it. */
  lemma {:induction false} ClearMaskIsUnion(ws: seq<nat>, values: Values, bits: bv32, b: bv32)
    requires HaveValues(ws, values)
    ensures NoneOf(ClearMask(ws, values, bits), b) <==>
      forall k | 0 <= k < |ws| && Satisfied(values[ws[k]], bits) && ClearsOnExit(values[ws[k]]) :: NoneOf(Wanted(values[ws[k]]), b)
  {
    hide Satisfied, ClearsOnExit, Wanted, With, NoneOf;
    if ws == [] {
      NoneOfNothing(b);
    } else {
      var n := |ws| - 1;
      var value := values[ws[n]];
      ClearMaskIsUnion(ws[..n], values, bits, b);
      NoneOfNothing(b);
      NoneOfEither(ClearMask(ws[..n], values, bits), if Satisfied(value, bits) && ClearsOnExit(value) then Wanted(value) else 0, b);
      assert forall k | 0 <= k < n :: ws[..n][k] == ws[k];
    }
  }

  lemma NoneOfNothing(b: bv32)
    ensures NoneOf(0, b)
  {
  }

  lemma NoneOfEither(x: bv32, y: bv32, b: bv32)
    ensures NoneOf(With(x, y), b) <==> NoneOf(x, b) && NoneOf(y, b)
  {
    hide With, Common;
    MaskDistributes(x, y, b);
    EitherZero(Common(x, b), Common(y, b));
  }

  lemma MaskDistributes(x: bv32, y: bv32, b: bv32)
    ensures Common(With(x, y), b) == With(Common(x, b), Common(y, b))
  {
  }

  lemma MaskCommutes(x: bv32, y: bv32)
    ensures Common(x, y) == Common(y, x)
  {
  }

  lemma EitherZero(x: bv32, y: bv32)
    ensures With(x, y) == 0 <==> x == 0 && y == 0
  {
  }

  /**
   * One call that sets bits wakes a waiter just when its condition now holds,
   * tells every waiter it wakes the same bits, and leaves the others alone.
   */
  lemma BroadcastIsExact(g: Group, toSet: bv32, t: nat)
    requires HaveValues(g.waiting, g.values) && IsPlain(g.bits) && IsPlain(toSet) && t in g.waiting
    ensures
      var bits, g' := With(g.bits, toSet), AfterSet(g, toSet);
      && t in g.values && t in g'.values
      && (t !in g'.waiting <==> Satisfied(g.values[t], bits))
      && (t !in g'.waiting ==> WasUnblocked(g'.values[t]) && Wanted(g'.values[t]) == bits)
      && (t in g'.waiting ==> g'.values[t] == g.values[t])
  {
    hide Satisfied, IsPlain, ClearMask, Result, Wanted, WasUnblocked, With, Without;
    PlainBits(g.bits, toSet, 0);
    ResultIsReadBack(With(g.bits, toSet));
    WhoRemains(g.waiting, g.values, With(g.bits, toSet), t);
  }

  // ---------- the invariant ----------

  /** The bits are plain, and no task waits although its condition holds. */
  ghost predicate NobodySatisfied(g: Group) {
    && IsPlain(g.bits)
    && NoDuplicates(g.waiting) && HaveValues(g.waiting, g.values)
    && forall k | 0 <= k < |g.waiting| :: !Satisfied(g.values[g.waiting[k]], g.bits)
  }

  /**
   * Every task inside a waiting call either still shows its request, or was
   * woken by bits that are plain and satisfy that request.
   */
  ghost predicate Requested(g: Group, requests: Values) {
    && requests.Keys <= g.values.Keys
    && (forall k | 0 <= k < |g.waiting| :: g.waiting[k] in requests)
    && (forall t | t in requests :: !WasUnblocked(requests[t]))
    && (forall t | t in requests && t in g.waiting :: g.values[t] == requests[t])
    && (forall t | t in requests :: g.values[t] == requests[t] || WokenFor(g.values[t], requests[t]))
  }

  predicate WokenFor(value: bv32, request: bv32) {
    value == Result(Wanted(value)) && Satisfied(request, Wanted(value))
  }

  lemma SetKeepsNobodySatisfied(g: Group, toSet: bv32)
    requires NobodySatisfied(g) && IsPlain(toSet)
    ensures NobodySatisfied(AfterSet(g, toSet))
  {
    hide Satisfied, IsPlain, ClearMask, NoDuplicates, Result, With, Without;
    var bits, g' := With(g.bits, toSet), AfterSet(g, toSet);
    var mask := ClearMask(g.waiting, g.values, bits);
    PlainBits(g.bits, toSet, mask);
    PlainBits(bits, toSet, mask);
    StaysWithoutDuplicates(g.waiting, g.values, bits);
    forall k | 0 <= k < |g'.waiting|
      ensures g'.waiting[k] in g'.values && !Satisfied(g'.values[g'.waiting[k]], g'.bits)
    {
      var t := g'.waiting[k];
      WhoRemains(g.waiting, g.values, bits, t);
      if Satisfied(g.values[t], g'.bits) { ClearingSatisfiesNone(g.values[t], bits, mask); }
    }
  }

  lemma SetKeepsRequested(g: Group, requests: Values, toSet: bv32)
    requires NobodySatisfied(g) && Requested(g, requests) && IsPlain(toSet)
    ensures Requested(AfterSet(g, toSet), requests)
  {
    hide Satisfied, IsPlain, ClearMask, NoDuplicates, Result, Wanted, WasUnblocked, With, Without;
    var bits, g' := With(g.bits, toSet), AfterSet(g, toSet);
    PlainBits(g.bits, toSet, 0);
    ResultIsReadBack(bits);
    forall k | 0 <= k < |g'.waiting| ensures g'.waiting[k] in requests {
      WhoRemains(g.waiting, g.values, bits, g'.waiting[k]);
    }
    forall t | t in requests && t in g'.waiting ensures g'.values[t] == requests[t] {
      WhoRemains(g.waiting, g.values, bits, t);
    }
  }

  lemma ClearKeepsNobodySatisfied(g: Group, clear: bv32)
    requires NobodySatisfied(g)
    ensures NobodySatisfied(g.(bits := Without(g.bits, clear)))
  {
    hide Satisfied, IsPlain, NoDuplicates, Without;
    PlainBits(g.bits, g.bits, clear);
    forall k | 0 <= k < |g.waiting| ensures !Satisfied(g.values[g.waiting[k]], Without(g.bits, clear)) {
      if Satisfied(g.values[g.waiting[k]], Without(g.bits, clear)) {
        ClearingSatisfiesNone(g.values[g.waiting[k]], g.bits, clear);
      }
    }
  }

  lemma PlacingKeepsInvariant(g: Group, requests: Values, t: nat, value: bv32)
    requires NobodySatisfied(g) && Requested(g, requests) && t !in requests
    requires !Satisfied(value, g.bits) && !WasUnblocked(value)
    ensures NobodySatisfied(AfterPlacing(g, t, value)) && Requested(AfterPlacing(g, t, value), requests[t := value])
  {
    hide Satisfied, IsPlain, WasUnblocked, WokenFor;
    var g' := AfterPlacing(g, t, value);
    forall j, k | 0 <= j < k < |g'.waiting| ensures Differ(g'.waiting, j, k) {
      if k < |g.waiting| { assert Differ(g.waiting, j, k); }
    }
  }

  lemma LeavingKeepsInvariant(g: Group, requests: Values, k: int)
    requires NobodySatisfied(g) && Requested(g, requests) && 0 <= k < |g.waiting|
    ensures NobodySatisfied(g.(waiting := RemoveAt(g.waiting, k))) && Requested(g.(waiting := RemoveAt(g.waiting, k)), requests)
  {
    hide Satisfied, IsPlain, WasUnblocked, WokenFor;
    var rest := RemoveAt(g.waiting, k);
    forall i, j | 0 <= i < j < |rest| ensures Differ(rest, i, j) {
      assert Differ(g.waiting, if i < k then i else i + 1, if j < k then j else j + 1);
    }
  }

  lemma ReturningKeepsInvariant(g: Group, requests: Values, t: nat, value: bv32)
    requires NobodySatisfied(g) && Requested(g, requests) && t !in g.waiting && t in requests
    ensures NobodySatisfied(g.(values := g.values[t := value])) && Requested(g.(values := g.values[t := value]), requests - {t})
  {
    hide Satisfied, IsPlain, WasUnblocked, WokenFor, NoDuplicates;
  }

  /** What a task that has left the list finds in its event list item. */
  lemma ReadBack(g: Group, requests: Values, t: nat, wanted: bv32, clear: bool, all: bool)
    requires Requested(g, requests) && t in requests && IsPlain(wanted) && requests[t] == Request(wanted, clear, all)
    ensures t in g.values
    ensures WasUnblocked(g.values[t]) ==> TestWaitCondition(Wanted(g.values[t]), wanted, all)
    ensures !WasUnblocked(g.values[t]) ==> g.values[t] == requests[t]
  {
    hide Satisfied, IsPlain, Request, Wanted, TestWaitCondition, WasUnblocked, Result;
    RequestIsReadBack(wanted, clear, all, Wanted(g.values[t]));
    ResultIsUnblocked(Wanted(g.values[t]));
  }

  lemma ResultIsUnblocked(bits: bv32)
    ensures WasUnblocked(Result(bits))
  {
  }

  lemma PartOfSet(bits: bv32, toSet: bv32, mask: bv32, wanted: bv32)
    requires Common(wanted, Without(With(bits, toSet), mask)) == wanted
    ensures Common(With(bits, toSet), wanted) == wanted
  {
    hide With;
    FewerAllSet(wanted, With(bits, toSet), mask);
    MaskCommutes(wanted, With(bits, toSet));
  }

  lemma ItemsHaveValues(g: Group)
    requires NobodySatisfied(g)
    ensures HaveValues(g.waiting, g.values)
  {
  }

  lemma PlainIsWanted(g: Group)
    requires NobodySatisfied(g)
    ensures Wanted(g.bits) == g.bits
  {
    PlainBitsAreWanted(g.bits);
  }

  lemma PlainBitsAreWanted(bits: bv32)
    requires IsPlain(bits)
    ensures Wanted(bits) == bits
  {
  }

  lemma ClearKeepsRequested(g: Group, requests: Values, clear: bv32)
    requires Requested(g, requests)
    ensures Requested(g.(bits := Without(g.bits, clear)), requests)
  {
    hide Without, WasUnblocked, WokenFor;
  }

  // ---------- the walk of xEventGroupSetBits ----------

  lemma WithNothing(x: bv32)
    ensures With(x, 0) == x
  {
  }

  /** The item values when the walk has passed the first i waiters. */
  ghost function Woken(g: Group, i: nat, bits: bv32): Values
    requires i <= |g.waiting|
  {
    map t | t in g.values :: if t in g.waiting[..i] && Satisfied(g.values[t], bits) then Result(bits) else g.values[t]
  }

  lemma NotYetWoken(g: Group, i: nat, bits: bv32)
    requires NoDuplicates(g.waiting) && HaveValues(g.waiting, g.values) && i < |g.waiting|
    ensures g.waiting[i] in Woken(g, i, bits) && Woken(g, i, bits)[g.waiting[i]] == g.values[g.waiting[i]]
  {
    hide Satisfied, Result;
    forall j | 0 <= j < i ensures g.waiting[j] != g.waiting[i] { assert Differ(g.waiting, j, i); }
  }

  lemma WakeNext(g: Group, i: nat, bits: bv32)
    requires NoDuplicates(g.waiting) && HaveValues(g.waiting, g.values) && i < |g.waiting|
    ensures
      var t := g.waiting[i];
      Woken(g, i + 1, bits) == if Satisfied(g.values[t], bits) then Woken(g, i, bits)[t := Result(bits)] else Woken(g, i, bits)
  {
    hide Satisfied, Result;
    NotYetWoken(g, i, bits);
    assert g.waiting[..i + 1] == g.waiting[..i] + [g.waiting[i]];
  }

  lemma AllWoken(g: Group, bits: bv32)
    requires HaveValues(g.waiting, g.values)
    ensures Woken(g, |g.waiting|, bits) == map t | t in g.values :: if WokenBy(g, t, bits) then Result(bits) else g.values[t]
  {
    hide Satisfied, Result;
    assert g.waiting[..|g.waiting|] == g.waiting;
  }

  /**
   * The walk has passed the first i waiters: of these the unsatisfied ones are
   * still listed, before position k, and the others have been told the bits.
   */
  ghost predicate Walked(g: Group, bits: bv32, i: nat, k: int, waiting: seq<nat>, toClear: bv32, values: Values) {
    && NoDuplicates(g.waiting) && HaveValues(g.waiting, g.values)
    && i <= |g.waiting| && k == |Unsatisfied(g.waiting[..i], g.values, bits)|
    && waiting == Unsatisfied(g.waiting[..i], g.values, bits) + g.waiting[i..]
    && toClear == ClearMask(g.waiting[..i], g.values, bits)
    && values == Woken(g, i, bits)
  }

  lemma WalkStarts(g: Group, bits: bv32)
    requires NobodySatisfied(g)
    ensures Walked(g, bits, 0, 0, g.waiting, 0, g.values)
  {
    hide Satisfied, IsPlain;
  }

  lemma WalkOn(g: Group, bits: bv32, i: nat, k: int, waiting: seq<nat>, toClear: bv32, values: Values)
    requires Walked(g, bits, i, k, waiting, toClear, values) && k < |waiting|
    ensures 0 <= k && waiting[k] in values
    ensures
      var t := waiting[k];
      if Satisfied(values[t], bits) then
        Walked(g, bits, i + 1, k, RemoveAt(waiting, k),
               if ClearsOnExit(values[t]) then With(toClear, Wanted(values[t])) else toClear, values[t := Result(bits)])
      else
        Walked(g, bits, i + 1, k + 1, waiting, toClear, values)
  {
    hide Satisfied, ClearsOnExit, Wanted, With, Result, Woken, RemoveAt, NoDuplicates;
    var t := g.waiting[i];
    assert waiting[k] == t;
    NotYetWoken(g, i, bits);
    WakeNext(g, i, bits);
    WithNothing(toClear);
    var before, after := g.waiting[..i], g.waiting[..i + 1];
    assert after[..i] == before && after[i] == t;
    var left := Unsatisfied(before, g.values, bits);
    assert g.waiting[i..] == [t] + g.waiting[i + 1..];
    if Satisfied(values[t], bits) {
      RemoveMiddle(left, t, g.waiting[i + 1..]);
    } else {
      assert left + ([t] + g.waiting[i + 1..]) == left + [t] + g.waiting[i + 1..];
    }
  }

  lemma RemoveMiddle(left: seq<nat>, t: nat, right: seq<nat>)
    ensures RemoveAt(left + ([t] + right), |left|) == left + right
  {
  }

  lemma WalkEnds(g: Group, toSet: bv32, bits: bv32, i: nat, k: int, waiting: seq<nat>, toClear: bv32, values: Values)
    requires Walked(g, bits, i, k, waiting, toClear, values) && k >= |waiting| && bits == With(g.bits, toSet)
    ensures Group(Without(bits, toClear), waiting, values) == AfterSet(g, toSet)
  {
    hide Satisfied, ClearsOnExit, Wanted, With, Without, Result, Woken, NoDuplicates;
    assert g.waiting[..i] == g.waiting;
    AllWoken(g, bits);
  }

  // ---------- what setting bits means ----------

  /** The bits that waiters of ws who are no longer among `rest` asked to be cleared. */
  ghost function ClearedFor(ws: seq<nat>, rest: seq<nat>, requests: Values): set<nat> {
    set t, k | t in ws && t !in rest && t in requests && ClearsOnExit(requests[t]) && k in Bits(Wanted(requests[t])) :: k
  }

  /** Who is woken by bits that are set, in terms of what was asked for. */
  lemma SetWakes(g: Group, requests: Values, toSet: bv32, t: nat, wanted: bv32, clear: bool, all: bool)
    requires NobodySatisfied(g) && Requested(g, requests) && IsPlain(toSet)
    requires t in g.waiting && t in requests && IsPlain(wanted) && requests[t] == Request(wanted, clear, all)
    ensures t in AfterSet(g, toSet).waiting <==>
      if all then !(Bits(wanted) <= Bits(g.bits) + Bits(toSet)) else Bits(wanted) !! Bits(g.bits) + Bits(toSet)
  {
    hide Bits, Satisfied, IsPlain, Request, WasUnblocked, With, Wanted, AfterSet, ClearsOnExit;
    BroadcastIsExact(g, toSet, t);
    RequestMeans(wanted, clear, all, With(g.bits, toSet));
    WordsAreSets(g.bits, toSet);
  }

  /** Which bits remain. */
  lemma {:induction false} BitsToClear(ws: seq<nat>, values: Values, bits: bv32)
    requires HaveValues(ws, values)
    ensures Bits(ClearMask(ws, values, bits)) ==
      set t, k | t in ws && Satisfied(values[t], bits) && ClearsOnExit(values[t]) && k in Bits(Wanted(values[t])) :: k
  {
    hide Bits, Satisfied, ClearsOnExit, Wanted, With, Common, Without;
    NoBits(0);
    if ws != [] {
      var n := |ws| - 1;
      var value := values[ws[n]];
      BitsToClear(ws[..n], values, bits);
      WordsAreSets(ClearMask(ws[..n], values, bits), if Satisfied(value, bits) && ClearsOnExit(value) then Wanted(value) else 0);
      assert ws == ws[..n] + [ws[n]];
    }
  }

  lemma SetLeaves(g: Group, requests: Values, toSet: bv32)
    requires NobodySatisfied(g) && Requested(g, requests) && IsPlain(toSet)
    ensures Bits(AfterSet(g, toSet).bits) == Bits(g.bits) + Bits(toSet) - ClearedFor(g.waiting, AfterSet(g, toSet).waiting, requests)
  {
    hide Bits, Satisfied, IsPlain, Request, WasUnblocked, With, Wanted, ClearsOnExit, Without, ClearMask;
    var bits := With(g.bits, toSet);
    WordsAreSets(g.bits, toSet);
    WordsAreSets(bits, ClearMask(g.waiting, g.values, bits));
    BitsToClear(g.waiting, g.values, bits);
    forall t | t in g.waiting ensures t in AfterSet(g, toSet).waiting <==> !Satisfied(g.values[t], bits) {
      WhoRemains(g.waiting, g.values, bits, t);
    }
  }

  // ---------- the event group ----------

  datatype Outcome = Returned(bits: bv32) | Blocked

  class EventGroup {
    var bits: bv32                   // uxEventBits
    var waiting: seq<nat>            // xTasksWaitingForBits
    var itemValue: Values            // the values of the tasks' event list items
    ghost var requests: Values       // of the tasks inside xEventGroupWaitBits or xEventGroupSync

    ghost function Contents(): Group
      reads this
    {
      Group(bits, waiting, itemValue)
    }

    ghost predicate Valid()
      reads this
    {
      NobodySatisfied(Contents()) && Requested(Contents(), requests)
    }

    /** xEventGroupCreate. */
    constructor ()
      ensures Valid() && Contents() == Group(0, [], map[]) && requests == map[]
    {
      bits, waiting, itemValue, requests := 0, [], map[], map[];
    }

    /**
     * xEventGroupSetBits: one walk along the list wakes exactly the tasks whose
     * request the new bits satisfy, tells each of them the same bits, and then
     * clears the bits that they want cleared.
     */
    method SetBits(toSet: bv32) returns (result: bv32)
      requires Valid() && IsPlain(toSet)
      modifies `bits, `waiting, `itemValue
      ensures Valid() && Contents() == AfterSet(old(Contents()), toSet) && result == bits
      ensures forall t, wanted, clear, all | t in old(waiting) && t in requests && IsPlain(wanted) && requests[t] == Request(wanted, clear, all) ::
        t in waiting <==> if all then !(Bits(wanted) <= old(Bits(bits)) + Bits(toSet)) else Bits(wanted) !! old(Bits(bits)) + Bits(toSet)
      ensures Bits(bits) == old(Bits(bits)) + Bits(toSet) - ClearedFor(old(waiting), waiting, requests)
    {
      hide Satisfied, ClearsOnExit, Wanted, With, Without, Result, NobodySatisfied, Requested, IsPlain, Walked, AfterSet, Bits, Request, ClearedFor;
      ghost var g := Contents();
      SetKeepsNobodySatisfied(g, toSet);
      SetKeepsRequested(g, requests, toSet);
      WalkStarts(g, With(g.bits, toSet));
      var toClear: bv32 := 0;
      bits := With(bits, toSet);
      var k := 0;                     // the waiter that the walk has come to
      ghost var i := 0;               // how many it has passed
      while k < |waiting|
        invariant bits == With(g.bits, toSet)
        invariant Walked(g, bits, i, k, waiting, toClear, itemValue)
        decreases |waiting| - k
      {
        WalkOn(g, bits, i, k, waiting, toClear, itemValue);
        var t := waiting[k];
        var value := itemValue[t];
        if Satisfied(value, bits) {
          if ClearsOnExit(value) {
            toClear := With(toClear, Wanted(value));
          }
          itemValue := itemValue[t := Result(bits)];
          waiting := RemoveAt(waiting, k);
        } else {
          k := k + 1;
        }
        i := i + 1;
      }
      WalkEnds(g, toSet, bits, i, k, waiting, toClear, itemValue);
      bits := Without(bits, toClear);
      result := bits;
      SetLeaves(g, requests, toSet);
      forall t, wanted, clear, all | t in g.waiting && t in requests && IsPlain(wanted) && requests[t] == Request(wanted, clear, all)
        ensures t in waiting <==> if all then !(Bits(wanted) <= Bits(g.bits) + Bits(toSet)) else Bits(wanted) !! Bits(g.bits) + Bits(toSet)
      {
        SetWakes(g, requests, toSet, t, wanted, clear, all);
      }
    }

    /** xEventGroupClearBits. */
    method ClearBits(toClear: bv32) returns (result: bv32)
      requires Valid()
      modifies `bits
      ensures Valid() && result == old(bits) && Contents() == old(Contents()).(bits := bits)
      ensures Bits(bits) == Bits(old(bits)) - Bits(toClear)
    {
      hide Bits, Without, Common, With;
      WordsAreSets(bits, toClear);
      ClearKeepsNobodySatisfied(Contents(), toClear);
      result := bits;
      bits := Without(bits, toClear);
    }

    /** The blocking half of both waiting calls: the request goes into the event list item, the item onto the list. */
    method Place(t: nat, value: bv32)
      requires Valid() && t !in requests && !Satisfied(value, bits) && !WasUnblocked(value)
      modifies `waiting, `itemValue, `requests
      ensures Valid() && Contents() == AfterPlacing(old(Contents()), t, value) && requests == old(requests)[t := value]
    {
      PlacingKeepsInvariant(Contents(), requests, t, value);
      waiting, itemValue, requests := waiting + [t], itemValue[t := value], requests[t := value];
    }

    /** xEventGroupWaitBits, up to where the task t returns or blocks. */
    method WaitBits(t: nat, wanted: bv32, clear: bool, all: bool, mayBlock: bool) returns (o: Outcome)
      requires Valid() && IsPlain(wanted) && t !in requests
      modifies `bits, `waiting, `itemValue, `requests
      ensures Valid()
      ensures all ==> (o == Blocked <==> mayBlock && !(Bits(wanted) <= old(Bits(bits))))
      ensures !all ==> (o == Blocked <==> mayBlock && Bits(wanted) !! old(Bits(bits)))
      ensures o != Blocked ==>
        var met := if all then Bits(wanted) <= old(Bits(bits)) else !(Bits(wanted) !! old(Bits(bits)));
        && o == Returned(old(bits)) && requests == old(requests) && Contents() == old(Contents()).(bits := bits)
        && if met && clear then Bits(bits) == old(Bits(bits)) - Bits(wanted) else bits == old(bits)
      ensures o == Blocked ==>
        && requests == old(requests)[t := Request(wanted, clear, all)]
        && Contents() == AfterPlacing(old(Contents()), t, Request(wanted, clear, all))
    {
      hide Satisfied, IsPlain, Request, Without, With, Common, WasUnblocked, TestWaitCondition, NobodySatisfied, Requested, Bits;
      RequestIsReadBack(wanted, clear, all, bits);
      TestMeans(bits, wanted, all);
      WordsAreSets(bits, wanted);
      ClearKeepsNobodySatisfied(Contents(), wanted);
      ClearKeepsRequested(Contents(), requests, wanted);
      if TestWaitCondition(bits, wanted, all) {
        o := Returned(bits);
        if clear {
          bits := Without(bits, wanted);
        }
      } else if !mayBlock {
        o := Returned(bits);
      } else {
        Place(t, Request(wanted, clear, all));
        o := Blocked;
      }
    }

    /** xEventGroupSync, up to where the task t returns or blocks. */
    method Sync(t: nat, toSet: bv32, wanted: bv32, mayBlock: bool) returns (o: Outcome)
      requires Valid() && IsPlain(wanted) && IsPlain(toSet) && t !in requests
      modifies `bits, `waiting, `itemValue, `requests
      ensures Valid()
      ensures
        var g := AfterSet(old(Contents()), toSet);
        if Bits(wanted) <= old(Bits(bits)) + Bits(toSet) then
          && o.Returned? && Bits(o.bits) == old(Bits(bits)) + Bits(toSet) && requests == old(requests)
          && Contents() == g.(bits := bits) && Bits(bits) == Bits(g.bits) - Bits(wanted)
        else if !mayBlock then
          o == Returned(g.bits) && Contents() == g && requests == old(requests)
        else
          && o == Blocked && Contents() == AfterPlacing(g, t, Request(wanted, true, true))
          && requests == old(requests)[t := Request(wanted, true, true)]
    {
      hide Satisfied, IsPlain, Request, With, Without, Common, WasUnblocked, ClearMask, NobodySatisfied, Requested, Unsatisfied, WokenBy, Bits, ClearedFor;
      var original := bits;
      WordsAreSets(bits, toSet);
      AllMeans(With(bits, toSet), wanted);
      ghost var mask := ClearMask(waiting, itemValue, With(bits, toSet)) by { ItemsHaveValues(Contents()); }
      var _ := SetBits(toSet);
      if Common(With(original, toSet), wanted) == wanted {
        o := Returned(With(original, toSet));
        ClearKeepsNobodySatisfied(Contents(), wanted);
        ClearKeepsRequested(Contents(), requests, wanted);
        WordsAreSets(bits, wanted);
        bits := Without(bits, wanted);
      } else if mayBlock {
        RequestIsReadBack(wanted, true, true, bits);
        MaskCommutes(bits, wanted);
        if Common(wanted, bits) == wanted { PartOfSet(original, toSet, mask, wanted); }
        Place(t, Request(wanted, true, true));
        o := Blocked;
      } else {
        o := Returned(bits);
      }
    }

    /** The tick handler takes the waiter at position k off the list because its time has come. */
    method TimeOut(k: nat)
      requires Valid() && k < |waiting|
      modifies `waiting
      ensures Valid() && waiting == RemoveAt(old(waiting), k)
    {
      LeavingKeepsInvariant(Contents(), requests, k);
      waiting := RemoveAt(waiting, k);
    }

    /**
     * The end of both waiting calls, when the task runs again: if bits woke it,
     * it gets bits that meet its condition, whatever has been cleared since;
     * if it timed out, it looks at the bits once more.
     */
    method ReturnAfterBlocking(t: nat, wanted: bv32, clear: bool, all: bool, normalValue: bv32) returns (result: bv32)
      requires Valid() && IsPlain(wanted) && t !in waiting
      requires t in requests && requests[t] == Request(wanted, clear, all)
      modifies `bits, `itemValue, `requests
      ensures Valid() && waiting == old(waiting) && requests == old(requests) - {t} && t in old(itemValue)
      ensures itemValue == old(itemValue)[t := normalValue]
      ensures WasUnblocked(old(itemValue)[t]) ==>
        && result == Wanted(old(itemValue)[t]) && bits == old(bits)
        && if all then Bits(wanted) <= Bits(result) else !(Bits(wanted) !! Bits(result))
      ensures !WasUnblocked(old(itemValue)[t]) ==>
        var met := if all then Bits(wanted) <= old(Bits(bits)) else !(Bits(wanted) !! old(Bits(bits)));
        && old(itemValue)[t] == Request(wanted, clear, all) && result == old(bits)
        && if met && clear then Bits(bits) == old(Bits(bits)) - Bits(wanted) else bits == old(bits)
    {
      hide Satisfied, IsPlain, Request, Wanted, Without, With, Common, WasUnblocked, TestWaitCondition, NobodySatisfied, Requested, Bits;
      WordsAreSets(bits, wanted);
      TestMeans(bits, wanted, all);
      ReadBack(Contents(), requests, t, wanted, clear, all);
      TestMeans(Wanted(itemValue[t]), wanted, all);
      ReturningKeepsInvariant(Contents(), requests, t, normalValue);
      PlainIsWanted(Contents());
      result := itemValue[t];
      itemValue, requests := itemValue[t := normalValue], requests - {t};
      if !WasUnblocked(result) {
        result := bits;
        if TestWaitCondition(result, wanted, all) {
          if clear {
            ClearKeepsNobodySatisfied(Contents(), wanted);
            ClearKeepsRequested(Contents(), requests, wanted);
            bits := Without(bits, wanted);
          }
        }
      }
      result := Wanted(result);
    }
  }
}
