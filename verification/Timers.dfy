/**
 * The software-timer daemon (timers.c): expiry times in wrapping ticks, a
 * current and an overflow list, and replay of missed expiries.  Ghost fields
 * carry the same times on a clock that never wraps.
 */
module Timers {
  import opened Arithmetic
  import opened SortedItems

  datatype Timer = Timer(period: int, autoReload: bool, active: bool, isStatic: bool)

  datatype Command =
    | Start(id: nat, commandTime: int)
    | Stop(id: nat)
    | ChangePeriod(id: nat, period: int)
    | Delete(id: nat)

  datatype Placement = ProcessNow | ToOverflow | ToCurrent

  function Elapsed(w: int, now: int, since: int): int {
    if since <= now then now - since else now - since + w
  }

  /** The tick reading, in an epoch that began at `epoch`, of a time less than one wrap earlier than its end. */
  ghost function TickOf(w: int, epoch: int, t: int): int {
    if epoch <= t then t - epoch else t - epoch + w
  }

  /** The three-way decision of prvInsertTimerInActiveList. */
  function Place(w: int, period: int, nextExpiry: int, now: int, commandTime: int): Placement {
    if nextExpiry <= now then
      if Elapsed(w, now, commandTime) >= period then ProcessNow else ToOverflow
    else if now < commandTime && nextExpiry >= commandTime then ProcessNow
    else ToCurrent
  }

  /**
   * The decision sees only wrapped readings, yet is right on the unbounded
   * clock: process now exactly when the period has passed, and otherwise file
   * the timer by the epoch its expiry really falls into.
   */
  lemma PlacementIsExact(w: int, epoch: int, period: int, now: int, command: int)
    requires 0 < period < w
    requires epoch <= now < epoch + w && now - w < command <= now
    ensures var c := TickOf(w, epoch, command);
      Place(w, period, Wrap(c + period, w), now - epoch, c) ==
        if command + period <= now then ProcessNow
        else if command + period < epoch + w then ToCurrent
        else ToOverflow
    ensures var c := TickOf(w, epoch, command);
      now < command + period ==>
        Wrap(c + period, w) == if command + period < epoch + w then command + period - epoch else command + period - epoch - w
  {
    var c := TickOf(w, epoch, command);
    assert Elapsed(w, now - epoch, c) == now - command;
  }

  /**
   * However late a command is handled, the decision sees the time since it was
   * issued modulo the wrap, and so takes the timer for due just when that has
   * reached the period.  It is right unless a wrap or more has passed and what
   * is left of the time looks like less than the period.
   */
  lemma PlacementOfLateCommand(w: int, epoch: int, period: int, now: int, command: int)
    requires 0 < period < w && epoch <= now < epoch + w && command <= now
    ensures var c := ReadingOf(w, epoch, command);
      0 <= c && (Place(w, period, Wrap(c + period, w), now - epoch, c) == ProcessNow <==> (now - command) % w >= period)
    ensures var c := ReadingOf(w, epoch, command);
      ((Place(w, period, Wrap(c + period, w), now - epoch, c) == ProcessNow) == (command + period <= now))
      <==> !(now - command >= w && (now - command) % w < period)
  {
    TimeSince(w, epoch, now, command);
    hide ReadingOf;
  }

  /** When a daemon that handles a command at time `now` takes it to have been issued: at the last time with its reading. */
  ghost function Issued(w: int, now: int, command: int): int
    requires 0 < w
  {
    now - (now - command) % w
  }

  /** The reading tells the time since then, and that is the time of issue if it is less than a wrap ago. */
  lemma {:induction false} TimeSince(w: int, epoch: int, now: int, command: int)
    requires 0 < w && epoch <= now < epoch + w
    ensures var c := ReadingOf(w, epoch, command);
      && 0 <= c < w && c == TickOf(w, epoch, Issued(w, now, command))
      && Elapsed(w, now - epoch, c) == (now - command) % w
    ensures now - w < Issued(w, now, command) <= now
    ensures command <= now ==> (Issued(w, now, command) == command <==> now - command < w)
  {
    var c := ReadingOf(w, epoch, command);
    var q := (command - epoch) / w;
    assert command - epoch == q * w + c;
    if c <= now - epoch {
      assert now - command == (now - epoch - c) + -q * w;
      Remainder(now - command, now - epoch - c, -q, w);
    } else {
      assert now - command == (now - epoch - c + w) + (-q - 1) * w;
      Remainder(now - command, now - epoch - c + w, -q - 1, w);
    }
  }

  /** In 32 bits, a timer of ten ticks whose start is handled a whole wrap late is filed for ten ticks later. */
  lemma LateCommandIsMisplaced()
    ensures
      var w, now, command := 0x1_0000_0000, 0x1_0000_0005, 5;
      && command + 10 <= now
      && Place(w, 10, Wrap(ReadingOf(w, w, command) + 10, w), now - w, ReadingOf(w, w, command)) == ToCurrent
  {
    PlacementOfLateCommand(0x1_0000_0000, 0x1_0000_0000, 10, 0x1_0000_0005, 5);
  }

  /** The n-th expiry of a timer of this period started at `start`. */
  ghost function NthExpiry(start: int, period: int, n: nat): int {
    if n == 0 then start else NthExpiry(start, period, n - 1) + period
  }

  lemma {:induction false} NthExpiryIsProduct(start: int, period: int, n: nat)
    ensures NthExpiry(start, period, n) == start + n * period
  {
    if n > 0 {
      NthExpiryIsProduct(start, period, n - 1);
      assert n * period == (n - 1) * period + period;
    }
  }

  /** How many expiries of a timer started at `start` lie in the time up to `now`. */
  ghost function Expiries(start: int, period: int, now: int): int
    requires 0 < period
  {
    (now - start) / period
  }

  /** Between its n-th and its next expiry, a timer has expired exactly floor((now - start) / period) times. */
  lemma {:induction false} ExpiryCount(start: int, period: int, n: nat, now: int)
    requires 0 < period
    ensures NthExpiry(start, period, n) <= now < NthExpiry(start, period, n + 1) <==> start <= now && n == Expiries(start, period, now)
  {
    NthExpiryIsProduct(start, period, n);
    NthExpiryIsProduct(start, period, n + 1);
    var q := (now - start) / period;
    assert (n + 1) * period == n * period + period;
    if start + n * period <= now < start + n * period + period {
      assert n * period >= 0;
      QuotientUnique(now - start, period, n);
    }
    if n == q {
      assert now - start == q * period + (now - start) % period;
    }
  }

  /**
   * A late start of an auto-reload timer is called back once for each period in
   * what the readings leave of the time since it was issued.  That is as often
   * as it has expired if and only if less than a wrap has passed.
   */
  lemma {:induction false} LateStartIsCountedIff(w: int, period: int, now: int, command: int)
    requires 0 < period < w && command <= now
    ensures Expiries(Issued(w, now, command), period, now) == (now - command) % w / period
    ensures Expiries(Issued(w, now, command), period, now) == Expiries(command, period, now) <==> now - command < w
  {
    var x := now - command;
    var r, q := x % w, x / w;
    assert x == r + q * w;
    Remainder(x, r, q, w);
    if q > 0 {
      ProductMonotone(1, q, w);
      QuotientMonotone(r + period, x, period);
      var k := r / period;
      assert r == k * period + r % period;
      ProductStep(k, period);
      QuotientUnique(r + period, period, k + 1);
    }
  }

  /** In 32 bits, a timer of ten ticks whose start is handled a wrap and ten ticks late is called back once, not 429496730 times. */
  lemma LateStartIsMiscounted()
    ensures
      var w, now, command := 0x1_0000_0000, 0x1_0000_000F, 5;
      Expiries(Issued(w, now, command), 10, now) == 1 && Expiries(command, 10, now) == 429496730
  {
  }

  /** A timer's history on the unbounded clock: when it was started, its callbacks since, and its next expiry. */
  datatype Account = Account(start: int, fired: nat, due: int)

  ghost predicate Exact(a: Account, period: int) {
    && 0 < period
    && a.due == NthExpiry(a.start, period, a.fired + 1)
  }

  /** The account after one more callback. */
  ghost function FiredOnce(a: Account, period: int): Account {
    Account(a.start, a.fired + 1, a.due + period)
  }

  lemma FiredOnceIsExact(a: Account, period: int)
    requires Exact(a, period)
    ensures Exact(FiredOnce(a, period), period)
  {
  }

  type Accounts = map<nat, Account>
  type Timers = map<nat, Timer>

  /** Every account agrees with its timer, and nothing has been called back before its time. */
  ghost predicate Books(w: int, timers: Timers, book: Accounts, now: int) {
    && book.Keys == timers.Keys
    && forall id | id in timers ::
         && 0 < timers[id].period < w
         && Exact(book[id], timers[id].period)
         && book[id].due - timers[id].period <= now
         && (timers[id].active && !timers[id].autoReload ==> book[id].fired == 0)
  }

  /** Every entry of a list, read in the epoch that begins at `base`, is its active timer's next expiry. */
  ghost predicate Listing(w: int, s: seq<Item>, base: int, timers: Timers, book: Accounts) {
    && Sorted(s)
    && forall x | x in s ::
         && 0 <= x.value < w
         && x.owner in timers && timers[x.owner].active
         && x.owner in book && book[x.owner].due == base + x.value
  }

  ghost predicate Disjoint(c: seq<Item>, o: seq<Item>) {
    forall x, y | x in c && y in o :: x.owner != y.owner
  }

  ghost predicate Listed(w: int, c: seq<Item>, o: seq<Item>, base: int, id: nat, book: Accounts) {
    id in book && (Item(id, book[id].due - base) in c || Item(id, book[id].due - base - w) in o)
  }

  /** Every active timer is listed, apart from the ones being worked on. */
  ghost predicate AllListed(w: int, c: seq<Item>, o: seq<Item>, base: int, timers: Timers, book: Accounts, busy: set<nat>) {
    forall id | id in timers && timers[id].active && id !in busy :: Listed(w, c, o, base, id, book)
  }

  /** The lists c and o with the timer filed for the time `due`. */
  function FiledCurrent(w: int, c: seq<Item>, base: int, id: nat, due: int): seq<Item> {
    if due < base + w then Insert(c, Item(id, due - base)) else c
  }

  function FiledOverflow(w: int, o: seq<Item>, base: int, id: nat, due: int): seq<Item> {
    if due < base + w then o else Insert(o, Item(id, due - base - w))
  }

  /** The lists of a daemon: entries true to the accounts, no timer twice, no active timer missing. */
  ghost predicate Lists(w: int, c: seq<Item>, o: seq<Item>, base: int, timers: Timers, book: Accounts, busy: set<nat>) {
    && Listing(w, c, base, timers, book)
    && Listing(w, o, base + w, timers, book)
    && Disjoint(c, o)
    && AllListed(w, c, o, base, timers, book, busy)
  }

  /** Filing an unlisted active timer under a new account keeps the lists true. */
  lemma FilingKeepsLists(w: int, c: seq<Item>, o: seq<Item>, base: int, timers: Timers, book: Accounts, busy: set<nat>, id: nat, a: Account)
    requires Listing(w, c, base, timers, book) && Listing(w, o, base + w, timers, book) && Disjoint(c, o)
    requires Lacks(c, id) && Lacks(o, id) && id in timers && timers[id].active
    requires forall i | i in timers && timers[i].active && i !in busy && i != id :: Listed(w, c, o, base, i, book)
    requires base <= a.due < base + 2 * w
    ensures Lists(w, FiledCurrent(w, c, base, id, a.due), FiledOverflow(w, o, base, id, a.due), base, timers, book[id := a], busy - {id})
  {
    hide Insert;
    var c', o', b := FiledCurrent(w, c, base, id, a.due), FiledOverflow(w, o, base, id, a.due), book[id := a];
    assert Listing(w, c', base, timers, b) && Listing(w, o', base + w, timers, b);
    assert Item(id, a.due - base) in c' || Item(id, a.due - base - w) in o';
    forall i | i in timers && timers[i].active && i !in busy - {id} ensures Listed(w, c', o', base, i, b) {
      if i != id { assert Listed(w, c, o, base, i, book); }
    }
  }

  /** Re-filing the head of the current list under its new account keeps the lists true. */
  lemma RefilingKeepsLists(w: int, c: seq<Item>, o: seq<Item>, base: int, timers: Timers, book: Accounts, busy: set<nat>, a: Account)
    requires c != [] && c[0].owner !in busy && Lists(w, c, o, base, timers, book, busy)
    requires base <= a.due < base + 2 * w
    ensures var id := c[0].owner;
      Lists(w, FiledCurrent(w, c[1..], base, id, a.due), FiledOverflow(w, o, base, id, a.due), base, timers, book[id := a], busy)
  {
    Head(c);
    FilingKeepsLists(w, c[1..], o, base, timers, book, busy, c[0].owner, a);
    assert busy - {c[0].owner} == busy;
  }

  /** Dropping the head of the current list and deactivating its timer keeps the lists true. */
  lemma DroppingKeepsLists(w: int, c: seq<Item>, o: seq<Item>, base: int, timers: Timers, book: Accounts, busy: set<nat>, t: Timer, a: Account)
    requires c != [] && Lists(w, c, o, base, timers, book, busy) && !t.active
    ensures var id := c[0].owner;
      Lists(w, c[1..], o, base, timers[id := t], book[id := a], busy)
  {
    Head(c);
    var id := c[0].owner;
    forall i | i in timers && timers[i].active && i !in busy && i != id ensures Listed(w, c[1..], o, base, i, book[id := a]) {
      assert Listed(w, c, o, base, i, book);
    }
  }

  /** Taking a timer off whichever list it is on leaves the lists true of the others. */
  lemma RemovingKeepsLists(w: int, c: seq<Item>, o: seq<Item>, base: int, timers: Timers, book: Accounts, id: nat)
    requires Lists(w, c, o, base, timers, book, {})
    ensures Lists(w, Remove(c, id), Remove(o, id), base, timers, book, {id})
    ensures Lacks(Remove(c, id), id) && Lacks(Remove(o, id), id)
  {
    hide Remove;
    forall i | i in timers && timers[i].active && i != id ensures Listed(w, Remove(c, id), Remove(o, id), base, i, book) {
      assert Listed(w, c, o, base, i, book);
    }
  }

  /** A timer that is on no list may change its record and account freely while it is being worked on. */
  lemma ListsOfOthers(w: int, c: seq<Item>, o: seq<Item>, base: int, timers: Timers, book: Accounts, id: nat, t: Timer, a: Account)
    requires Lists(w, c, o, base, timers, book, {id}) && Lacks(c, id) && Lacks(o, id)
    ensures Lists(w, c, o, base, timers[id := t], book[id := a], {id})
    ensures !t.active ==> Lists(w, c, o, base, timers[id := t], book[id := a], {})
  {
    forall i | i in timers && timers[i].active && i != id ensures Listed(w, c, o, base, i, book[id := a]) {
      assert Listed(w, c, o, base, i, book);
    }
  }

  /** A timer that is on no list may be forgotten. */
  lemma ListsWithout(w: int, c: seq<Item>, o: seq<Item>, base: int, timers: Timers, book: Accounts, id: nat)
    requires Lists(w, c, o, base, timers, book, {id}) && Lacks(c, id) && Lacks(o, id)
    ensures Lists(w, c, o, base, timers - {id}, book - {id}, {})
  {
    forall i | i in timers && timers[i].active && i != id ensures Listed(w, c, o, base, i, book - {id}) {
      assert Listed(w, c, o, base, i, book);
    }
  }

  /** When the current list is empty, the overflow list is the next epoch's current list. */
  lemma SwitchingKeepsLists(w: int, o: seq<Item>, base: int, timers: Timers, book: Accounts, busy: set<nat>)
    requires Lists(w, [], o, base, timers, book, busy)
    ensures Lists(w, o, [], base + w, timers, book, busy)
  {
    forall i | i in timers && timers[i].active && i !in busy ensures Listed(w, o, [], base + w, i, book) {
      assert Listed(w, [], o, base, i, book);
    }
  }

  lemma HeadIsListed(w: int, c: seq<Item>, o: seq<Item>, base: int, timers: Timers, book: Accounts, busy: set<nat>)
    requires c != [] && Lists(w, c, o, base, timers, book, busy)
    ensures var id := c[0].owner;
      id in timers && timers[id].active && id in book && book[id].due == base + c[0].value && 0 <= c[0].value < w
  {
    assert c[0] in c;
  }

  lemma OverflowIsActive(w: int, c: seq<Item>, o: seq<Item>, base: int, timers: Timers, book: Accounts)
    requires o != [] && Lists(w, c, o, base, timers, book, {})
    ensures o[0].owner in timers && timers[o[0].owner].active
  {
    assert o[0] in o;
  }

  /** No active timer is due before the head of the current list, or before the next epoch if that list is empty. */
  lemma NothingDueBefore(w: int, c: seq<Item>, o: seq<Item>, base: int, timers: Timers, book: Accounts, id: nat)
    requires 0 < w && Lists(w, c, o, base, timers, book, {}) && id in timers && timers[id].active
    ensures id in book
    ensures c != [] ==> base + c[0].value <= book[id].due
    ensures c == [] ==> base + w <= book[id].due
  {
    assert Listed(w, c, o, base, id, book);
    if c != [] {
      Head(c);
      assert c[0] in c;
    }
  }

  /**
   * What serving timers may change: counts go up, an auto-reload timer stays
   * as it is, and a one-shot timer that was called back is no longer active.
   */
  ghost predicate Served(t0: Timers, b0: Accounts, t1: Timers, b1: Accounts) {
    && t1.Keys == t0.Keys && b1.Keys == b0.Keys
    && (forall id | id in t0 ::
         || t1[id] == t0[id]
         || (!t0[id].autoReload && t0[id].active && t1[id] == t0[id].(active := false)))
    && (forall id | id in b0 && id in t0 ::
         && b1[id].start == b0[id].start
         && b1[id].fired >= b0[id].fired
         && (!t0[id].autoReload ==> b1[id].fired == b0[id].fired + if t1[id] == t0[id] then 0 else 1)
         && (!t0[id].active ==> b1[id] == b0[id]))
  }

  /** The records and accounts of these timers are as they were. */
  ghost predicate Untouched(ids: set<nat>, t0: Timers, b0: Accounts, t1: Timers, b1: Accounts) {
    forall id | id in ids && id in t0 && id in b0 :: id in t1 && id in b1 && t1[id] == t0[id] && b1[id] == b0[id]
  }

  /** The record of a timer after its expiry was served: a one-shot timer becomes inactive. */
  function ServedTimer(t: Timer): Timer {
    t.(active := t.autoReload)
  }

  lemma ServedOne(t0: Timers, b0: Accounts, id: nat, a: Account)
    requires id in t0 && id in b0 && t0[id].active && a.start == b0[id].start && b0[id].fired < a.fired
    requires !t0[id].autoReload ==> a.fired == b0[id].fired + 1
    ensures Served(t0, b0, t0[id := ServedTimer(t0[id])], b0[id := a])
  {
  }

  lemma ServedTwice(t0: Timers, b0: Accounts, t1: Timers, b1: Accounts, t2: Timers, b2: Accounts)
    requires Served(t0, b0, t1, b1) && Served(t1, b1, t2, b2)
    ensures Served(t0, b0, t2, b2)
  {
  }

  lemma ServedNothing(t0: Timers, b0: Accounts)
    ensures Served(t0, b0, t0, b0)
  {
  }

  lemma ActiveIsListed(w: int, c: seq<Item>, o: seq<Item>, base: int, timers: Timers, book: Accounts, id: nat)
    requires Lists(w, c, o, base, timers, book, {}) && id in timers && timers[id].active
    ensures c != [] || o != []
  {
    assert Listed(w, c, o, base, id, book);
  }

  /** The values on the current list are all at most the last reading of the epoch. */
  lemma AllDueByEndOfEpoch(w: int, c: seq<Item>, o: seq<Item>, base: int, timers: Timers, book: Accounts, busy: set<nat>)
    requires Lists(w, c, o, base, timers, book, busy)
    ensures DueCount(c, w - 1) == |c|
  {
    assert forall i | 0 <= i < |c| :: c[i] in c;
    PositionUnique(Values(c), w - 1, |c|);
  }

  lemma BooksUpdated(w: int, timers: Timers, book: Accounts, now: int, id: nat, t: Timer, a: Account)
    requires Books(w, timers, book, now)
    requires 0 < t.period < w && Exact(a, t.period) && a.due - t.period <= now
    requires t.active && !t.autoReload ==> a.fired == 0
    ensures Books(w, timers[id := t], book[id := a], now)
  {
  }

  lemma OthersUntouched<T>(m: map<nat, T>, id: nat, v: T)
    ensures m[id := v] - {id} == m - {id}
  {
  }

  lemma FirstExpiryIsExact(a: Account, period: int)
    requires 0 < period && a.fired == 0 && a.due == a.start + period
    ensures Exact(a, period)
    ensures NthExpiry(a.start, period, 0) == a.start && NthExpiry(a.start, period, 1) == a.due
  {
    assert NthExpiry(a.start, period, 0) == a.start;
  }

  lemma LastExpiryBeforeNext(a: Account, period: int)
    requires Exact(a, period)
    ensures NthExpiry(a.start, period, a.fired) == a.due - period && NthExpiry(a.start, period, a.fired + 1) == a.due
  {
  }

  lemma RunningIsListed(w: int, c: seq<Item>, o: seq<Item>, base: int, timers: Timers, book: Accounts, id: nat)
    requires Lists(w, c, o, base, timers, book, {}) && id in timers && timers[id].active
    ensures id in book && (Item(id, book[id].due - base) in c || Item(id, book[id].due - base - w) in o)
  {
    assert Listed(w, c, o, base, id, book);
  }

  lemma CreationKeepsLists(w: int, c: seq<Item>, o: seq<Item>, base: int, timers: Timers, book: Accounts, id: nat, t: Timer, a: Account)
    requires Lists(w, c, o, base, timers, book, {}) && id !in timers && !t.active
    ensures Lists(w, c, o, base, timers[id := t], book[id := a], {})
  {
    forall i | i in timers && timers[i].active ensures Listed(w, c, o, base, i, book[id := a]) {
      assert Listed(w, c, o, base, i, book);
    }
  }

  /** Filing the timer a command worked on completes the lists. */
  lemma RefiledLists(w: int, c: seq<Item>, o: seq<Item>, base: int, timers: Timers, book: Accounts, id: nat, t: Timer, a: Account)
    requires Lists(w, c, o, base, timers, book, {id}) && Lacks(c, id) && Lacks(o, id)
    requires t.active && base <= a.due < base + 2 * w
    ensures Lists(w, FiledCurrent(w, c, base, id, a.due), FiledOverflow(w, o, base, id, a.due), base, timers[id := t], book[id := a], {})
  {
    ListsOfOthers(w, c, o, base, timers, book, id, t, a);
    FilingKeepsLists(w, c, o, base, timers[id := t], book[id := a], {id}, id, a);
    assert book[id := a][id := a] == book[id := a];
    assert {id} - {id} == {};
  }

  lemma ServedOthers(t0: Timers, b0: Accounts, t1: Timers, b1: Accounts, id: nat)
    requires Served(t0, b0, t1, b1)
    ensures Served(t0 - {id}, b0 - {id}, t1 - {id}, b1 - {id})
    ensures id in t0 ==> id in t1 && t1[id] == t0[id].(active := t1[id].active)
  {
  }

  class Daemon {
    const w: int                // number of tick readings
    var timers: Timers
    var current: seq<Item>      // pxCurrentTimerList
    var overflow: seq<Item>     // pxOverflowTimerList
    var lastTime: int           // xLastTime of prvSampleTimeNow

    // The unbounded clock: when the epoch of `lastTime` began, and the time served so far.
    ghost var epoch: int
    ghost var now: int
    ghost var book: Accounts
    // The timer a command is being applied to, if any.
    ghost var busy: set<nat>

    /**
     * Every stored expiry is start + (callbacks + 1) * period on the unbounded
     * clock: this epoch's in the current list, the next epoch's in the other;
     * and every active timer is stored.
     */
    ghost predicate Consistent()
      reads this
    {
      && 1 < w && 0 <= lastTime < w && epoch <= now < epoch + w
      && book.Keys == timers.Keys && Books(w, timers, book, now)
      && Lists(w, current, overflow, epoch, timers, book, busy)
      && forall id | id in busy :: Lacks(current, id) && Lacks(overflow, id)
    }

    ghost predicate Valid()
      reads this
    {
      Consistent() && now == epoch + lastTime && busy == {}
    }

    constructor (w: int)
      requires 1 < w
      ensures Valid() && timers == map[] && epoch == 0 && lastTime == 0 && this.w == w
    {
      this.w := w;
      timers, book := map[], map[];
      current, overflow := [], [];
      lastTime, epoch, now := 0, 0, 0;
      busy := {};
    }

    /** The timer's callback; its body is the application's. */
    ghost method Callback(id: nat)
      requires id in timers && id in book
      modifies `book
      ensures book == old(book)[id := FiredOnce(old(book)[id], timers[id].period)]
    {
      book := book[id := FiredOnce(book[id], timers[id].period)];
    }

    /**
     * prvInsertTimerInActiveList: `command` is the unbounded time whose reading
     * is `commandTime`.
     */
    method InsertTimerInActiveList(id: nat, nextExpiry: int, timeNow: int, commandTime: int, ghost command: int)
      returns (processNow: bool)
      requires id in timers && 0 < timers[id].period < w && epoch <= now < epoch + w
      requires timeNow == now - epoch && now - w < command <= now
      requires commandTime == TickOf(w, epoch, command)
      requires nextExpiry == Wrap(commandTime + timers[id].period, w)
      modifies `current, `overflow
      ensures var due := command + timers[id].period;
        && (processNow <==> due <= now)
        && current == (if processNow then old(current) else FiledCurrent(w, old(current), epoch, id, due))
        && overflow == (if processNow then old(overflow) else FiledOverflow(w, old(overflow), epoch, id, due))
    {
      PlacementIsExact(w, epoch, timers[id].period, now, command);
      processNow := false;
      if nextExpiry <= timeNow {
        if Elapsed(w, timeNow, commandTime) >= timers[id].period {
          processNow := true;
        } else {
          overflow := Insert(overflow, Item(id, nextExpiry));
        }
      } else {
        if timeNow < commandTime && nextExpiry >= commandTime {
          processNow := true;
        } else {
          current := Insert(current, Item(id, nextExpiry));
        }
      }
    }

    /**
     * prvReloadTimer: `expired` reads the expiry being processed, which the
     * caller calls back last.  Every later expiry up to now is called back
     * here, and the timer is filed for its first expiry still to come.
     */
    method ReloadTimer(id: nat, expired: int, timeNow: int) returns (ghost a: Account)
      requires id in timers && 0 < timers[id].period < w && epoch <= now < epoch + w
      requires id in book && Exact(book[id], timers[id].period)
      requires timeNow == now - epoch && now - w < book[id].due <= now
      requires expired == TickOf(w, epoch, book[id].due)
      modifies `current, `overflow, `book
      ensures book == old(book)[id := a] && a.start == old(book[id].start) && a.fired >= old(book[id].fired)
      ensures Exact(a, timers[id].period)
      ensures a.due <= now < a.due + timers[id].period
      ensures current == FiledCurrent(w, old(current), epoch, id, a.due + timers[id].period)
      ensures overflow == FiledOverflow(w, old(overflow), epoch, id, a.due + timers[id].period)
    {
      hide Insert, Remove;
      var period := timers[id].period;
      var time := expired;
      a := book[id];
      assert book == book[id := a];
      var again := InsertTimerInActiveList(id, Wrap(time + period, w), timeNow, time, a.due);
      while again
        invariant book == old(book)[id := a] && a.start == old(book[id].start) && a.fired >= old(book[id].fired)
        invariant Exact(a, period)
        invariant now - w < a.due <= now && time == TickOf(w, epoch, a.due)
        invariant again <==> a.due + period <= now
        invariant current == if again then old(current) else FiledCurrent(w, old(current), epoch, id, a.due + period)
        invariant overflow == if again then old(overflow) else FiledOverflow(w, old(overflow), epoch, id, a.due + period)
        decreases now - a.due, again
      {
        time := Wrap(time + period, w);
        Callback(id);
        a := FiredOnce(a, period);
        again := InsertTimerInActiveList(id, Wrap(time + period, w), timeNow, time, a.due);
      }
    }

    /**
     * prvProcessExpiredTimer: takes the head of the current list, replays what
     * an auto-reload timer missed, and calls the timer back.
     */
    method ProcessExpiredTimer(nextExpireTime: int, timeNow: int) returns (ghost a: Account)
      requires Consistent()
      requires current != [] && current[0].value == nextExpireTime <= timeNow == now - epoch
      modifies `current, `overflow, `book, `timers
      ensures Consistent() && Served(old(timers), old(book), timers, book)
      ensures var id := old(current)[0].owner;
        && id in old(timers) && book == old(book)[id := a]
        && timers == old(timers)[id := ServedTimer(old(timers)[id])]
        && (timers[id].autoReload ==> 0 < timers[id].period && a.fired == Expiries(a.start, timers[id].period, now))
      ensures DueCount(current, timeNow) == DueCount(old(current), timeNow) - 1
    {
      hide Insert, Remove, NthExpiry, Listing, AllListed, Disjoint, DueCount, Served, Expiries;
      HeadIsListed(w, current, overflow, epoch, timers, book, busy);
      var id := current[0].owner;
      ghost var c := current;
      current := current[1..];
      HeadIsCounted(c, timeNow);
      if timers[id].autoReload {
        a := ReloadTimer(id, nextExpireTime, timeNow);
        Callback(id);
        FiredOnceIsExact(a, timers[id].period);
        a := FiredOnce(a, timers[id].period);
        ExpiryCount(a.start, timers[id].period, a.fired, now);
        assert book == old(book)[id := a];
        assert timers == old(timers)[id := ServedTimer(old(timers)[id])];
        RefilingKeepsLists(w, c, old(overflow), epoch, timers, old(book), busy, a);
        LaterIsNotCounted(c[1..], Item(id, a.due - epoch), timeNow);
      } else {
        timers := timers[id := timers[id].(active := false)];
        Callback(id);
        FiredOnceIsExact(old(book)[id], timers[id].period);
        a := FiredOnce(old(book)[id], timers[id].period);
        DroppingKeepsLists(w, c, overflow, epoch, old(timers), old(book), busy, timers[id], a);
      }
      ServedOne(old(timers), old(book), id, a);
    }

    /**
     * prvSwitchTimerLists: everything still on the current list has expired by
     * the last tick of its epoch; process it, then swap the lists.
     */
    method SwitchTimerLists()
      requires Consistent()
      modifies `current, `overflow, `book, `timers, `epoch, `now
      ensures Consistent() && Served(old(timers), old(book), timers, book) && Untouched(busy, old(timers), old(book), timers, book)
      ensures overflow == [] && epoch == now == old(epoch) + w
    {
      hide Insert, Remove, NthExpiry, Listing, AllListed, Disjoint, Served;
      now := epoch + w - 1;
      AllDueByEndOfEpoch(w, current, overflow, epoch, timers, book, busy);
      ServedNothing(timers, book);
      while current != []
        invariant Consistent() && now == epoch + w - 1 && epoch == old(epoch)
        invariant Served(old(timers), old(book), timers, book) && Untouched(busy, old(timers), old(book), timers, book)
        invariant DueCount(current, w - 1) == |current|
        decreases |current|
      {
        ghost var t1, b1 := timers, book;
        HeadIsListed(w, current, overflow, epoch, timers, book, busy);
        var nextExpireTime := current[0].value;
        ghost var a := ProcessExpiredTimer(nextExpireTime, w - 1);
        ServedTwice(old(timers), old(book), t1, b1, timers, book);
        AllDueByEndOfEpoch(w, current, overflow, epoch, timers, book, busy);
      }
      SwitchingKeepsLists(w, overflow, epoch, timers, book, busy);
      current, overflow := overflow, current;
      epoch, now := epoch + w, epoch + w;
    }

    /**
     * prvSampleTimeNow.  The daemon takes the reading for the next time that has
     * it; Arithmetic.SampleIsRightIff says when that is the present time.
     */
    method SampleTimeNow(tick: int) returns (timeNow: int, switched: bool)
      requires Consistent() && now == epoch + lastTime && 0 <= tick < w
      modifies `current, `overflow, `book, `timers, `epoch, `now, `lastTime
      ensures Consistent() && now == epoch + lastTime && timeNow == lastTime == tick
      ensures old(now) <= now < old(now) + w
      ensures Served(old(timers), old(book), timers, book) && Untouched(busy, old(timers), old(book), timers, book)
      ensures switched <==> old(epoch) + w <= now
      ensures switched ==> epoch == old(epoch) + w
      ensures !switched ==> current == old(current) && overflow == old(overflow) && timers == old(timers) && book == old(book) && epoch == old(epoch)
    {
      hide Lists, Served;
      timeNow := tick;
      if timeNow < lastTime {
        SwitchTimerLists();
        switched := true;
      } else {
        switched := false;
        ServedNothing(timers, book);
      }
      lastTime := timeNow;
      now := epoch + timeNow;
    }

    /**
     * prvProcessTimerOrBlockTask: serves the head of the current list if it is
     * due, and otherwise blocks until the next expiry or the next wrap.
     */
    method ProcessTimerOrBlockTask(nextExpireTime: int, listWasEmpty: bool, tick: int)
      returns (blocked: bool, ticks: int, indefinitely: bool)
      requires Valid()
      requires listWasEmpty == (current == []) && nextExpireTime == (if listWasEmpty then 0 else current[0].value)
      requires 0 <= tick < w
      modifies `current, `overflow, `book, `timers, `epoch, `now, `lastTime
      ensures Valid() && lastTime == tick && old(now) <= now < old(now) + w && (epoch == old(epoch) || epoch == old(epoch) + w)
      ensures Served(old(timers), old(book), timers, book)
      ensures !blocked && epoch == old(epoch) ==> DueCount(current, tick) < DueCount(old(current), tick)
      ensures !blocked || epoch == old(epoch)
      ensures blocked ==> forall id | id in timers && timers[id].active :: id in book && now < book[id].due && now + ticks <= book[id].due
      ensures blocked && current != [] ==> exists id | id in timers && id in book :: timers[id].active && now + ticks == book[id].due
      ensures blocked ==> (indefinitely <==> forall id | id in timers :: !timers[id].active)
      ensures blocked && current == [] ==> ticks == if tick == 0 then 0 else w - tick
      ensures blocked ==> 0 <= ticks < w && (ticks == 0 ==> tick == 0 && current == [])
    {
      hide Insert, Remove, NthExpiry, Listing, AllListed, Disjoint, Served, DueCount;
      var timeNow, switched := SampleTimeNow(tick);
      blocked, ticks, indefinitely := false, 0, false;
      if !switched {
        if !listWasEmpty && nextExpireTime <= timeNow {
          ghost var a := ProcessExpiredTimer(nextExpireTime, timeNow);
          assert busy == {};
        } else {
          if listWasEmpty {
            indefinitely := overflow == [];
          }
          blocked := true;
          ticks := Elapsed(w, nextExpireTime, timeNow);
          forall id | id in timers && timers[id].active
            ensures id in book && now < book[id].due && now + ticks <= book[id].due && !indefinitely
          {
            NothingDueBefore(w, current, overflow, epoch, timers, book, id);
            ActiveIsListed(w, current, overflow, epoch, timers, book, id);
          }
          if current != [] {
            HeadIsListed(w, current, overflow, epoch, timers, book, busy);
          } else if overflow != [] {
            OverflowIsActive(w, current, overflow, epoch, timers, book);
          }
        }
      }
    }

    /** xTimerCreate: a new timer is inactive and on no list. */
    method CreateTimer(id: nat, period: int, autoReload: bool, isStatic: bool)
      requires Valid() && id !in timers && 0 < period < w
      modifies `timers, `book
      ensures Valid() && timers == old(timers)[id := Timer(period, autoReload, false, isStatic)]
      ensures id in book && book == old(book)[id := book[id]]
    {
      timers := timers[id := Timer(period, autoReload, false, isStatic)];
      book := book[id := Account(now - period, 0, now)];
      FirstExpiryIsExact(book[id], period);
      CreationKeepsLists(w, current, overflow, epoch, old(timers), old(book), id, timers[id], book[id]);
    }

    /** The start branch of the command switch: files the timer, or replays it if it has already expired. */
    method StartOrReplay(id: nat, commandTime: int, timeNow: int, ghost command: int) returns (ghost a: Account)
      requires id in timers && id in book && 0 < timers[id].period < w && epoch <= now < epoch + w
      requires timeNow == now - epoch && now - w < command <= now && commandTime == TickOf(w, epoch, command)
      modifies `current, `overflow, `book, `timers
      ensures var t := old(timers)[id];
        && timers == old(timers)[id := t.(active := t.autoReload || now < command + t.period)]
        && book == old(book)[id := a]
        && current == (if timers[id].active then FiledCurrent(w, old(current), epoch, id, a.due) else old(current))
        && overflow == (if timers[id].active then FiledOverflow(w, old(overflow), epoch, id, a.due) else old(overflow))
        && Exact(a, t.period) && a.start == command && a.due - t.period <= now && now - w < a.due
        && (timers[id].active ==> now < a.due)
        && a.fired == if t.autoReload then Expiries(command, t.period, now) else if command + t.period <= now then 1 else 0
    {
      hide Insert, NthExpiry, Exact, FiledCurrent, FiledOverflow, Expiries;
      timers := timers[id := timers[id].(active := true)];
      var period := timers[id].period;
      a := Account(command, 0, command + period);
      book := book[id := a];
      FirstExpiryIsExact(a, period);
      ExpiryCount(command, period, 0, now);
      var processNow := InsertTimerInActiveList(id, Wrap(commandTime + period, w), timeNow, commandTime, command);
      if processNow {
        if timers[id].autoReload {
          a := ReloadTimer(id, Wrap(commandTime + period, w), timeNow);
        } else {
          timers := timers[id := timers[id].(active := false)];
        }
        Callback(id);
        FiredOnceIsExact(a, period);
        a := FiredOnce(a, period);
        LastExpiryBeforeNext(a, period);
        ExpiryCount(command, period, a.fired, now);
      }
    }

    /**
     * The start and reset commands: the timer counts from the unbounded time
     * `command` at which the command was issued, however late within a wrap it
     * is handled; expiries that have passed since are called back here.
     */
    method ApplyStart(id: nat, commandTime: int, timeNow: int, ghost command: int)
      requires Consistent() && busy == {id} && id in timers && now == epoch + lastTime
      requires timeNow == now - epoch && now - w < command <= now && commandTime == TickOf(w, epoch, command)
      modifies `current, `overflow, `book, `timers, `busy
      ensures Valid()
      ensures var t := old(timers)[id]; timers == old(timers)[id := t.(active := t.autoReload || now < command + t.period)]
      ensures id in book && id in timers && book == old(book)[id := book[id]]
      ensures var t, a := timers[id], book[id];
        && a.start == command && 0 < t.period && a.due == a.start + (a.fired + 1) * t.period
        && a.fired == if t.autoReload then Expiries(command, t.period, now) else if command + t.period <= now then 1 else 0
    {
      hide Insert, Remove, NthExpiry, Lists, FiledCurrent, FiledOverflow, Expiries;
      ghost var t0, b0, c, o := timers, book, current, overflow;
      ghost var a := StartOrReplay(id, commandTime, timeNow, command);
      ghost var timer := timers[id];
      BooksUpdated(w, t0, b0, now, id, timer, a);
      ListsOfOthers(w, c, o, epoch, t0, b0, id, timer, a);
      if timer.active {
        RefiledLists(w, c, o, epoch, t0, b0, id, timer, a);
      }
      NthExpiryIsProduct(a.start, timer.period, a.fired + 1);
      busy := {};
    }

    /** The stop command: the timer is already off its list. */
    method ApplyStop(id: nat)
      requires Consistent() && busy == {id} && id in timers && now == epoch + lastTime
      modifies `timers, `busy
      ensures Valid() && timers == old(timers)[id := old(timers)[id].(active := false)]
    {
      hide Insert, Remove, NthExpiry, Lists;
      ghost var stopped := timers[id].(active := false);
      assert book == book[id := book[id]];
      BooksUpdated(w, timers, book, now, id, stopped, book[id]);
      ListsOfOthers(w, current, overflow, epoch, timers, book, id, stopped, book[id]);
      timers := timers[id := timers[id].(active := false)];
      busy := {};
    }

    /** The delete command: a timer in static memory is stopped, and any other is freed. */
    method ApplyDelete(id: nat)
      requires Consistent() && busy == {id} && id in timers && now == epoch + lastTime
      modifies `timers, `book, `busy
      ensures Valid() && book == if old(timers)[id].isStatic then old(book) else old(book) - {id}
      ensures timers == if old(timers)[id].isStatic then old(timers)[id := old(timers)[id].(active := false)] else old(timers) - {id}
    {
      hide Insert, Remove, NthExpiry, Lists;
      if timers[id].isStatic {
        ApplyStop(id);
      } else {
        ListsWithout(w, current, overflow, epoch, timers, book, id);
        timers, book := timers - {id}, book - {id};
        busy := {};
      }
    }

    /** The period-change command: restarts the timer from now with the new period, so it cannot be due. */
    method ApplyChangePeriod(id: nat, period: int, timeNow: int)
      requires Consistent() && busy == {id} && id in timers && now == epoch + lastTime
      requires timeNow == now - epoch && 0 < period < w
      modifies `current, `overflow, `book, `timers, `busy
      ensures Valid()
      ensures timers == old(timers)[id := old(timers)[id].(active := true, period := period)]
      ensures book == old(book)[id := Account(now, 0, now + period)]
    {
      hide Insert, Remove, NthExpiry, Lists;
      ghost var t0, b0, c, o := timers, book, current, overflow;
      timers := timers[id := timers[id].(active := true, period := period)];
      ghost var a := Account(now, 0, now + period);
      book := book[id := a];
      FirstExpiryIsExact(a, period);
      var processNow := InsertTimerInActiveList(id, Wrap(timeNow + period, w), timeNow, timeNow, now);
      BooksUpdated(w, t0, b0, now, id, timers[id], a);
      RefiledLists(w, c, o, epoch, t0, b0, id, timers[id], a);
      busy := {};
    }

    /**
     * One command of prvProcessReceivedCommands: the timer is taken off its
     * list, the time is sampled, and the command is applied at that time.  A
     * start is counted from when the daemon takes it to have been issued.
     */
    method ProcessReceivedCommand(cmd: Command, tick: int, ghost command: int)
      requires Valid() && cmd.id in timers && 0 <= tick < w
      requires cmd.Start? ==> cmd.commandTime == ReadingOf(w, epoch, command)
      requires cmd.ChangePeriod? ==> 0 < cmd.period < w
      modifies `current, `overflow, `book, `timers, `epoch, `now, `lastTime, `busy
      ensures Valid() && lastTime == tick && old(now) <= now < old(now) + w && (epoch == old(epoch) || epoch == old(epoch) + w)
      ensures Served(old(timers) - {cmd.id}, old(book) - {cmd.id}, timers - {cmd.id}, book - {cmd.id})
      ensures cmd.id in timers <==> !cmd.Delete? || old(timers[cmd.id].isStatic)
      ensures cmd.id in book <==> cmd.id in timers
      ensures cmd.id in timers && (cmd.Stop? || cmd.Delete?) ==>
        timers[cmd.id] == old(timers[cmd.id]).(active := false) && cmd.id in old(book) && book[cmd.id] == old(book)[cmd.id]
      ensures cmd.ChangePeriod? ==>
        timers[cmd.id] == old(timers[cmd.id]).(active := true, period := cmd.period) && book[cmd.id] == Account(now, 0, now + cmd.period)
      ensures cmd.Start? ==>
        var timer, a := timers[cmd.id], book[cmd.id];
        && 0 < timer.period && a.start == Issued(w, now, command) && a.due == a.start + (a.fired + 1) * timer.period
        && timer == old(timers[cmd.id]).(active := timer.autoReload || now < a.start + timer.period)
        && a.fired == if timer.autoReload then Expiries(a.start, timer.period, now) else if a.start + timer.period <= now then 1 else 0
    {
      hide Insert, Remove, NthExpiry, Lists, Books, Served, Expiries, ReadingOf, Issued;
      var id := cmd.id;
      RemovingKeepsLists(w, current, overflow, epoch, timers, book, id);
      current, overflow, busy := Remove(current, id), Remove(overflow, id), {id};
      var timeNow, switched := SampleTimeNow(tick);
      ServedOthers(old(timers), old(book), timers, book, id);
      assert id in old(book) && timers[id] == old(timers[id]) && book[id] == old(book)[id];
      ghost var t1, b1 := timers, book;
      match cmd {
        case Start(_, commandTime) =>
          ReadingAfterWrap(w, old(epoch), command);
          TimeSince(w, epoch, now, command);
          ApplyStart(id, commandTime, timeNow, Issued(w, now, command));
        case Stop(_) =>
          ApplyStop(id);
        case ChangePeriod(_, period) =>
          ApplyChangePeriod(id, period, timeNow);
        case Delete(_) =>
          ApplyDelete(id);
      }
      if id in timers {
        OthersUntouched(t1, id, timers[id]);
        OthersUntouched(b1, id, book[id]);
      } else {
        assert timers - {id} == t1 - {id} && book - {id} == b1 - {id};
      }
    }

    /** All expiries of the timer up to t have been called back, and the next one is stored, exact to the tick. */
    ghost predicate ServedExactly(id: nat, t: int)
      reads this
      requires id in timers && id in book
    {
      var p, a := timers[id].period, book[id];
      && 0 < p && t < a.due
      && a.due == a.start + (a.fired + 1) * p
      && a.fired == (t - a.start) / p
      && (Item(id, a.due - epoch) in current || Item(id, a.due - epoch - w) in overflow)
    }

    /**
     * The daemon's iterations at one moment, when no command is waiting: it
     * serves until it blocks.  Then every auto-reload timer that is running has
     * been called back exactly floor((t - start) / period) times since its
     * start, and stores its next expiry, exact to the tick.
     */
    method ServeUntilBlocked(tick: int)
      requires Valid() && 0 <= tick < w
      modifies `current, `overflow, `book, `timers, `epoch, `now, `lastTime
      ensures Valid() && lastTime == tick && old(now) <= now < old(now) + w
      ensures Served(old(timers), old(book), timers, book)
      ensures forall id | id in timers && timers[id].active :: id in book && ServedExactly(id, now)
    {
      hide Insert, Remove, NthExpiry, Listing, AllListed, Disjoint, Served, DueCount;
      var blocked := false;
      ServedNothing(timers, book);
      while !blocked
        invariant Valid() && (epoch == old(epoch) || epoch == old(epoch) + w)
        invariant Served(old(timers), old(book), timers, book)
        invariant (now == old(now) && epoch == old(epoch)) || (lastTime == tick && old(now) <= now < old(now) + w)
        invariant blocked ==> lastTime == tick && forall id | id in timers && timers[id].active :: id in book && now < book[id].due
        decreases if blocked then 0 else 1, old(epoch) + w - epoch, DueCount(current, tick)
      {
        ghost var t1, b1 := timers, book;
        var listWasEmpty := current == [];
        var nextExpireTime := if listWasEmpty then 0 else current[0].value;
        var ticks, indefinitely;
        blocked, ticks, indefinitely := ProcessTimerOrBlockTask(nextExpireTime, listWasEmpty, tick);
        ServedTwice(old(timers), old(book), t1, b1, timers, book);
      }
      NobodyDueIsServedExactly();
    }

    lemma NobodyDueIsServedExactly()
      requires Valid()
      requires forall id | id in timers && timers[id].active :: id in book && now < book[id].due
      ensures forall id | id in timers && timers[id].active :: id in book && ServedExactly(id, now)
    {
      hide Insert, Remove, NthExpiry, Listing, AllListed, Disjoint;
      forall id | id in timers && timers[id].active
        ensures id in book && ServedExactly(id, now)
      {
        var p, a := timers[id].period, book[id];
        RunningIsListed(w, current, overflow, epoch, timers, book, id);
        LastExpiryBeforeNext(a, p);
        ExpiryCount(a.start, p, a.fired, now);
        NthExpiryIsProduct(a.start, p, a.fired + 1);
      }
    }

    /**
     * The daemon's iterations while time goes on: each round samples the tick
     * afresh, at any later time.  Whenever it blocks, everything is exact at the
     * moment it takes for the present one; and that is the moment of the last
     * sample if and only if no two samples are a wrap or more apart.
     */
    method ServeWhileTimePasses(ticks: seq<int>, ghost times: seq<int>) returns (rounds: nat, blocked: bool)
      requires Valid() && |ticks| == |times|
      requires forall i | 0 <= i < |times| :: Before(now, times, i) <= times[i] && ticks[i] == ReadingOf(w, epoch, times[i])
      modifies `current, `overflow, `book, `timers, `epoch, `now, `lastTime
      ensures Valid() && Served(old(timers), old(book), timers, book)
      ensures rounds <= |times| && (!blocked ==> rounds == |times|)
      ensures now == Before(old(now), times, rounds) <==> Close(w, old(now), times, rounds)
      ensures blocked ==> rounds > 0 && forall id | id in timers && timers[id].active :: id in book && ServedExactly(id, now)
    {
      hide Lists, Books, Served, DueCount, ReadingOf, Close;
      rounds, blocked := 0, false;
      ghost var wraps, lag := 0, 0;
      CloseOneMore(w, now, times, 0);
      ServedNothing(timers, book);
      while !blocked && rounds < |ticks|
        invariant Valid() && rounds <= |times| && epoch == old(epoch) + wraps * w
        invariant Served(old(timers), old(book), timers, book)
        invariant 0 <= lag && Before(old(now), times, rounds) == now + lag * w
        invariant lag == 0 <==> Close(w, old(now), times, rounds)
        invariant blocked ==> rounds > 0 && forall id | id in timers && timers[id].active :: id in book && now < book[id].due
        decreases |ticks| - rounds, !blocked
      {
        ghost var t, t1, b1, e1, n1 := times[rounds], timers, book, epoch, now;
        ReadingInRange(w, old(epoch), t);
        var listWasEmpty := current == [];
        var nextExpireTime := if listWasEmpty then 0 else current[0].value;
        var wait, indefinitely;
        blocked, wait, indefinitely := ProcessTimerOrBlockTask(nextExpireTime, listWasEmpty, ticks[rounds]);
        ServedTwice(old(timers), old(book), t1, b1, timers, book);
        if epoch != e1 { ProductStep(wraps, w); wraps := wraps + 1; }
        ReadingInEpoch(w, old(epoch), epoch, wraps, now);
        CloseOneMore(w, old(now), times, rounds);
        lag := SampleIsRightIff(w, old(epoch), n1, now, Before(old(now), times, rounds), t, lag);
        rounds := rounds + 1;
      }
      if blocked { NobodyDueIsServedExactly(); }
      if lag > 0 { ProductMonotone(1, lag, w); }
    }
  }

  /**
   * A timer that is stopped and then started has the period it had before: as
   * far as it runs on, its next expiry is a multiple of that period after the start.
   */
  method StopThenStart(d: Daemon, id: nat, stopTick: int, startTick: int, commandTime: int, ghost command: int)
    requires d.Valid() && id in d.timers && 0 <= stopTick < d.w && 0 <= startTick < d.w
    requires commandTime == ReadingOf(d.w, d.epoch, command)
    modifies d
    ensures d.Valid() && id in d.timers && id in d.book
    ensures d.timers[id] == old(d.timers[id]).(active := d.timers[id].active)
    ensures
      var timer, a := old(d.timers[id]), d.book[id];
      && 0 < d.w && 0 < timer.period && a.start == Issued(d.w, d.now, command) && a.due == a.start + (a.fired + 1) * timer.period
      && d.timers[id].active == (timer.autoReload || d.now < a.start + timer.period)
      && a.fired == if timer.autoReload then Expiries(a.start, timer.period, d.now) else if a.start + timer.period <= d.now then 1 else 0
  {
    hide *;
    ghost var e := d.epoch;
    d.ProcessReceivedCommand(Stop(id), stopTick, 0);
    ReadingAfterWrap(d.w, e, command);
    d.ProcessReceivedCommand(Start(id, commandTime), startTick, command);
  }

  /** The time before the i-th of these. */
  function Before(from: int, times: seq<int>, i: nat): int
    requires i <= |times|
  {
    if i == 0 then from else times[i - 1]
  }

  /** Each of the first n times is less than a wrap after the one before. */
  ghost predicate Close(w: int, from: int, times: seq<int>, n: nat)
    requires n <= |times|
  {
    forall i | 0 <= i < n :: times[i] < Before(from, times, i) + w
  }

  lemma CloseOneMore(w: int, from: int, times: seq<int>, n: nat)
    requires n <= |times|
    ensures Close(w, from, times, 0)
    ensures n < |times| ==> (Close(w, from, times, n + 1) <==> Close(w, from, times, n) && times[n] < Before(from, times, n) + w)
  {
  }

  /** How many entries of a list have a value up to v; in a sorted list they are its first ones. */
  function DueCount(s: seq<Item>, v: int): nat {
    Position(Values(s), v)
  }

  lemma HeadIsCounted(s: seq<Item>, v: int)
    requires s != [] && s[0].value <= v
    ensures DueCount(s[1..], v) == DueCount(s, v) - 1
  {
    assert Values(s)[1..] == Values(s[1..]);
  }

  lemma LaterIsNotCounted(s: seq<Item>, it: Item, v: int)
    requires v < it.value
    ensures DueCount(Insert(s, it), v) == DueCount(s, v)
  {
    var k, n := Position(Values(s), it.value), DueCount(s, v);
    PositionUnique(Values(Insert(s, it)), v, n);
  }
}
