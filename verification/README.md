# Verified models of the SCU firmware's kernel and shared-memory core

The control system's LM32 firmware vendors the FreeRTOS kernel and shares its
RAM with a Linux host.  This project models the parts of both that rest on
wrap-around arithmetic, in-place linked structures or interleavings, and proves
that each of them refines a simple description: an unbounded clock, a
mathematical double-ended queue, a map of disjoint blocks.

`dafny verify dfyconfig.toml` checks everything (Dafny 4.11).

## How the modules hang together

- `KernelList.dfy` is the doubly linked circular list of `list.c` on the heap,
  with the sentinel and the roving index.  Its results justify that the other
  kernel modules treat a list as the sequence of `SortedItems.dfy`: its insertion
  and removal are proved to be the ones defined there.  `Sequences.dfy`,
  `Arithmetic.dfy` and `BitSets.dfy` hold what several modules share.
- `DelayLists.dfy` says what delays mean on an unbounded clock and how the two
  delay lists encode that.  `Kernel.dfy` is the tick, delay, suspension,
  selection and priority code of `tasks.c` on concrete fields; `epoch`, the time
  of the last wrap, and `history`, the events so far, are ghosts that `Valid`
  ties to those fields.  The number of tick readings `w` is a parameter, so every
  result holds for 16-bit and 32-bit ticks alike.
  `TimeOuts.dfy` reads the same clock from the overflow count and the tick
  count, and `CoRoutines.dfy` runs one like it.
- `Timers.dfy` is the timer daemon.  Ghost accounts record when each timer was
  started and how often it was called back.
- `Queue.dfy` is the queue on its byte buffer.  `QueueProtocol.dfy` describes
  what its critical sections do to counts, waiting lists and lock counters, and
  `QueueRuns.dfy` interleaves the steps of sends, receives, peeks, timeouts and
  interrupts in any order.  `PriorityInheritance.dfy` does the same for mutexes.
- `EventGroups.dfy` is the event group with its packed request words, specified
  on sets of bits;
  `Barrier.dfy` interleaves the steps of `xEventGroupSync`.
- `Rings.dfy` describes sequences in a circular buffer.  `Framing.dfy`,
  `StreamBuffer.dfy` and `StreamRuns.dfy` are stream and message buffers: the
  byte format, the buffer, and one writer interleaved with one reader.
- `PartitionList.dfy` is the allocator of the shared memory, on an array of
  64-bit words.
- `RingIndexes.dfy` and `Handshake.dfy` are the shared ring's indexes and the
  acknowledgements between server and client.

Where a method models a whole C function, its contract speaks about the
unbounded or mathematical view; invariants called `Valid` tie the fields to it.
Critical sections of the kernel are single steps; between them any other task
or interrupt may run.

## Main results

- A delayed task wakes at exactly its tick, through wraps, suspension and replay:
  `Kernel.BlockedTaskWakesOnTime`, `Kernel.Kernel.DeliveredTicks`.
- A timeout is reported at the original deadline: `TimeOuts.TimeOut.WaitLoop`.
- Timers are called back exactly as often as they expire and do not drift:
  `Timers.Daemon.ServeUntilBlocked`, `Timers.Daemon.ServeWhileTimePasses`.
- Co-routines catch up with every missed tick and wake on time, whatever interrupts
  do meanwhile: `CoRoutines.Scheduler.CheckDelayedList`, `CoRoutines.CoRoutineWakesOnTime`.
- The kernel list stays one cycle, sorted and fair: `KernelList.List.Insert`,
  `KernelList.WalkVisitsEachOnce`.
- A queue's bytes are a double-ended queue, and no interleaving loses a wake-up:
  `Queue.Queue.CopyDataToQueue`, `QueueRuns.NoLostWakeUp`,
  `QueueRuns.SafeIffCountersSuffice`, `QueueRuns.WaitingIsJustified`.
- Holders of mutexes keep what they inherit: `PriorityInheritance.InheritanceIsHonoured`.
- Setting event bits wakes exactly the satisfied: `EventGroups.EventGroup.SetBits`.
- The barrier holds over any number of rounds and never deadlocks:
  `Barrier.NobodyReturnsEarly`, `Barrier.SomebodyCanMove`.
- Bytes and messages pass through a stream buffer whole and in order:
  `StreamRuns.RunConserves`, `StreamRuns.EachReceiveGivesTheOldest`.
- Shared memory blocks are disjoint and for ever: `PartitionList.PartitionList.Alloc`,
  `PartitionList.GrantsAreForEver`.
- The shared ring counts right, and client and server lose nothing:
  `RingIndexes.AddGrowsIff`, `RingIndexes.AddShrinksIff`, `Handshake.SafeIffReadsAreSmaller`.

## Where the code does not keep what it promises

Each of these has an input that fails and the exact condition under which the
code is right.

- `xTaskCheckForTimeOut` misjudges a wait when two wraps have passed since the
  entry and the reading looks like less than one (`TimeOuts.CheckIsExact`,
  `TimeOuts.TwoWrapsAreMissed`).
- A one-shot timer whose start is handled a wrap or more late may be filed for
  later although it is long due (`Timers.PlacementOfLateCommand`,
  `Timers.LateCommandIsMisplaced`), and an auto-reload timer is then always called
  back too seldom (`Timers.LateStartIsCountedIff`, `Timers.LateStartIsMiscounted`).
- The timer daemon and the co-routine scheduler see only readings of the clock.
  When they sample it a wrap or more apart, they lose whole wraps and never catch
  up (`Arithmetic.SampleIsRightIff`, `Arithmetic.ReadingAfterWrap`,
  `Timers.Daemon.ServeWhileTimePasses`, `CoRoutines.Scheduler.CheckDelayedList`).
- The two lock counters of a queue are signed bytes.  The assertion that keeps
  them below 127 is compiled out in the LM32 port unless
  CONFIG_RTOS_PEDANTIC_CHECK is set (`portmacro.h`).  Wake-ups are then safe if
  and only if no lock sees more than 127 sends, or receives, from interrupts
  (`QueueRuns.SafeIffCountersSuffice`, `QueueRuns.OverflowLosesWakeUp`).
- A message length narrower than a size_t is stored by its leading bytes, which
  on the big-endian LM32 are the wrong ones (`Framing.LengthFieldIsRightIff`,
  `Framing.NarrowLengthFieldLosesLengths`).
  The configured type is size_t, for which it is right.
- `mmuAlloc` adds the requested length in `size_t`.  On the 32-bit LM32 the sum
  can wrap, and a block that does not fit is granted
  (`PartitionList.CheckIsRightIff`, `PartitionList.HugeRequestIsGranted`).
- The sums of `ramRingAddToWriteIndex` and `ramRingAddToReadIndex` can wrap in a
  ring of more than half the index range (`RingIndexes.AddGrowsIff`,
  `RingIndexes.AddShrinksIff`, `RingIndexes.HugeRingMiscounts`).
- A client that reads a full ring at once cannot tell whether its acknowledgement
  was taken, and repeats it (`Handshake.SafeIffReadsAreSmaller`,
  `Handshake.FullReadLosesItems`).  The clients in
  the repository read less than the ring at once (`mdaq_administration.cpp:203`
  and `:375`, `daq_administration.cpp:462-537`) and so meet the condition; a
  client that reads as many items as the ring's capacity at once does not.
- Ticks pended during a suspension of a whole wrap of the tick count or more are
  lost in whole wraps and only so (`Kernel.Kernel.DeliveredTicks`,
  `Kernel.PendTicks`).

## Model

| member | source | states |
|---|---|---|
| `KernelList.Link` | srclib/FreeRTOS-Kernel/list.c:101-108 | the four pointer writes of an insertion leave next and previous links that agree with the cycle that has the item spliced in, and touch no other item |
| `KernelList.Unlink` | srclib/FreeRTOS-Kernel/list.c:194-195 | the two pointer writes of a removal leave links that agree with the cycle without the item |
| `KernelList.List.Splice` | srclib/FreeRTOS-Kernel/list.c:175-184 | linking, recording the container and counting keep the list one cycle through the sentinel with exactly the counted items |
| `KernelList.List.InsertEnd` | srclib/FreeRTOS-Kernel/list.c:87-114 | the item is placed just before the roving index, wherever that stands; the index keeps its item |
| `KernelList.List.FindPredecessor` | srclib/FreeRTOS-Kernel/list.c:137-173 | the search ends, even for the value portMAX_DELAY, at the last item whose value is not larger |
| `KernelList.List.Insert` | srclib/FreeRTOS-Kernel/list.c:117-185 | the item is spliced behind all items of smaller or equal value, so a list in order stays in order and equal values keep their arrival order; on owners and values it is SortedItems.Insert |
| `KernelList.SplicedInOrder` | srclib/FreeRTOS-Kernel/list.c:117-185 | splicing where the search ends keeps the values of the whole cycle in order |
| `KernelList.List.Remove` | srclib/FreeRTOS-Kernel/list.c:188-213 | exactly this item leaves the cycle, belongs to no list any more, and an index that stood on it steps back; on owners and values it is SortedItems.Remove |
| `KernelList.List.NextOwner` | srclib/FreeRTOS-Kernel/include/list.h:281-292 | the index moves one item on and skips the sentinel |
| `KernelList.WalkVisitsEachOnce` | srclib/FreeRTOS-Kernel/include/list.h:281-292 | from wherever the index stands, as many steps as there are items visit each item exactly once: tasks of one priority get equal turns |
| `KernelList.InsertedAtEndComesLast` | srclib/FreeRTOS-Kernel/list.c:87-114 | an item inserted at the end gets its turn after all others, except for the one whose turn it is now |
| `SortedItems.PositionUnique` | srclib/FreeRTOS-Kernel/list.c:137-173 | the place that the search of vListInsert promises is unique |
| `SortedItems.InsertKeepsAscending` | srclib/FreeRTOS-Kernel/list.c:117-185 | insertion at that place keeps the order and is behind all equal values |
| `SortedItems.Insert` | srclib/FreeRTOS-Kernel/list.c:117-185 | on values: the list gains exactly this entry and stays sorted without duplicate owners |
| `SortedItems.Remove` | srclib/FreeRTOS-Kernel/list.c:188-213 | on values: exactly the owner's entry goes, the rest stays sorted |
| `DelayLists.BlockedForExactly` | srclib/FreeRTOS-Kernel/tasks.c:1346-1384 | over any sequence of ticks, blocks, releases and creations of tasks, a task blocked for d > 0 ticks that none of them concerns is blocked before its d-th tick and ready from it on |
| `DelayLists.BlockedUntilReleased` | srclib/FreeRTOS-Kernel/tasks.c:5327-5340 | a task blocked without limit stays so until an event releases it |
| `DelayLists.ReleasedIsReady` | srclib/FreeRTOS-Kernel/tasks.c:3183-3248 | a released task is ready until it blocks again |
| `DelayLists.WhoIsReady` | srclib/FreeRTOS-Kernel/tasks.c:2244-2304 | after a release and some ticks exactly the released and the due tasks have become ready and left their event lists, and no other status changes |
| `Kernel.BlockedTaskWakesOnTime` | srclib/FreeRTOS-Kernel/tasks.c:1346-1384 | the same of the kernel, through suspensions and replays: its own recorded history determines every task's status, so a task wakes at the d-th processed tick after it blocked |
| `DelayLists.ElapseTwice` | srclib/FreeRTOS-Kernel/tasks.c:2280-2298 | catching up to one moment and then to a later one is the same as catching up to the later one at once |
| `DelayLists.DelayTask` | srclib/FreeRTOS-Kernel/tasks.c:5349-5381 | the choice between current and overflow list by comparing the wrapped wake time with the tick count is right on the unbounded clock |
| `DelayLists.OneMoreWrap` | srclib/FreeRTOS-Kernel/tasks.c:201-213 | the overflow count times the number of tick readings is when the epoch began, so both counts together are the unbounded clock |
| `DelayLists.SwitchDelays` | srclib/FreeRTOS-Kernel/tasks.c:201-213 | when the count wraps, the current list is empty and the overflow list holds exactly the wake times of the new epoch |
| `DelayLists.NotYetDue` | srclib/FreeRTOS-Kernel/tasks.c:2766-2770 | skipping the scan while the count is below the cached time misses no due task |
| `DelayLists.WakeHead` | srclib/FreeRTOS-Kernel/tasks.c:2786-2824 | a task at the head whose time has come is due now, and the lists without it are still right |
| `DelayLists.NoneBeforeHead` | srclib/FreeRTOS-Kernel/tasks.c:2793-2802 | if the head is not due, nobody is |
| `Kernel.Kernel.constructor` | srclib/FreeRTOS-Kernel/tasks.c:3666-3695 | the lists, priorities and counts of a system with its first task and any initial tick count, in full |
| `Kernel.Kernel.StartScheduler` | srclib/FreeRTOS-Kernel/tasks.c:2080-2083 | setting the tick count to its initial value and the cached time anew keeps the kernel valid while no task is delayed |
| `Kernel.Kernel.AddTaskToReadyList` | srclib/FreeRTOS-Kernel/tasks.c:221-225 | the recorded top priority keeps bounding all non-empty ready lists |
| `Kernel.Kernel.ResetNextTaskUnblockTime` | srclib/FreeRTOS-Kernel/tasks.c:4006-4024 | the cached time is the least wake time of the current list, or the latest reading if that list is empty |
| `Kernel.Kernel.CountTick` | srclib/FreeRTOS-Kernel/tasks.c:2749-2760 | a counted tick advances the unbounded clock by one, across the wrap and the swap of the lists |
| `Kernel.Kernel.UnblockDueTasks` | srclib/FreeRTOS-Kernel/tasks.c:2770-2846 | the loop readies exactly the tasks whose unbounded wake time has come, and takes them off event lists |
| `Kernel.Kernel.IncrementTick` | srclib/FreeRTOS-Kernel/tasks.c:2736-2899 | a tick readies exactly the tasks due at it, or, while the scheduler is suspended, is pended in a counter that wraps |
| `Kernel.Kernel.DeliveredTicks` | srclib/FreeRTOS-Kernel/tasks.c:2736-2899 | at every moment, processed ticks plus pended ticks plus whole wraps of the pending counter are the ticks delivered |
| `Kernel.Kernel.TickInterrupt` | srclib/FreeRTOS-Kernel/tasks.c:2736-2899 | each interrupt is processed, pended, or makes the pending counter wrap, and which of these it is |
| `Kernel.PendTicks` | srclib/FreeRTOS-Kernel/tasks.c:2736-2899 | of any number of ticks in one suspension, whole wraps are lost and the rest is pended; none is lost if and only if all that are pended are fewer than a wrap |
| `Kernel.Kernel.ReadyPendingTasks` | srclib/FreeRTOS-Kernel/tasks.c:2244-2262 | every task released meanwhile, and no other, becomes ready |
| `Kernel.Kernel.RemoveFromStateList` | srclib/FreeRTOS-Kernel/tasks.c:2249-2249 | a task is taken off whichever of the delay and suspended lists it is on, and the others stay exact |
| `Kernel.Kernel.ReplayPendedTicks` | srclib/FreeRTOS-Kernel/tasks.c:2275-2304 | replaying the pended ticks one by one readies exactly the tasks due by the moment reached, and takes just these off event lists |
| `Kernel.Kernel.ResumeAll` | srclib/FreeRTOS-Kernel/tasks.c:2220-2329 | an inner resume changes nothing else; the outermost leaves no pended tick and no pending task, has processed every counted tick, and has readied exactly the released and the due tasks; on event lists stay exactly the tasks that still wait |
| `Kernel.Kernel.CatchUp` | srclib/FreeRTOS-Kernel/tasks.c:2238-2319 | what the outermost resume does to every status and event list, with the history it adds |
| `Kernel.Kernel.InsertInDelayList` | srclib/FreeRTOS-Kernel/tasks.c:5349-5381 | the delay list chosen by the wrapped wake time is the right one, and the cached time stays early |
| `Kernel.Kernel.AddCurrentTaskToDelayedList` | srclib/FreeRTOS-Kernel/tasks.c:5310-5420 | the running task leaves its ready list and blocks until its unbounded wake time, for no ticks until the next one, or without limit |
| `Kernel.Kernel.DelayCurrent` | srclib/FreeRTOS-Kernel/tasks.c:1346-1384 | a delay of d ticks blocks until d processed ticks later |
| `Kernel.Kernel.PlaceOnEventList` | srclib/FreeRTOS-Kernel/tasks.c:3097-3119 | the running task waits on an event list for at most the given ticks, or without limit |
| `Kernel.Kernel.PlaceOnEventListRestricted` | srclib/FreeRTOS-Kernel/tasks.c:3152-3178 | the timer daemon waits without limit only if it asks to, and otherwise for the given ticks, of which there may be none |
| `Kernel.Kernel.RemoveFromEventList` | srclib/FreeRTOS-Kernel/tasks.c:3183-3248 | the released task is ready at once, or held pending while the scheduler is suspended |
| `Kernel.Kernel.RemoveFromUnorderedEventList` | srclib/FreeRTOS-Kernel/tasks.c:3251-3297 | a task that an event group releases is ready at once although the scheduler is suspended |
| `Kernel.Kernel.CreateTask` | srclib/FreeRTOS-Kernel/tasks.c:1071-1130 | a new task is ready at its capped priority and holds no mutex, the top priority still bounds all lists, and before the scheduler runs it becomes the current one unless that has a higher priority |
| `Kernel.Kernel.SelectHighestPriorityTask` | srclib/FreeRTOS-Kernel/tasks.c:136-151 | if any task is ready, the downward search ends, and at a ready task of highest priority |
| `Kernel.Kernel.SetPriority` | srclib/FreeRTOS-Kernel/tasks.c:4101-4125 | a task whose priority changes moves to the ready list of its new priority if it is ready, and stays where it is if not |
| `Kernel.Kernel.IncrementMutexHeldCount` | srclib/FreeRTOS-Kernel/tasks.c:4687-4701 | the running task, which is returned, holds one mutex more |
| `Kernel.Kernel.PriorityInherit` | srclib/FreeRTOS-Kernel/tasks.c:4074-4157 | the holder has the greater of the two priorities, and inheritance is reported just when the blocker outranks its priority or its base |
| `Kernel.Kernel.PriorityDisinherit` | srclib/FreeRTOS-Kernel/tasks.c:4164-4237 | the giver of its last mutex is back at its base and any other keeps its priority, its count of mutexes is one less, and a switch is reported just when its priority changed |
| `Kernel.Kernel.PriorityDisinheritAfterTimeout` | srclib/FreeRTOS-Kernel/tasks.c:4244-4343 | after a waiter gave up, a holder of one mutex has the greater of its base and the highest waiting priority, and any other keeps its own, with all lists still right |
| `TimeOuts.CheckIsExact` | srclib/FreeRTOS-Kernel/tasks.c:3320-3382 | the three-way decision on wrapped readings is right on the unbounded clock if and only if the reading is not aliased, that is, unless two wraps have passed and the count looks like less than one |
| `TimeOuts.FewerThanTwoWraps` | srclib/FreeRTOS-Kernel/tasks.c:3320-3382 | with at most one wrap since the entry no reading is aliased |
| `TimeOuts.TwoWrapsAreMissed` | srclib/FreeRTOS-Kernel/tasks.c:3320-3382 | a wait of almost a whole 32-bit wrap that is long over is reported to have nearly all its ticks left |
| `TimeOuts.TimeOut.CheckForTimeOut` | srclib/FreeRTOS-Kernel/tasks.c:3320-3382 | a finite wait keeps its original deadline and times out exactly when that is reached, if and only if the reading is not aliased; a wait without limit never times out; what the caller keeps is stated in every case |
| `TimeOuts.TimeOut.WaitLoop` | srclib/FreeRTOS-Kernel/queue.c:967-1013 | over any number of checks, however far apart as long as none is aliased, the first to report a timeout is the first at or past the original deadline |
| `Timers.PlacementIsExact` | srclib/FreeRTOS-Kernel/timers.c:711-752 | from wrapped readings alone the timer is processed now exactly when its period has passed on the unbounded clock, and otherwise goes to the list of the epoch in which it expires |
| `Timers.PlacementOfLateCommand` | srclib/FreeRTOS-Kernel/timers.c:711-752 | however late a command is handled, it is taken for due just when the time since it was issued, modulo the wrap, has reached the period; so this decision, which is all that matters for a one-shot timer, is right unless at least a wrap has passed and less than a period is left of it |
| `Timers.TimeSince` | srclib/FreeRTOS-Kernel/timers.c:716-728 | the reading of a command gives the time since it was issued, modulo the wrap, and the daemon takes it to have been issued when it was if and only if less than a wrap has passed |
| `Timers.LateStartIsCountedIff` | srclib/FreeRTOS-Kernel/timers.c:517-533 | a late start of an auto-reload timer is called back once for each period in that time modulo the wrap, which is as often as it has expired if and only if less than a wrap has passed |
| `Timers.LateStartIsMiscounted` | srclib/FreeRTOS-Kernel/timers.c:517-533 | a start handled ten ticks and a whole 32-bit wrap late is called back once, for 429496730 expiries |
| `Timers.LateCommandIsMisplaced` | srclib/FreeRTOS-Kernel/timers.c:711-752 | a start handled a whole 32-bit wrap late, long after the expiry, is filed for a period later |
| `Timers.NthExpiryIsProduct` | srclib/FreeRTOS-Kernel/timers.c:524-532 | repeated addition of the period does not drift |
| `Timers.ExpiryCount` | srclib/FreeRTOS-Kernel/timers.c:524-532 | being between two successive expiries and having expired floor((now - start) / period) times are the same |
| `Timers.Daemon.InsertTimerInActiveList` | srclib/FreeRTOS-Kernel/timers.c:711-752 | the decision and the insertion together, on the unbounded clock |
| `Timers.Daemon.ReloadTimer` | srclib/FreeRTOS-Kernel/timers.c:517-533 | the loop ends; each missed expiry is called back, and the timer is filed for its first expiry after now |
| `Timers.Daemon.ProcessExpiredTimer` | srclib/FreeRTOS-Kernel/timers.c:536-560 | the head of the list is served: an auto-reload timer has then been called back as often as it has expired, a one-shot timer once and is inactive |
| `Timers.Daemon.SwitchTimerLists` | srclib/FreeRTOS-Kernel/timers.c:903-925 | every timer of the old epoch is served before the lists swap, and the old list is empty |
| `Timers.Daemon.SampleTimeNow` | srclib/FreeRTOS-Kernel/timers.c:688-708 | the daemon takes the reading for the next time that has it, switches the lists exactly if that lies in the next epoch, and serves every timer on the way |
| `Arithmetic.SampleIsRightIff` | srclib/FreeRTOS-Kernel/timers.c:688-708 | what is taken for the time of a sample lags whole wraps behind and never catches up: it is right if and only if it was right before and less than a wrap has passed since the last sample |
| `Arithmetic.ReadingAfterWrap` | srclib/FreeRTOS-Kernel/timers.c:688-708 | a sample a whole wrap later looks like no time at all |
| `Timers.Daemon.ProcessTimerOrBlockTask` | srclib/FreeRTOS-Kernel/timers.c:599-658 | if the daemon blocks, then no active timer is due, it wakes exactly at the next expiry or the next wrap, and it blocks without limit if and only if no timer is active |
| `Timers.Daemon.StartOrReplay` | srclib/FreeRTOS-Kernel/timers.c:816-845 | a start command counts from the last time with its reading; expiries since then are called back |
| `Timers.Daemon.ApplyStart` | srclib/FreeRTOS-Kernel/timers.c:816-845 | the same as a step of the daemon, with all lists and accounts still exact |
| `Timers.Daemon.ApplyChangePeriod` | srclib/FreeRTOS-Kernel/timers.c:853-866 | a changed timer counts afresh from now with its new period |
| `Timers.Daemon.ApplyDelete` | srclib/FreeRTOS-Kernel/timers.c:868-890 | a deleted timer in static memory is stopped and any other is gone, with all other accounts still exact |
| `Timers.Daemon.ProcessReceivedCommand` | srclib/FreeRTOS-Kernel/timers.c:755-900 | one command of any kind and age, with the list removal, the sampling and any list switch before it, leaves every other timer served exactly; a stop, or the deletion of a static timer, changes nothing but the active flag; a start counts from the last time with its reading, with the timer's own period |
| `Timers.StopThenStart` | srclib/FreeRTOS-Kernel/timers.c:816-851 | a timer that is stopped and then started expires a multiple of the period it had before after its start |
| `Timers.Daemon.ServeUntilBlocked` | srclib/FreeRTOS-Kernel/timers.c:583-595 | at a tick that stands still the daemon does block, and when it blocks, at time t, every active timer started at C with period p has been called back exactly floor((t - C) / p) times and its stored expiry is C + (count + 1) p |
| `Timers.Daemon.ServeWhileTimePasses` | srclib/FreeRTOS-Kernel/timers.c:583-595 | the same over rounds that each sample the tick afresh at any later time; and the time for which all is exact is that of the last sample if and only if no two samples were a wrap or more apart |
| `CoRoutines.Scheduler.AddToReadyQueue` | srclib/FreeRTOS-Kernel/croutine.c:68-75 | the recorded top priority keeps bounding the ready lists |
| `CoRoutines.Scheduler.CreateCoRoutine` | srclib/FreeRTOS-Kernel/croutine.c:103-160 | a new co-routine is ready at its capped priority |
| `CoRoutines.Scheduler.AddToDelayedList` | srclib/FreeRTOS-Kernel/croutine.c:163-199 | the running co-routine is due exactly its delay later on the unbounded clock |
| `CoRoutines.Scheduler.RemoveFromEventList` | srclib/FreeRTOS-Kernel/croutine.c:339-361 | a released co-routine goes from the event list to the pending list and nothing else changes |
| `CoRoutines.Scheduler.CheckPendingReadyList` | srclib/FreeRTOS-Kernel/croutine.c:202-222 | every co-routine released before, or by interrupts while the list is emptied, becomes ready, and no other does; the loop ends |
| `CoRoutines.Scheduler.UnblockHead` | srclib/FreeRTOS-Kernel/croutine.c:250-276 | one round of the inner loop, with interrupts before and after its critical section: also a co-routine that was just released leaves every list |
| `CoRoutines.Scheduler.UnblockDue` | srclib/FreeRTOS-Kernel/croutine.c:248-277 | the inner loop readies exactly the co-routines due at the replayed tick |
| `CoRoutines.Scheduler.ReplayTick` | srclib/FreeRTOS-Kernel/croutine.c:233-278 | one replayed tick, with the swap of the lists at the wrap |
| `CoRoutines.Scheduler.ReplayPassedTicks` | srclib/FreeRTOS-Kernel/croutine.c:231-278 | whatever interrupts release between ticks and inside them, exactly the co-routines due by the tick reached are ready, and those released and not ready are pending |
| `CoRoutines.Scheduler.CheckDelayedList` | srclib/FreeRTOS-Kernel/croutine.c:225-281 | however many ticks have passed, the replayed count ends equal to the sampled tick, exactly the co-routines whose time has come are ready, and the replayed time is the kernel's if and only if this has always run again within a wrap |
| `CoRoutines.Scheduler.Schedule` | srclib/FreeRTOS-Kernel/croutine.c:285-316 | one call of the scheduler readies exactly the co-routines released or due, leaves the others where interrupts have put them, and chooses one of highest priority |
| `CoRoutines.CoRoutineWakesOnTime` | srclib/FreeRTOS-Kernel/croutine.c:163-199 | over any number of scheduler calls, a co-routine that waits d > 0 ticks and is not released waits before the d-th replayed tick and is ready from it on |
| `CoRoutines.Scheduler.SelectHighestPriority` | srclib/FreeRTOS-Kernel/croutine.c:297-311 | the search ends; it finds a ready co-routine of highest priority if there is any, and reports none otherwise |
| `Queue.SlotWritten` | srclib/FreeRTOS-Kernel/queue.c:2190-2190 | writing the bytes of one slot stores that item and leaves all others |
| `Rings.WindowBack` | srclib/FreeRTOS-Kernel/queue.c:2188-2201 | writing the slot behind the items appends |
| `Rings.WindowFront` | srclib/FreeRTOS-Kernel/queue.c:2202-2214 | writing the slot before the items and starting there prepends |
| `Rings.WindowPop` | srclib/FreeRTOS-Kernel/queue.c:2243-2261 | starting one slot later drops the oldest item |
| `Queue.Queue.CopyToBack` | srclib/FreeRTOS-Kernel/queue.c:2188-2201 | the write position wraps, and the item is the newest |
| `Queue.Queue.CopyToFront` | srclib/FreeRTOS-Kernel/queue.c:2202-2237 | the read position wraps backwards, and the item is the oldest; overwriting replaces the one item and keeps the count |
| `Queue.Queue.CopyDataToQueue` | srclib/FreeRTOS-Kernel/queue.c:2160-2240 | on the byte buffer: back appends, front prepends, overwrite replaces |
| `Queue.Queue.CopyDataFromQueue` | srclib/FreeRTOS-Kernel/queue.c:2243-2261 | the bytes copied out are the oldest item |
| `Queue.Queue.TrySend` | srclib/FreeRTOS-Kernel/queue.c:828-949 | a send succeeds if there is room or it overwrites; to the back it appends, to the front it prepends; count and wake-up |
| `Queue.Queue.TryReceive` | srclib/FreeRTOS-Kernel/queue.c:1379-1423 | a receive takes the oldest item if there is one; a waiting sender is woken |
| `Queue.Queue.TryPeek` | srclib/FreeRTOS-Kernel/queue.c:1742-1792 | a peek gives the oldest item, leaves the contents as they are, and passes the wake-up on |
| `Queue.Queue.SendFromIsr` | srclib/FreeRTOS-Kernel/queue.c:1017-1181 | an interrupt's send, which on a locked queue only counts, in a counter of eight bits |
| `Queue.Queue.ReceiveFromIsr` | srclib/FreeRTOS-Kernel/queue.c:1865-1957 | an interrupt's receive, which on a locked queue only counts |
| `Queue.Queue.UnlockSending` | srclib/FreeRTOS-Kernel/queue.c:2272-2350 | one receiver is woken for each send counted, as long as any waits |
| `Queue.Queue.UnlockReceiving` | srclib/FreeRTOS-Kernel/queue.c:2353-2380 | one sender is woken for each receive counted, as long as any waits |
| `QueueProtocol.TaskSendIsSound` | srclib/FreeRTOS-Kernel/queue.c:828-936 | a task's send keeps every item matched by a woken receiver or an owed wake-up |
| `QueueProtocol.TaskReceiveIsSound` | srclib/FreeRTOS-Kernel/queue.c:1379-1413 | so does a receive, for free places and senders |
| `QueueProtocol.TaskPeekIsSound` | srclib/FreeRTOS-Kernel/queue.c:1742-1782 | so does a peek, because it wakes the next receiver |
| `QueueProtocol.FailedRetryIsSound` | srclib/FreeRTOS-Kernel/queue.c:1414-1438 | a retry that finds nothing loses no wake-up |
| `QueueProtocol.IsrSendIsSound` | srclib/FreeRTOS-Kernel/queue.c:1017-1181 | an interrupt's send loses none while the counter has room |
| `QueueProtocol.IsrReceiveIsSound` | srclib/FreeRTOS-Kernel/queue.c:1865-1957 | an interrupt's receive loses none while the counter has room |
| `QueueProtocol.LockIsSound` | srclib/FreeRTOS-Kernel/queue.c:251-263 | locking loses none |
| `QueueProtocol.UnlockTxIsSound` | srclib/FreeRTOS-Kernel/queue.c:2272-2350 | unlocking pays the owed wake-ups of receivers |
| `QueueProtocol.UnlockRxIsSound` | srclib/FreeRTOS-Kernel/queue.c:2353-2380 | unlocking pays the owed wake-ups of senders |
| `QueueProtocol.WhoIsWoken` | srclib/FreeRTOS-Kernel/queue.c:828-936 | each critical section wakes at most one task, the first of the list it should, and an interrupt on a locked queue wakes nobody but counts |
| `QueueProtocol.UnlockTxWakes` | srclib/FreeRTOS-Kernel/queue.c:2272-2350 | unlocking wakes exactly as many receivers as sends were counted, from the front, as long as there are any |
| `QueueProtocol.UnlockRxWakes` | srclib/FreeRTOS-Kernel/queue.c:2353-2380 | unlocking wakes exactly as many senders as receives were counted, likewise |
| `QueueRuns.StepKeepsInv` | srclib/FreeRTOS-Kernel/queue.c:805-1014 | every step of every task and interrupt keeps the wake-up invariant, up to 127 interrupts of either kind while the queue is locked |
| `QueueRuns.NoLostWakeUp` | srclib/FreeRTOS-Kernel/queue.c:805-1014 | at every moment of every interleaving in which no lock sees more than 127 sends or receives from interrupts: while receivers wait, every message is matched by a woken receiver that has yet to retry or by a wake-up the lock owes; likewise free places and senders |
| `QueueRuns.WaitingIsJustified` | srclib/FreeRTOS-Kernel/queue.c:1352-1492 | once all calls of such a run have come to rest, receivers wait only on an empty queue and senders only on a full one |
| `QueueRuns.CallsEndRightly` | srclib/FreeRTOS-Kernel/queue.c:1352-1492 | a receive returns with an item, or at a moment when there is none; a send returns having sent, or when the queue is full, or when its time is up |
| `QueueRuns.SomebodyCanStep` | srclib/FreeRTOS-Kernel/queue.c:805-1014 | until all tasks are at rest, one of them can take a step |
| `QueueRuns.TimeOutEndsTheCall` | srclib/FreeRTOS-Kernel/queue.c:1440-1492 | a task whose wait times out can run through to its return, off every list, with the queue unlocked and unchanged |
| `QueueRuns.SafeIffCountersSuffice` | srclib/FreeRTOS-Kernel/queue.c:1161-1168 | for a queue of any length and any tasks: all runs with at most so many sends, and receives, from interrupts per lock lose no wake-up if and only if that bound is at most 127 |
| `QueueRuns.OverflowLosesWakeUp` | srclib/FreeRTOS-Kernel/queue.c:1905-1940 | for any length, a run with one interrupt more that ends with a receiver at rest on a queue that holds an item, or a sender at rest on one with a free place |
| `PriorityInheritance.BlockKeepsInv` | srclib/FreeRTOS-Kernel/queue.c:1625-1657 | blocking on a mutex raises its holder to at least the blocker's priority |
| `PriorityInheritance.TakeKeepsInv` | srclib/FreeRTOS-Kernel/tasks.c:4687-4701 | taking a mutex counts it |
| `PriorityInheritance.GiveKeepsInv` | srclib/FreeRTOS-Kernel/tasks.c:4164-4237 | giving a mutex lowers the giver only when it holds no other |
| `PriorityInheritance.LoweredPriorityIsFair` | srclib/FreeRTOS-Kernel/tasks.c:4244-4343 | after a waiter gave up, the priority of a holder of one mutex is the greatest of its base and the waiters' priorities, and a holder of more keeps its own |
| `PriorityInheritance.LoweredPriorityIsHonoured` | srclib/FreeRTOS-Kernel/queue.c:2135-2155 | the holder is lowered only if that is its only mutex, and not below the tasks that still wait for it |
| `PriorityInheritance.GiveUpKeepsInv` | srclib/FreeRTOS-Kernel/queue.c:1666-1700 | the timeout of a waiter keeps the invariant |
| `PriorityInheritance.RunKeepsInv` | srclib/FreeRTOS-Kernel/queue.c:1495-1711 | the invariant holds at every moment of every run |
| `PriorityInheritance.InheritanceIsHonoured` | srclib/FreeRTOS-Kernel/tasks.c:4074-4343 | in every run a task without a mutex runs at its base priority, and a holder at no less than its base and no less than every task that blocked on its mutex while it held it and still waits |
| `PriorityInheritance.PrioritiesChangeAsTheyShould` | srclib/FreeRTOS-Kernel/tasks.c:4074-4343 | in every run: blocking raises the holder to the greater priority, giving the last mutex takes the giver back to its base, giving up lowers a holder of one mutex to the greatest of its base and the remaining waiters, and no step changes any other priority |
| `PriorityInheritance.AdjustmentsAreExact` | srclib/FreeRTOS-Kernel/tasks.c:4074-4343 | the three adjustments and the report of inheritance, in terms of maxima and the base |
| `PriorityInheritance.RetryingTaskCanMove` | srclib/FreeRTOS-Kernel/queue.c:1548-1700 | a task that retries may take its own mutex if that is free, and may block again or give up if it is not |
| `EventGroups.RequestIsReadBack` | srclib/FreeRTOS-Kernel/event_groups.c:370-397 | packing a request with its control bits and testing it in the walk agree with the test made on entry |
| `EventGroups.WaitingMeans` | srclib/FreeRTOS-Kernel/event_groups.c:692-722 | the test with the operations on words written out: for all bits, or for any one of them |
| `EventGroups.TestMeans` | srclib/FreeRTOS-Kernel/event_groups.c:692-722 | on sets of bits: waiting for all asks that the wanted are among the present, waiting for any that the two sets meet |
| `EventGroups.RequestMeans` | srclib/FreeRTOS-Kernel/event_groups.c:370-397 | a packed request asks for just that |
| `EventGroups.ResultIsReadBack` | srclib/FreeRTOS-Kernel/event_groups.c:604-609 | the bits told to a woken task are read back without the control bits |
| `EventGroups.WhoRemains` | srclib/FreeRTOS-Kernel/event_groups.c:560-616 | exactly the waiters that are not satisfied stay on the list |
| `EventGroups.ClearMaskIsUnion` | srclib/FreeRTOS-Kernel/event_groups.c:592-620 | a bit is cleared just when a woken waiter that clears on exit waited for it |
| `EventGroups.BroadcastIsExact` | srclib/FreeRTOS-Kernel/event_groups.c:533-625 | one call wakes a waiter just when its condition now holds, tells all it wakes the same bits from before any clearing, and leaves the others alone |
| `EventGroups.SetWakes` | srclib/FreeRTOS-Kernel/event_groups.c:560-616 | a waiter for any bit stays just when none of its bits is among the old and the new ones, a waiter for all just when one is missing |
| `EventGroups.SetLeaves` | srclib/FreeRTOS-Kernel/event_groups.c:592-620 | the bits that remain are the old and the new ones without those that woken waiters asked to be cleared |
| `EventGroups.SetKeepsNobodySatisfied` | srclib/FreeRTOS-Kernel/event_groups.c:533-625 | after setting bits no task waits whose condition holds |
| `EventGroups.ClearKeepsNobodySatisfied` | srclib/FreeRTOS-Kernel/event_groups.c:473-498 | clearing bits satisfies nobody |
| `EventGroups.WalkOn` | srclib/FreeRTOS-Kernel/event_groups.c:560-616 | one step of the walk, past a waiter that stays or one that is taken off the list under it |
| `EventGroups.EventGroup.SetBits` | srclib/FreeRTOS-Kernel/event_groups.c:533-625 | the walk along the list, on the list itself, computes that broadcast: who is woken and which bits remain, in terms of what each waiter asked for |
| `EventGroups.EventGroup.ClearBits` | srclib/FreeRTOS-Kernel/event_groups.c:473-498 | exactly the given bits go, the old value is returned, nobody is woken |
| `EventGroups.EventGroup.WaitBits` | srclib/FreeRTOS-Kernel/event_groups.c:317-407 | on entry it blocks, if it may, just when a bit is missing, or for any bit just when none is there; else it returns the bits and clears the wanted if asked and satisfied |
| `EventGroups.EventGroup.Sync` | srclib/FreeRTOS-Kernel/event_groups.c:194-255 | the rendezvous on entry: sets, then returns if all bits are there and clears them, else blocks if it may |
| `EventGroups.EventGroup.TimeOut` | srclib/FreeRTOS-Kernel/tasks.c:2811-2816 | a waiter that times out leaves the list with its request unchanged |
| `EventGroups.EventGroup.ReturnAfterBlocking` | srclib/FreeRTOS-Kernel/event_groups.c:409-470 | a task that bits woke gets bits that meet its condition, whatever has happened since; one that timed out sees the present bits and clears them if they meet it by now |
| `Barrier.SetForEverybody` | srclib/FreeRTOS-Kernel/event_groups.c:533-625 | if all waiters want the same and have it, the walk wakes all of them |
| `Barrier.CompleteMeansArrived` | srclib/FreeRTOS-Kernel/event_groups.c:218-228 | a task finds the round complete only when every other task has arrived and waits on the list |
| `Barrier.StepKeepsInv` | srclib/FreeRTOS-Kernel/event_groups.c:194-314 | every step keeps the counts of entered and returned calls within one round |
| `Barrier.NobodyReturnsEarly` | srclib/FreeRTOS-Kernel/event_groups.c:194-314 | over any number of rounds no task returns from its k-th call before every task has entered its k-th |
| `Barrier.BitsAreArrivals` | srclib/FreeRTOS-Kernel/event_groups.c:194-314 | whenever tasks may run, exactly the bits of the tasks that wait for the present round are set |
| `Barrier.RoundEndsWithBitsClear` | srclib/FreeRTOS-Kernel/event_groups.c:218-228 | the step that ends a round leaves no bit set |
| `Barrier.SomebodyCanMove` | srclib/FreeRTOS-Kernel/event_groups.c:194-314 | in every reachable state some task can take a step: no deadlock |
| `Barrier.WithoutNestingTheBarrierDeadlocks` | srclib/FreeRTOS-Kernel/tasks.c:2136-2154 | if the inner resume already released the scheduler, two tasks would wipe each other's bit and wait for ever |
| `StreamBuffer.BytesBetween` | srclib/FreeRTOS-Kernel/stream_buffer.c:1231-1249 | the distance from tail to head, across the end of the buffer |
| `StreamBuffer.SpacesBetween` | srclib/FreeRTOS-Kernel/stream_buffer.c:497-527 | space and bytes add up to the length less one |
| `Rings.WriteAppends` | srclib/FreeRTOS-Kernel/stream_buffer.c:1141-1184 | writing behind the unread bytes appends to them |
| `Rings.OverwrittenTwice` | srclib/FreeRTOS-Kernel/stream_buffer.c:736-761 | the length and the message, written one behind the other, are one write |
| `Rings.HiddenWrite` | srclib/FreeRTOS-Kernel/stream_buffer.c:736-747 | bytes written behind the head are invisible until the head moves |
| `StreamBuffer.StreamBuffer.SpacesAvailable` | srclib/FreeRTOS-Kernel/stream_buffer.c:497-527 | how many more bytes fit |
| `StreamBuffer.StreamBuffer.BytesInBuffer` | srclib/FreeRTOS-Kernel/stream_buffer.c:1231-1249 | how many bytes are unread |
| `StreamBuffer.StreamBuffer.WriteBytes` | srclib/FreeRTOS-Kernel/stream_buffer.c:1141-1184 | the two copies write exactly the given bytes around the end of the buffer and nothing else |
| `StreamBuffer.StreamBuffer.ReadBytes` | srclib/FreeRTOS-Kernel/stream_buffer.c:1187-1228 | the two copies read exactly the next bytes around the end |
| `StreamBuffer.StreamBuffer.WriteStream` | srclib/FreeRTOS-Kernel/stream_buffer.c:749-761 | as many bytes as the sampled space allows are appended |
| `StreamBuffer.StreamBuffer.WriteMessage` | srclib/FreeRTOS-Kernel/stream_buffer.c:732-761 | the message is appended whole, or the readers see nothing of it |
| `StreamBuffer.StreamBuffer.Send` | srclib/FreeRTOS-Kernel/stream_buffer.c:542-670 | without waiting: a message that does not fit or is empty is not sent at all; of a stream as much as fits |
| `StreamBuffer.StreamBuffer.ReadStream` | srclib/FreeRTOS-Kernel/stream_buffer.c:1000-1014 | the oldest bytes, as many as both sides allow |
| `StreamBuffer.StreamBuffer.ReadMessage` | srclib/FreeRTOS-Kernel/stream_buffer.c:977-1014 | exactly the oldest message; if the caller's buffer is too small, nothing is given and nothing lost |
| `StreamBuffer.StreamBuffer.Receive` | srclib/FreeRTOS-Kernel/stream_buffer.c:767-868 | without waiting: nothing from an empty buffer |
| `StreamBuffer.StreamBuffer.NextMessageLength` | srclib/FreeRTOS-Kernel/stream_buffer.c:871-908 | the length of the oldest message, or 0; its assertion holds |
| `StreamBuffer.StreamBuffer.Reset` | srclib/FreeRTOS-Kernel/stream_buffer.c:418-464 | an empty buffer, unless a task is blocked on it, in which case nothing changes |
| `StreamBuffer.OldestInWindow` | srclib/FreeRTOS-Kernel/stream_buffer.c:977-1014 | where the oldest message lies, even across the end of the buffer |
| `Framing.LengthIsReadBack` | srclib/FreeRTOS-Kernel/stream_buffer.c:738-741 | a length survives being stored in a length field as wide as a size_t |
| `Framing.LengthFieldIsRightIff` | srclib/FreeRTOS-Kernel/stream_buffer.c:738-741 | on the big-endian processor the length is read back if and only if the length field is as wide as a size_t or the length is 0 |
| `Framing.NarrowLengthFieldLosesLengths` | srclib/FreeRTOS-Kernel/stream_buffer.c:738-741 | with a field of two bytes the length 1 is read back as 0 |
| `Framing.OldestFrame` | srclib/FreeRTOS-Kernel/stream_buffer.c:977-986 | the first bytes give the length of the oldest message and then the message |
| `Framing.MoreThanAHeader` | srclib/FreeRTOS-Kernel/stream_buffer.c:884-900 | at most a header's worth of bytes available means none at all |
| `Framing.FramesAreUnambiguous` | srclib/FreeRTOS-Kernel/stream_buffer.c:732-761 | the buffered bytes determine the messages |
| `StreamRuns.StepKeepsInv` | srclib/FreeRTOS-Kernel/stream_buffer.c:724-764 | sampling, every byte copied and every publication keep the invariant of one writer and one reader |
| `StreamRuns.SamplesAreExact` | srclib/FreeRTOS-Kernel/stream_buffer.c:497-527 | a fresh sample is exactly the number of unread bytes, or of slots that are neither theirs nor the one kept free |
| `StreamRuns.RunConserves` | srclib/FreeRTOS-Kernel/stream_buffer.c:1141-1249 | in every interleaving the bytes received and then the unread ones are the bytes sent |
| `StreamRuns.WriterSparesUnreadBytes` | srclib/FreeRTOS-Kernel/stream_buffer.c:1141-1184 | the writer never writes to a slot that holds an unread byte |
| `StreamRuns.ReaderGetsWhatWasSent` | srclib/FreeRTOS-Kernel/stream_buffer.c:1187-1228 | every byte the reader copies is published and is the one sent at that place |
| `StreamRuns.FindsOldest` | srclib/FreeRTOS-Kernel/stream_buffer.c:977-986 | the reader finds the length of the oldest message, all of which it may read, although it sampled the head earlier |
| `StreamRuns.MessagesStayWhole` | srclib/FreeRTOS-Kernel/stream_buffer.c:724-764 | in every interleaving what is sent is whole messages and what is received is their beginning |
| `StreamRuns.EachReceiveGivesTheOldest` | srclib/FreeRTOS-Kernel/stream_buffer.c:968-1017 | each receive gives exactly the oldest message not yet received |
| `PartitionList.ItemIsReadBack` | srclib/scu_mmu.c:112-127 | a descriptor survives being stored as two words |
| `PartitionList.BlocksAreDisjoint` | srclib/scu_mmu.c:231-247 | blocks do not overlap and leave room for the descriptor in between |
| `PartitionList.ItemsApart` | srclib/scu_mmu.c:231-247 | descriptors overlap neither each other nor a payload |
| `PartitionList.CheckIsRightIff` | srclib/scu_mmu.c:228-229 | the capacity check is right if and only if its sum does not wrap around to below the capacity |
| `PartitionList.HugeRequestIsGranted` | srclib/scu_mmu.c:228-229 | a request for nearly the whole address range is granted by an empty list in any memory, though it does not fit |
| `PartitionList.AppendKeepsPartition` | srclib/scu_mmu.c:225-250 | after a call, all blocks lie one behind the other, with unique tags, and below the capacity just when the check did not wrap |
| `PartitionList.LinkedIsChained` | srclib/scu_mmu.c:231-247 | pointing the last item to the new one and writing that makes the memory hold the longer list |
| `PartitionList.PayloadIsNoItem` | srclib/scu_mmu.h:36-86 | no word of a granted block belongs to a descriptor |
| `PartitionList.ClimbOn` | srclib/scu_mmu.c:205-220 | one step of the walk: where it is, how much is allocated so far, and which block it sees |
| `PartitionList.PartitionList.IsPresent` | srclib/scu_mmu.c:93-99 | true just when the memory holds the chain of the listed blocks; if false there are no blocks |
| `PartitionList.PartitionList.Delete` | srclib/scu_mmu.c:104-108 | the list and its blocks are gone |
| `PartitionList.PartitionList.GetNumberOfBlocks` | srclib/scu_mmu.c:132-148 | the walk counts the blocks |
| `PartitionList.PartitionList.Climb` | srclib/scu_mmu.c:202-220 | the walk finds the block with the tag if there is one, and otherwise the last item and the end of all blocks |
| `PartitionList.PartitionList.CreateList` | srclib/scu_mmu.c:182-197 | the two words written are the chain of no blocks |
| `PartitionList.PartitionList.Append` | srclib/scu_mmu.c:231-248 | the new block is listed behind all others and no word of an existing block changes |
| `PartitionList.PartitionList.Alloc` | srclib/scu_mmu.c:179-251 | exactly when each of the five statuses is returned, in terms of the blocks and the tag; a block once listed never moves, no word but descriptors is touched, failure changes no block, and the blocks are below the capacity afterwards if and only if the check did not wrap |
| `PartitionList.PartitionList.WriteBlock` | srclib/scu_mmu.h:36-86 | a client's write inside its block never harms the list |
| `PartitionList.GrantsAreForEver` | srclib/scu_mmu.c:210-217 | over any history, once a tag has been granted a block, every later call with that tag gets that very block |
| `RingIndexes.SizeOf` | srclib/fifo/circular_index.c:57-75 | 0 only for an empty ring and the capacity only for a full one |
| `RingIndexes.WriteSlot` | srclib/fifo/circular_index.c:96-110 | the slot behind the newest item |
| `RingIndexes.AdvanceWraps` | srclib/fifo/circular_index.c:123-123 | the remainder goes around the ring if and only if the 32-bit sum does not wrap |
| `RingIndexes.AddGrowsIff` | srclib/fifo/circular_index.c:115-137 | adding to the write index grows the ring by just that much if and only if the sum does not wrap |
| `RingIndexes.AddShrinksIff` | srclib/fifo/circular_index.c:142-163 | adding to the read index shrinks it by just that much, even from full to empty, if and only if the sum does not wrap |
| `RingIndexes.HugeRingMiscounts` | srclib/fifo/circular_index.c:115-137 | a ring of more than half the index range can miscount |
| `RingIndexes.OrdinaryRingsCount` | srclib/fifo/circular_index.c:115-163 | no other ring can |
| `RingIndexes.Ring.GetReadIndex` | srclib/fifo/circular_index.c:88-91 | the place of the oldest item in the memory |
| `RingIndexes.Ring.GetWriteIndex` | srclib/fifo/circular_index.c:96-110 | the place behind the newest item, also in a full ring |
| `RingIndexes.Ring.GetUpperReadSize` | srclib/fifo/circular_index.c:168-172 | how far the memory goes on from there, at least 1 |
| `RingIndexes.Ring.GetUpperWriteSize` | srclib/fifo/circular_index.c:177-190 | likewise behind the newest item, also in a full ring |
| `RingIndexes.Ring.AddToWriteIndex` | srclib/fifo/circular_index.c:115-137 | the method computes the growth above |
| `RingIndexes.Ring.AddToReadIndex` | srclib/fifo/circular_index.c:142-163 | the method computes the shrinking above |
| `Handshake.TakesWhatWasRead` | srclib/fifo/circular_index.h:291-296 | the server never takes more than the ring holds or the client has read |
| `Handshake.TakeKeepsInv` | srclib/fifo/circular_index.h:291-296 | taking an acknowledgement releases exactly the items acknowledged |
| `Handshake.StepKeepsInv` | srclib/fifo/circular_index.h:291-390 | every step of server and client keeps the handshake |
| `Handshake.LookTellsLostFromTaken` | prj/scu-control/daq/linux/daq_base_interface.cpp:181-197 | once the server has cleared the acknowledgement, the client repeats it just when it was lost, and otherwise may read exactly the items it has not got yet |
| `Handshake.NothingIsLost` | prj/scu-control/daq/linux/daq_base_interface.cpp:154-206 | in every interleaving, also when acknowledgements are wiped: released items and contents are the items pushed, the client gets each item once and in order, and no item is released before it was read, provided that the client never reads the whole full ring at once |
| `Handshake.SafeIffReadsAreSmaller` | prj/scu-control/daq/linux/daq_base_interface.cpp:154-206 | in a ring of any capacity, every run of a client that reads at most so many items at once is safe if and only if that bound is smaller than the capacity |
| `Handshake.FullReadLosesItems` | prj/scu-control/daq/linux/daq_base_interface.cpp:192-197 | for any capacity: a client that reads the whole full ring repeats an acknowledgement that was taken, and a ring full of unread items is released |

## Left out

- KernelList: the integrity-check words and the macro copies of insertion and removal, which make the same pointer writes.
- Kernel.Kernel.SelectHighestPriorityTask: ready lists are sets here, so any ready task of highest priority may be chosen; the turn within a priority is the walk that KernelList proves.
- Kernel: task deletion, vTaskSuspend and vTaskResume, xTaskAbortDelay, vTaskPrioritySet, task notifications, the yields and the flag that asks for one, tickless idle, run-time statistics, stacks and allocation.
- Kernel.Kernel.PlaceOnEventList: an object's event list is a set here; its order by priority is a place in the list that the queue model leaves open, since no result there depends on it.
- Kernel.Kernel.PriorityInherit: the event list item value that re-sorts a waiting holder (tasks.c:4094), as event lists are sets here; the same holds of Kernel.Kernel.PriorityDisinherit and Kernel.Kernel.PriorityDisinheritAfterTimeout.
- Kernel.Kernel.AddCurrentTaskToDelayedList: a block of 0 ticks at the last tick before the count wraps, after which the current delay list would not be empty, as tasks.c asserts that it is; the timer daemon asks for such a block only at tick 0 (Timers.Daemon.ProcessTimerOrBlockTask).
- Kernel.Kernel.StartScheduler: creating the idle and timer tasks, and starting the port.
- TimeOuts.TimeOut.CheckForTimeOut: a wait that a delay-abort ends early.
- Timers.Daemon.ProcessTimerOrBlockTask: what blocking does, which is Kernel.Kernel.PlaceOnEventListRestricted.
- Timers.Daemon.ServeUntilBlocked: here the tick stands still, so that the daemon does block; Timers.Daemon.ServeWhileTimePasses lets it advance and states what holds if the daemon blocks.
- Timers.Daemon.ProcessReceivedCommand: pended function calls, the bodies of callbacks, and the command queue itself.
- CoRoutines.Scheduler.SelectHighestPriority: ready lists are sets here too, so any ready co-routine of highest priority may be chosen; the turn is the walk that KernelList proves.
- QueueRuns.NoLostWakeUp: queue sets, resetting a queue that is in use, deletion or suspension of a woken task, delay-abort and the co-routine calls.
- PriorityInheritance.InheritanceIsHonoured: tasks that hold a mutex do not wait for another, priorities are not set from outside, recursive mutexes count as one taking, and the re-sorting value of the event list item is not modelled.
- EventGroups.EventGroup.SetBits: deletion of an event group, calls deferred from interrupts to the timer daemon, and the 16-bit layout of the control bits.
- Barrier.NobodyReturnsEarly: all tasks use the same set of bits and wait without limit.
- StreamBuffer.StreamBuffer.Send: the waiting loop (stream_buffer.c:599-631) and the notifications; a stale sample of the space is covered by StreamRuns.  Buffers are far shorter than half the address range, so the index sums do not wrap, and a message with its length field is shorter than a size_t can express.
- StreamBuffer.StreamBuffer.Receive: the waiting part and the trigger level.
- PartitionList.PartitionList.Alloc: the 64-bit host's wider size_t, byte order, and a crash or another processor between the two descriptor writes; the capacity is the largest index of a memory that large and small enough for the index of a descriptor behind it.
- PartitionList.GrantsAreForEver: histories in which the check wraps, whose effect PartitionList.CheckIsRightIff describes, and the deletion of the list, which forgets every grant; clients' writes are no steps of it because PartitionList.PartitionList.WriteBlock leaves the blocks as they are.
- Handshake.NothingIsLost: the server dropping old blocks to make room, clearBufferRequest (daq_base_interface.hpp:357-367), with which a client acknowledges everything in the ring unread, and a client that restarts; the client's view of both indexes and the acknowledgement is one read.
- The second copy of the kernel (srclib/FreeRTOS-Kernel_10.4.4.+), the command handler, queue watcher, logging, hexdump, Etherbone and SDB code, checksums and small helpers.
