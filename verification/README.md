# A model of MicroLua's cooperative runtime

This project models, in Dafny, the parts of MicroLua on which everything that waits depends,
and proves properties of them:

- the **thread scheduler**: threads linked through their NEXT slots into an active queue and a
  timer list, the table of joiners, the main loop (`Scheduling*.dfy`, `MainLoop.dfy`);
- the **event queue**: tagged words that interrupt handlers set and the scheduler takes
  (`EventQueue.dfy`, `EventImpl.dfy`, `EventMask.dfy`), and the protocol of checking, watching,
  suspending and being resumed built on both (`WaitProtocol.dfy`, `NoLostWakeup.dfy`,
  `Watchers.dfy`);
- **users of events**: DNS request slots (`Dns.dfy`), the rings of UDP datagrams and WiFi scan
  results (`Rings.dfy`, `RingImpl.dfy`), the receive side of TCP (`TcpRecv.dfy`);
- the **resumable transfer loops** of SPI and I2C (`Spi.dfy`, `I2c.dfy`, `I2cWrites.dfy`,
  `I2cReads.dfy`, `Pieces.dfy`);
- **time and integers**: 32-bit times against a 64-bit clock (`Ticks.dfy`), alarms
  (`Alarm.dfy`), 64-bit integers and their texts (`Int64.dfy`, `Int64Text.dfy`,
  `Int64Grammar.dfy`), the hash and the packed table of the symbol lookup, in the program and in
  the generator (`Hashing.dfy`, `HashGenerator.dfy`, `PerfectHash.dfy`, `HashPacking.dfy`,
  `Bits.dfy`).

Where the program changes things in place, there are two layers. A class with the program's
fields and loops changes them step by step, and each of its methods is proved to do what a
function on values says. The lemmas about whole runs are about these functions. Interrupts,
other threads, lwIP and hardware are steps that can come in any order between the atomic
stretches of code, or objects that behave in any way they are allowed to.

`dafny verify dfyconfig.toml` checks the whole project.

Some things the program is meant to do it does not do in every case. There the code is
modelled as it is, with an exact condition and an input that fails:

| what | condition | input |
|---|---|---|
| the third joiner of a thread is not recorded | `SchedulingJoins.JoinKeptIff` | `SchedulingJoins.ThirdJoinIsLost` |
| the last of several pending events is removed, and the next event is lost | `EventQueues.DisableKeepsFifoIff` | `EventQueues.ThirdEventIsLost` |
| through that, a DNS slot is lost for ever | `DnsSlots.DoneIsSafeIff` | `DnsSlots.FreedSlotIsLost` |
| drop counts of the scan queue wrap | `Rings.DropCountsExactIff` | `Rings.DropsGoUncounted` |
| a turn of a 16-bit SPI read outgrows its buffer | `Spi.NoOverrunIff` | `Spi.SeventeenWordsOverrun` |
| an empty or early ended I2C transfer hides where the next one begins | `I2c.TransfersAreFramedIff` | `I2c.EmptyReadHidesWrite`, `I2c.EarlyEndBreaksFraming` |
| a thread whose check raised an error stays a watcher | `Watchers.WatchersKeptIff` | `Watchers.StaleWatcherWakes` |
| an abort of an I2C write goes unnoticed | `I2cWrites.AbortIsMissedIff` | `I2cWrites.OneByteToNobody` |
| an empty I2C write with STOP waits for ever | `I2cWrites.NeverEndsIff` | the condition itself |
| an I2C write that finds the abort of an earlier one waits for ever | `I2cWrites.NeverEndsIff` | `I2cWrites.NextWriteHangs` |
| an I2C write takes an old STOP for its own | `I2cWrites.WaitsForOwnStopIff` | the condition itself |
| a long I2C read loses a byte | `I2cReads.NoByteIsLostIff` | `I2cReads.SeventeenthByteIsLost` |
| a TCP read meets an empty buffer and hangs | `TcpRecv.HangsIff` | `TcpRecv.EmptyBufferHangs` |
| a timeout whose sum wraps is in the past | `Ticks.TimeoutDeadlineIff` | `Ticks.WrappedTimeoutIsInThePast` |
| the 32-bit time test at half the range | `Ticks.ReachedAgreesIff` | `Ticks.ReachedDisagreesAtHalfRange` |
| a repeating timer skips 2^32 ticks after a late callback | `Alarms.NoDriftIff` | `Alarms.OneTickTooLate` |
| an alarm in the far past is taken for the future | `Alarms.AlarmAtKeepsTimeIff` | `Alarms.FarPastIsFuture` |

The comment at `lib/common/mlua.thread.c:333` states the intent the code of the third joiner does
not follow; the model follows the code.

## Model

| member | source | states |
|---|---|---|
| `SchedulingTheorems.ReachableInv` | lib/common/mlua.thread.c:167-723 | In every state a run from the empty scheduler reaches: the two chains are duplicate free, disjoint and exclude the running thread; a thread is in state TIMER iff it is on TIMERS; an ACTIVE thread is on the active queue or running; a SUSPENDED one is on neither chain; TIMERS is sorted by deadline, first come first served; THREADS is the set of started threads that are not dead; only live threads have a JOINERS entry |
| `SchedulingTheorems.StepInv` | lib/common/mlua.thread.c:206-723 | Each single operation (start, resume, kill, join, yield, suspend, sleep, termination, a pass) keeps that invariant |
| `SchedulingInvariant.KillInv` | lib/common/mlua.thread.c:244-292 | Killing a live thread keeps the invariant, wherever the thread is |
| `SchedulingInvariant.SleepInv` | lib/common/mlua.thread.c:697-722 | Putting the running thread on the timer list keeps the invariant, so the list stays sorted and stable |
| `SchedulingInvariant.SpliceInv` | lib/common/mlua.thread.c:551-584 | Splicing the expired timers keeps the invariant |
| `SchedulingInvariant.ChooseInv` | lib/common/mlua.thread.c:586-623 | Rotating the running thread and skipping dead ones keeps the invariant |
| `SchedulingTheorems.SpliceExact` | lib/common/mlua.thread.c:551-584 | A pass moves exactly the TIMER threads whose deadline has elapsed, in timer order, behind the already active ones; those left all have later deadlines; no other thread changes |
| `SchedulingTheorems.DueIsPrefix` | lib/common/mlua.thread.c:566-577 | On a sorted list, cutting at the first later deadline is the same as filtering by deadline |
| `SchedulingTheorems.SleepStable` | lib/common/mlua.thread.c:697-722 | A thread that goes to sleep is inserted behind every deadline that is not later and before every later one |
| `SchedulingTheorems.PickRunsIffRunnable` | lib/common/mlua.thread.c:551-623 | A pass gives control to a thread iff some thread is active or has an elapsed deadline, and the chosen one is such a thread |
| `SchedulingTheorems.PassOrder` | lib/common/mlua.thread.c:551-623 | A pass queues the active threads, then those whose deadline has elapsed in deadline order, then the previous running thread; the first live one runs, those behind it stay in this order, and only dead ones are dropped |
| `SchedulingTheorems.NeverOversleeps` | lib/common/mlua.thread.c:540-549 | The deadline given to event dispatch is the minimum while any thread is active and never later than the deadline of any sleeping thread |
| `SchedulingSleep.DispatchSleepsUntilFirst` | lib/common/mlua.thread.c:540-549 | And with nothing on the active queue it is the deadline of some sleeping thread, or the maximum if there is none |
| `SchedulingTheorems.PickAdvances` | lib/common/mlua.thread.c:586-623 | A pass either runs a given waiting thread or moves it strictly closer to the head |
| `SchedulingTheorems.OtherStepWaits` | lib/common/mlua.thread.c:189-292 | No other operation moves a waiting thread back or takes it off the queue, except killing it |
| `SchedulingTheorems.BoundedWaiting` | lib/common/mlua.thread.c:189-204 | In every run, a live thread with k entries ahead of it runs within k+1 passes of the main loop unless it is killed, whatever other threads, timers and events do |
| `SchedulingSleep.SleepsUntilDue` | lib/common/mlua.thread.c:697-722 | A thread that goes to sleep until a deadline sleeps, with this deadline, in every run in which nobody resumes it and all passes come earlier; a pass then wakes it iff the deadline has come |
| `SchedulingSleep.SuspendedUntilResumed` | lib/common/mlua.thread.c:688-695 | A thread that suspends stays suspended, and does not run, in every run in which nobody resumes it and no thread it has joined dies |
| `SchedulingSleep.StaysAsleep` | lib/common/mlua.thread.c:551-623 | The same for any thread that sleeps or is suspended, with whatever deadline it has |
| `SchedulingSleep.PassWakesIff` | lib/common/mlua.thread.c:551-584 | A pass makes a sleeping thread active iff its deadline has come, and otherwise leaves it as it is |
| `SchedulingSleep.StartOutcome` | lib/common/mlua.thread.c:392-427 | A started thread is active, last on the active queue and in THREADS, and the thread that started it stays in control |
| `SchedulingSleep.SuspendOutcome` | lib/common/mlua.thread.c:688-695 | Suspending gives control to the main loop, takes the thread out of everything that could run it, and changes no other thread |
| `SchedulingSleep.SleepOutcome` | lib/common/mlua.thread.c:697-722 | So does going to sleep, which leaves the thread on the timer list with exactly the deadline it asked for |
| `SchedulingJoins.ResumeAllExact` | lib/common/mlua.thread.c:275-283 | Resuming a table of joiners in any order makes exactly the waiting ones active, each appended once to the queue, in that order, and changes no other thread |
| `SchedulingJoins.ResumeAllOffTimers` | lib/common/mlua.thread.c:167-213 | The resumed sleepers, and only they, are off the timer list, and the others stay in their order |
| `SchedulingJoins.KillWakesJoiners` | lib/common/mlua.thread.c:260-291 | When a thread is killed, every waiting thread recorded under it becomes active and its JOINERS and THREADS entries are gone |
| `SchedulingJoins.TerminateWakesJoiners` | lib/common/mlua.thread.c:631-666 | The same when the running thread returns or raises an error |
| `SchedulingJoins.JoinKeptIff` | lib/common/mlua.thread.c:303-343 | A join keeps "everybody in a join is recorded under its target, or active if the target is dead" iff the caller gets recorded: no entry yet, one joiner, or the caller already a key. The third and later joiner is not recorded, because lines 332-337 store the joined thread as the key |
| `SchedulingJoins.StepKeepsJoins` | lib/common/mlua.thread.c:244-350 | Every other operation, and every recorded join, keeps it |
| `SchedulingJoins.NobodyStranded` | lib/common/mlua.thread.c:303-350 | In every run whose joins are recorded, no live thread is left waiting in a join on a dead thread; a thread that joins a dead one is not in a join at all (SchedulingSleep.JoinOutcome) |
| `SchedulingSleep.JoinOutcome` | lib/common/mlua.thread.c:303-343 | Joining a dead thread changes nothing and leaves control inside the caller; joining a live one suspends the caller in a join on that thread, and changes no other thread |
| `SchedulingSleep.RejoinOutcome` | lib/common/mlua.thread.c:345-350 | A thread that comes back to a join leaves it and stays in control iff its target is dead, and is suspended again in the same join otherwise |
| `SchedulingSleep.JoinOutlivesTarget` | lib/common/mlua.thread.c:303-350 | In no run does a thread leave a join while its target is alive |
| `SchedulingJoins.ThirdJoinIsLost` | lib/common/mlua.thread.c:332-337 | A concrete state with two joiners in which a third join breaks that guarantee |
| `SchedulingJoins.UnrecordedStaysAsleep` | lib/common/mlua.thread.c:260-284 | A joiner that was not recorded sleeps on when the target is killed |
| `MainLoops.MainLoop.constructor` | lib/common/mlua.thread.c:495-508 | A new main loop has empty chains and tables and meets the invariant |
| `MainLoops.MainLoop.RemoveTimer` | lib/common/mlua.thread.c:167-187 | Unlinking a thread from the NEXT chain of TIMERS leaves the chain of the others, in order, and a nil NEXT |
| `MainLoops.MainLoop.Append` | lib/common/mlua.thread.c:189-204 | Appending at TAIL extends the NEXT chain of the active queue by the thread |
| `MainLoops.MainLoop.Resume` | lib/common/mlua.thread.c:206-213 | On the linked threads, does what the specification function of the same name says and keeps links, states and invariant; true iff the thread was waiting |
| `MainLoops.MainLoop.ResumeJoiners` | lib/common/mlua.thread.c:275-283 | The loop over a joiner table resumes all of them, in the order of the table |
| `MainLoops.MainLoop.Kill` | lib/common/mlua.thread.c:244-292 | Refines the specification of kill for some order of the joiner table; false and no change for a dead thread |
| `MainLoops.MainLoop.Terminate` | lib/common/mlua.thread.c:631-666 | Refines the specification of termination for some order of the joiner table |
| `MainLoops.MainLoop.Start` | lib/common/mlua.thread.c:392-427 | A fresh thread becomes active at the tail of the queue and a member of THREADS; the running thread stays |
| `MainLoops.MainLoop.Yield` | lib/common/mlua.thread.c:364-367 | Yielding gives up control and nothing else: the running thread stays active and off the chains until the next pass requeues it |
| `MainLoops.MainLoop.Join` | lib/common/mlua.thread.c:303-343 | Refines the specification of join: a dead target leaves the caller running and active and nothing changed; a live one leaves it suspended, in the join, recorded by one of the three forms of the JOINERS entry |
| `MainLoops.MainLoop.Rejoin` | lib/common/mlua.thread.c:345-350 | Refines the specification of the continuation of join: the caller leaves, running and active, iff the target is dead, and is suspended otherwise |
| `MainLoops.MainLoop.Sleep` | lib/common/mlua.thread.c:697-722 | Refines the specification of sleeping: the walk finds the insertion point and links the thread there, with the deadline it asked for |
| `MainLoops.MainLoop.WakeTime` | lib/common/mlua.thread.c:542-548 | The deadline for event dispatch is the one NeverOversleeps is about |
| `MainLoops.MainLoop.TakeExpired` | lib/common/mlua.thread.c:566-577 | The walk over TIMERS makes exactly the expired prefix active and cuts the list behind it |
| `MainLoops.MainLoop.Splice` | lib/common/mlua.thread.c:551-584 | The pointer surgery that joins the expired prefix to the active queue refines its specification |
| `MainLoops.MainLoop.SkipDead` | lib/common/mlua.thread.c:599-610 | The walk from the head unlinks the dead threads before the first live one, and that one |
| `MainLoops.MainLoop.Choose` | lib/common/mlua.thread.c:586-623 | Requeueing the previous running thread and taking the first live one refines its specification |
| `MainLoops.MainLoop.Pick` | lib/common/mlua.thread.c:551-623 | A whole pass up to the choice of the next thread refines its specification and keeps the invariant |
| `EventQueues.StepRefines` | lib/pico/event.c:56-148 | Every operation on the tagged words and the head and tail pointers is the operation on the FIFO list: set appends an idle event and does nothing to others, pop takes the first and leaves it idle, disable takes one out and keeps the order of the others |
| `EventQueues.OwnTag` | lib/pico/event.c:72-148 | Only a disabled event can be enabled, only an idle one becomes pending, an event that is not disabled becomes disabled or abandoned as asked, only an abandoned one is freed by an interrupt handler, and the one dispatch takes becomes idle |
| `EventQueues.SetAppends` | lib/pico/event.c:106-117 | Setting a pending, disabled or abandoned event changes nothing; an idle one becomes the last pending event; no other event changes its tag |
| `EventQueues.PopTakesFirst` | lib/pico/event.c:140-146 | The locked part of dispatch takes the oldest event, leaves it idle and the rest in order |
| `EventQueues.PopAllLeavesIdle` | lib/pico/event.c:139-149 | Dispatching all pending events leaves each of them idle, all others alone and the queue empty |
| `EventQueues.DisableKeepsFifoIff` | lib/pico/event.c:56-96 | Disabling or abandoning an event keeps a FIFO of the others iff the event is not the last of two or more pending ones: lines 61-69 leave the tail pointer at it |
| `EventQueues.EnabledBetween` | lib/pico/event.c:72-117 | Setting an event before it was enabled, or after it was disabled or abandoned, does nothing; in between it makes it the last pending one |
| `EventQueues.NextEventIsLost` | lib/pico/event.c:61-69 | After that removal the next event that is set is tagged pending but not reachable from the head, and the removed one is tagged pending again |
| `EventQueues.LostForEver` | lib/pico/event.c:56-146 | Such an event is never reached again: in every run of other operations it stays tagged pending, and enabling it is refused |
| `EventQueues.ThirdEventIsLost` | lib/pico/event.c:61-69 | The same with three concrete events |
| `EventQueues.RunIsFifo` | lib/pico/event.c:56-149 | In every run that removes events only where that is safe: dispatched events followed by pending ones are the initially pending ones followed by those that were idle when set, in order, without exactly one occurrence for each removal of a pending event, the last one of that event at the time |
| `Events.EventQueue.Enable` | lib/pico/event.c:72-82 | Refines enable on the event objects; true iff the event was disabled |
| `Events.EventQueue.SetNoLock` | lib/pico/event.c:106-117 | Refines setting an event |
| `Events.EventQueue.RemovePending` | lib/pico/event.c:56-70 | The walk from the head refines the removal of a pending event, including what it does to the tail |
| `Events.EventQueue.DisableEvent` | lib/pico/event.c:84-96 | Refines disabling and abandoning |
| `Events.EventQueue.DisableIfAbandoned` | lib/pico/event.c:119-125 | Refines the call an interrupt handler uses to find out that the owner gave up; true iff it did, and then the event is free |
| `Events.EventQueue.DispatchAll` | lib/pico/event.c:139-149 | With interrupts that set any events between two rounds, the dispatch loop takes every event that is or becomes pending exactly once, in the order they were set, and leaves no event pending and all others as enabled, disabled or abandoned as they were |
| `NoLostWakeups.NoWakeupIsLost` | lib/common/mlua.thread.c:842-880 | In every run of checks, watches, suspensions, interrupts, dispatch steps, passes, other threads, and consumers that make conditions false again, from a state where nobody waits: if the condition of a waiting thread holds, the thread is active, or its event is pending, or dispatch has taken the event and is about to resume it |
| `NoLostWakeups.NextInv` | lib/common/mlua.thread.c:795-880 | Each step of the protocol keeps the invariant behind it: watched before suspended, popped before resumed, at most one waiter an event |
| `NoLostWakeups.DispatchWakesTheReady` | lib/pico/event.c:127-149 | When dispatch has emptied the queue, every suspended thread whose condition holds is on the active queue |
| `NoLostWakeups.ReadyWaiterGetsControl` | lib/common/mlua.thread.c:813-820 | Such a thread gets control, inside its wait, within as many passes as there are active threads, unless it is killed |
| `Watchers.NoSpuriousWakeup` | lib/common/mlua.thread.c:842-880 | In every run from a state where nobody waits, in which no check raises an error while it watches events: a step wakes a thread that sleeps or is suspended only if it delivers an event that this thread waits for, is a pass no earlier than its deadline, resumes it by name, or ends a thread that has it among its joiners |
| `Watchers.WatchersKeptIff` | lib/common/mlua.thread.c:805-840 | A step leaves in the registry only threads that wait for the event, or are dead, iff it is not an error in a check of a thread that watches events: line 878 is not reached then |
| `Watchers.StaleWatcherWakes` | lib/common/mlua.thread.c:869-880 | A thread that caught such an error and went to sleep until any deadline is woken at once by the event it no longer waits for |
| `Watchers.RaisingCanHappen` | lib/common/mlua.thread.c:869-880 | A concrete state from which that happens |
| `Watchers.EndLeavesNothing` | lib/common/mlua.thread.c:878-879 | The end of a wait leaves its thread in control and takes it off all events, and no other thread off any |
| `Watchers.BlockOutcome` | lib/common/mlua.thread.c:857-867 | A thread that waits sleeps until its deadline if it gave one, and is suspended otherwise |
| `Watchers.RecheckOutcome` | lib/common/mlua.thread.c:876-877 | A thread whose condition does not hold blocks again without watching anything again |
| `Watchers.DeadlineEndsWait` | lib/common/mlua.thread.c:869-880 | The first pass no earlier than the deadline of a waiting thread wakes it |
| `EventMask.PositionsAreSetBits` | lib/common/mlua.thread.c:789-802 | The positions visited from a mask are exactly its set bits |
| `EventMask.FirstPosition` | lib/common/mlua.thread.c:789-793 | One step with count-trailing-zeros and a shift finds the next set bit and leaves the others |
| `EventMask.Multi` | lib/common/include_mlua.thread/mlua/thread.h:75-80 | Preparing a wait for several events gives the first position of the mask and the mask of the ones after it |
| `EventMask.Visit` | lib/common/mlua.thread.c:795-802 | The loop over the remaining mask visits the first event and then those of the set bits, in order |
| `EventMask.VisitMask` | lib/common/mlua.thread.c:795-802 | Waiting on a mask watches the events whose bit is set, no other, each once, in ascending order |
| `DnsSlots.SlotReuseIsSafe` | lib/pico/lwip.dns.c:57-134 | In every interleaving of requests, answers, timeouts, kills, late callbacks, dispatch and other users of the shared pending queue, in which no event is removed while it is the last of several pending ones: a slot is free iff no request owns it and no callback is outstanding; an address seen by a request is the answer to that request; an outstanding callback of an owned slot is its owner's |
| `DnsSlots.SafeFromStart` | lib/pico/lwip.dns.c:57-134 | So it is in every run from a table of slots that nobody uses, whatever others have on the pending queue |
| `DnsSlots.StepInv` | lib/pico/lwip.dns.c:57-134 | Each such step, on the slots or on other events, keeps the invariant of every slot and of the pending queue |
| `DnsSlots.LateCallbackWritesNothing` | lib/pico/lwip.dns.c:57-60 | A callback on an abandoned slot writes no result, frees the slot and touches nothing else |
| `DnsSlots.TimelyCallbackDelivers` | lib/pico/lwip.dns.c:61-67 | A callback in time writes the result of its own request and makes the event the last pending one |
| `DnsSlots.CallbackReachesOwner` | lib/pico/lwip.dns.c:57-87 | After a callback in time the request is told exactly that answer, the address or that there is none, whenever it checks and whatever else happens until it ends |
| `DnsSlots.KnownReachesOwner` | lib/pico/lwip.dns.c:121-133 | So it is with an address that lwIP knew at once, and with an error |
| `DnsSlots.WaitsForCallback` | lib/pico/lwip.dns.c:75-87 | Before that it is told to wait, or that its time is up: iff lwIP still owes it a callback |
| `DnsSlots.RequestFailsIff` | lib/pico/lwip.dns.c:106-113 | Under the invariant a request fails for lack of slots iff each slot is owned or waits for a callback |
| `DnsSlots.DoneIsSafeIff` | lib/pico/lwip.dns.c:89-99 | The end of a request keeps the invariant iff its event is not the last of several pending ones, in which case lib/pico/event.c:61-69 leaves the tail pointer at it |
| `DnsSlots.SlotIsLeaked` | lib/pico/lwip.dns.c:89-99 | In that case the next event anybody sets takes the freed slot away: it has no owner and no callback, and enabling it is refused in every run that follows |
| `DnsSlots.FreedSlotIsLost` | lib/pico/lwip.dns.c:89-113 | A concrete state in which the only slot is lost that way and the next request fails |
| `DnsSlots.GHBNState.HandleDnsFound` | lib/pico/lwip.dns.c:57-68 | Refines the callback on the fields of the slot and the shared queue of events |
| `DnsSlots.GHBNState.GetHostByNameDone` | lib/pico/lwip.dns.c:89-99 | Refines the cleanup on the fields of the slot and the shared queue: abandoned while a callback is outstanding, disabled otherwise |
| `DnsSlots.GHBNState.Check` | lib/pico/lwip.dns.c:75-87 | For the owner of a slot: it gets the address of the slot iff one was found, and that was looked up for this very request; it learns that there is none iff the callback said so; it waits, or is out of time, iff lwIP still owes it a callback |
| `DnsSlots.GHBNState.Lookup` | lib/pico/lwip.dns.c:117-133 | Refines the start of a lookup on the fields of the slot, for each answer of lwIP: a known address is returned, an error is an error, and otherwise the request waits |
| `DnsSlots.GetHostByName` | lib/pico/lwip.dns.c:101-133 | Refines the request on the slots and the shared queue: the first free slot is taken, and the answer of lwIP decides what is returned; without a free slot nothing changes and the request fails |
| `Rings.PushAppends` | lib/pico/lwip.udp.c:32-44 | The producer appends to the queue unless it is full, never writes the head slot of a non-empty queue, and keeps the indices below the capacity without 8-bit overflow |
| `Rings.DropRemovesFirst` | lib/pico/lwip.udp.c:166-169 | Advancing the head drops the oldest element and no other |
| `Rings.DatagramsAreConserved` | lib/pico/lwip.udp.c:29-74 | In every interleaving of arrivals with the steps of a reader that reads the head slot outside the lock, and with closing: accepted datagrams are the delivered, then the freed, then the queued ones, in order; arrivals are the accepted plus the refused; the counter is the refused modulo 256 |
| `Rings.StepInv` | lib/pico/lwip.udp.c:29-74 | Each step keeps this, and the copy a reader holds is the oldest datagram |
| `Rings.TakeInv` | lib/pico/pico.cyw43.wifi.c:137-150 | Taking a scan result returns the oldest one and the number dropped since the last one modulo 256 |
| `Rings.ScanIsConserved` | lib/pico/pico.cyw43.wifi.c:113-150 | In every run, accepted scan results are the delivered ones followed by the queued ones, and results are accepted plus dropped |
| `Rings.DropCountsExactIff` | lib/pico/pico.cyw43.wifi.c:129-148 | The reported drop counts add up to the number of drops iff no more than 255 results are dropped between two reads |
| `Rings.DropsGoUncounted` | lib/pico/pico.cyw43.wifi.c:129-148 | 257 results for a queue of one: 256 are dropped and the counter says none |
| `RingBuffers.RingBuffer.Arrive` | lib/pico/lwip.udp.c:29-45 | Refines the producer on the array; true iff there was room |
| `RingBuffers.RingBuffer.Advance` | lib/pico/lwip.udp.c:166-169 | Refines the consumer's step |
| `RingBuffers.RingBuffer.TakeResult` | lib/pico/pico.cyw43.wifi.c:141-150 | Refines taking a scan result and resetting the counter |
| `RingBuffers.RingBuffer.FreeAll` | lib/pico/lwip.udp.c:66-72 | The loop on close frees exactly the queued datagrams, oldest first |
| `TcpRecv.StreamIsConserved` | lib/pico/lwip.tcp.c:360-425 | For every interleaving of data, refused data, the end of the stream, reads and failure of the connection: what the reads returned followed by what is left is the data that was not refused, in order, and while the connection lives as many bytes are acknowledged as were returned |
| `TcpRecv.DataComesFirst` | lib/pico/lwip.tcp.c:420-424 | The end of the stream, an error and a timeout are only reported once every received byte has been delivered |
| `TcpRecv.ReadGetsNext` | lib/pico/lwip.tcp.c:396-420 | In every run, a read while there is undelivered data gets the bytes of the stream that follow those delivered, as many as it asks for or there are |
| `TcpRecv.OutcomeWithoutData` | lib/pico/lwip.tcp.c:420-424 | And while there is none: the end of the stream iff the peer has finished, the error iff it has not and the connection has failed, a timeout or another wait iff neither, according to the deadline |
| `TcpRecv.AcknowledgedUntilFailure` | lib/pico/lwip.tcp.c:412 | In every run, exactly the bytes delivered before the connection failed are acknowledged |
| `TcpRecv.HangsIff` | lib/pico/lwip.tcp.c:398-413 | A read comes to a buffer it can never get past iff there is an empty buffer before the last byte it asks for |
| `TcpRecv.EmptyBufferHangs` | lib/pico/lwip.tcp.c:398-413 | A chain of three buffers, the second of them empty, in which a read of two bytes hangs |
| `TcpRecv.Tcp.HandleRecv` | lib/pico/lwip.tcp.c:360-389 | Refines receiving on the chain of buffers: any chain with data is appended, an empty one, the end of the stream, an unaccepted and a closed connection are told apart; the receive event is set iff there is something new |
| `TcpRecv.Tcp.Join` | lib/pico/lwip.tcp.c:375-378 | Linking the chain keeps one chain and puts the tail pointer at its last buffer |
| `TcpRecv.Tcp.CopyOut` | lib/pico/lwip.tcp.c:396-413 | The loop copies and acknowledges exactly the first bytes past the offset, as many as asked for or there are, or hangs exactly in the case above |
| `TcpRecv.Tcp.RecvLoop` | lib/pico/lwip.tcp.c:391-425 | Unless it hangs, refines a read of the stream: the returned bytes, the bytes left, the acknowledgement and the order of outcomes; the tail pointer is null iff the chain is empty |
| `TcpRecv.Tcp.HandleErr` | lib/pico/lwip.tcp.c:46-53 | Refines failure: it ends acknowledgement and loses no received byte |
| `Spi.WriteReadBlocking` | lib/pico/hardware.spi.c:103-139 | Under every availability of the port: the words sent are the source words in order, as many are received, none is lost to a full receive FIFO, and the bytes returned are the received words in order, 8 or 16 bits, and fit the buffer |
| `Spi.WordsAreSource` | lib/pico/hardware.spi.c:117-124 | The words sent, laid out as bytes, are the bytes of the source |
| `Spi.LowByteFirst` | lib/pico/hardware.spi.c:117-124 | A 16-bit word has the byte at the lower address in its low half; an 8-bit one is the byte; without a source each word is the given value |
| `Spi.BytesLaidOut` | lib/pico/hardware.spi.c:127-133 | The bytes received have the low half of each 16-bit word first |
| `Spi.FeedAll` | lib/pico/hardware.spi.c:167-176 | Feeding keeps at most eight words outstanding and sends the next source words |
| `Spi.DrainAll` | lib/pico/hardware.spi.c:158-191 | Draining collects received words in order and writes no byte past the capacity of the buffer, unless it needs more room than there is |
| `Spi.Transfer.Keep` | lib/pico/hardware.spi.c:199-204 | Pushing a piece, and concatenating all pieces when the stack gets full, keeps the concatenation and bounds the number of stack slots |
| `Spi.Transfer.WriteReadLoop` | lib/pico/hardware.spi.c:141-216 | A turn of the suspending loop completes the transfer, or stores a state from which it goes on, having made progress, with the receive interrupt enabled, the transmit interrupt iff a word may be sent, and one of the two bound to come; or it overruns the buffer of lines 160-162, and that only in a 16-bit read of more words than half the initial buffer |
| `Spi.WriteRead` | lib/pico/hardware.spi.c:218-227 | The suspending form under every schedule of turns ends with the same transfer as the polling one if the bytes of a 16-bit read fit the initial buffer, and otherwise unless a turn overruns it. For an empty transfer that reads it returns nothing, where the polling form returns the empty string |
| `Spi.NoOverrunIff` | lib/pico/hardware.spi.c:158-191 | No schedule overruns the buffer of a turn iff the transfer does not read, is not in 16-bit mode, or two bytes a word fit the initial buffer: line 161 reserves one byte a word |
| `Spi.SeventeenWordsOverrun` | lib/pico/hardware.spi.c:158-191 | A 16-bit read of 17 words has a schedule that needs 34 bytes of 32 |
| `Spi.BytesNext` | lib/pico/hardware.spi.c:127-131 | The bytes of one more word follow the bytes of the words before it |
| `I2c.CommandsNext` | lib/pico/hardware.i2c.c:107-111 | The next command has RESTART iff it is the first and one was due, STOP iff it is the last and one was asked for |
| `I2c.WriteCommands` | lib/pico/hardware.i2c.c:107-111 | The k-th command of a write carries the k-th byte of the source, with RESTART and STOP only at the ends |
| `I2c.ReadCommands` | lib/pico/hardware.i2c.c:245-249 | The k-th command of a read asks for a byte, with RESTART and STOP only at the ends |
| `I2c.TransfersAreFramedIff` | lib/pico/hardware.i2c.c:107-128 | In a series of transfers, completed, aborted or out of time, each that issues commands begins after a STOP or with a RESTART and never both, iff the flag it starts with says whether the last one before it that issued any left the bus open; so always if all are completed and none is empty |
| `I2c.EmptyReadHidesWrite` | lib/pico/hardware.i2c.c:204-253 | A read of nothing between two writes after which the second cannot be told from the first |
| `I2c.EarlyEndBreaksFraming` | lib/pico/hardware.i2c.c:107-128 | A write that runs out of time, and one that is aborted, after which the next write has no boundary, or both kinds of it |
| `I2c.Send` | lib/pico/hardware.i2c.c:93-113 | The loop sends the bytes once, in order, until done, out of room, or an abort is noticed; a noticed abort came before the last command, and none before the last but one goes unnoticed |
| `I2c.Writer.WriteLoop` | lib/pico/hardware.i2c.c:68-139 | A turn fails with a timeout iff it is out of time; otherwise it ends the write as WriteDone says, or stores a state from which it goes on, having made progress, unless it waits for a STOP that is not due; the enabled interrupts fit what it waits for, and a STOP it waits for is due iff a command was issued; if none was, the write is empty or found the abort of an earlier transfer |
| `I2c.Write` | lib/pico/hardware.i2c.c:148-154 | A whole write, under every schedule, that does not run out of a deadline it has: the commands issued are the source bytes, once each, in order, flags in place; it fails iff an abort for a missing acknowledgement was noticed before the last byte, and otherwise returns the number of bytes issued, all of them unless another abort was noticed. It may be left waiting only without a deadline and with no command issued: an empty write that asks for STOP, or one that found the abort of an earlier transfer |
| `I2cWrites.WriteEnds` | lib/pico/hardware.i2c.c:68-139 | Every run of single steps of the loop and the controller, from whatever an earlier transfer left behind, that ends is a timeout iff the deadline passed in it, and otherwise ends as a write may end, with the error or the count |
| `I2cWrites.AbortIsMissedIff` | lib/pico/hardware.i2c.c:93-113 | Whether or not an earlier STOP is still latched: an abort for any reason that comes when c > 0 bytes are out can go unnoticed, so that all bytes are reported written, iff at most one byte is not out yet |
| `I2cWrites.OneByteToNobody` | lib/pico/hardware.i2c.c:93-138 | A run in which the one byte of a write is out, is not acknowledged, and is reported written |
| `I2cWrites.NeverEndsIff` | lib/pico/hardware.i2c.c:93-127 | From whatever an earlier transfer left behind: no run without abort and timeout ends iff no STOP is latched, and the write is empty and asks for STOP, or is not empty and an abort nobody cleared is still there |
| `I2cWrites.NextWriteHangs` | lib/pico/hardware.i2c.c:93-127 | A write of one byte that nobody acknowledges can end with its abort left behind and its STOP cleared; after it, in every run, a write of at least one byte issues nothing and does not end, unless it times out |
| `I2cWrites.WaitsForOwnStopIff` | lib/pico/hardware.i2c.c:116-127 | Every run of a write that asks for STOP, whether or not it finds an earlier abort, ends only after a STOP of its own, or out of time, iff no STOP of an earlier transfer is latched; lines 204-264 never clear the one a read ends with |
| `I2c.Reader.Receive` | lib/pico/hardware.i2c.c:204-252 | Every round that does not suspend collects a byte or issues a command; what was collected are the bytes that arrived, in order |
| `I2c.Reader.ReadLoop` | lib/pico/hardware.i2c.c:180-265 | A turn fails with a timeout iff it is out of time; otherwise it ends the read as ReadDone says, or stores a state from which it goes on, having made progress, unless all commands are out, nothing is to be collected or still to come, and no abort is pending; the transmit interrupt is enabled iff commands are left |
| `I2c.Read` | lib/pico/hardware.i2c.c:273-279 | A whole read, under every schedule of a controller that loses the bytes that find its receive FIFO full, and within its deadline if it has one: one read command a byte, flags in place; it fails iff an abort for a missing acknowledgement was noticed, and otherwise returns the bytes that got in and were collected, in order; a read that collects all its bytes lost none, and one of no more bytes than the FIFO holds never does. It may be left waiting only without a deadline, after all commands, when as many bytes as it misses were lost, and then it asked for more than the FIFO holds |
| `I2cReads.NoByteIsLostIff` | lib/pico/hardware.i2c.c:204-252 | If the controller does not hold the bus while its receive FIFO is full, no schedule of a read loses a byte iff it reads no more bytes than the FIFO holds |
| `I2cReads.SteadyReadLosesNothing` | lib/pico/hardware.i2c.c:213-216 | A read of any length loses nothing in schedules in which no command is carried out between the looks at the two FIFOs |
| `I2cReads.OutstandingIsBounded` | lib/pico/hardware.i2c.c:204-252 | In every schedule at most two FIFOs full of bytes are outstanding |
| `I2cReads.SeventeenthByteIsLost` | lib/pico/hardware.i2c.c:204-252 | A schedule of a read of 17 bytes in which the last one finds the FIFO full |
| `I2cReads.ExecuteSome` | lib/pico/hardware.i2c.c:204-216 | When k queued commands are carried out, as many bytes as fit are ready and the rest is lost |
| `I2cReads.TickExecutes` | lib/pico/hardware.i2c.c:206-216 | What the loop of I2c.Reader can see change between two accesses to the controller is that some number of queued commands were carried out |
| `Ticks.ToTicks64IsNearest` | lib/common/include_platform/mlua/platform_common.h:27-36 | The reconstructed time is, modulo 2^64, the only one with these low bits from 2^31 ticks before now to just under 2^31 after |
| `Ticks.ReachedAgreesIff` | lib/host/include_platform/mlua/platform.h:44-47 | The 32-bit test agrees with comparing the reconstructed time, for every input: iff the time is not exactly 2^31 ticks ago (unless reconstruction wraps there) and the reconstruction does not wrap around 64 bits |
| `Ticks.ReachedDisagreesAtHalfRange` | lib/host/include_platform/mlua/platform.h:44-47 | A concrete input where they disagree |
| `Ticks.TimeoutDeadlineIff` | lib/common/include_platform/mlua/platform_common.h:20-24 | The deadline is the sum limited to the maximum, iff the 64-bit sum does not wrap, or wraps to the maximum or later |
| `Ticks.WrappedTimeoutIsInThePast` | lib/common/include_platform/mlua/platform_common.h:20-24 | A concrete timeout whose sum wraps gives a deadline in the past |
| `Ticks.DeadlineIsFaithful` | lib/common/mlua.int64.c:140-146 | A deadline read back at any time up to 2^31 ticks past it is now plus the timeout |
| `Ticks.LowBitsDecodeIff` | lib/common/include_mlua.int64/mlua/int64.h:138-147 | A time stored in 32 bits decodes to itself iff the clock is within half the range of it |
| `Ticks.StaleDeadlineIsMisread` | lib/common/mlua.int64.c:140-146 | Later than that it reads as a time in the future |
| `Alarms.EncodeIsFaithful` | lib/pico/pico.time.c:131-136 | The representation chosen for the next time decodes to it from now on until 2^31 ticks past it |
| `Alarms.NoDrift` | lib/pico/pico.time.c:112-208 | For every timer with delay -d started at a time, whichever representation its first time got, and every run of callbacks that return nil or true at most 2^31 ticks late: the k-th repeat is scheduled for exactly d + k*d after the start |
| `Alarms.NoDriftIff` | lib/pico/pico.time.c:112-139 | In every run of callbacks that return nil or true, a timer with delay -d is scheduled for each multiple of its period iff each callback returns while the time it was scheduled for can still be read: any time for a 64-bit value, within 2^31 ticks for a 32-bit one |
| `Alarms.PhaseKeptIff` | lib/pico/pico.time.c:127-136 | One repeat keeps its phase iff the callback returns while the time it was scheduled for can still be read: any time for a 64-bit value, within 2^31 ticks for a 32-bit one |
| `Alarms.OneTickTooLate` | lib/pico/pico.time.c:127-136 | A callback one tick later than that, and a repeat 2^32 ticks late |
| `Alarms.DelayKeepsTime` | lib/pico/pico.time.c:152-207 | A first time given by a delay decodes to itself, in the representation chosen for it, until 2^31 ticks past it |
| `Alarms.AlarmAtKeepsTimeIff` | lib/pico/pico.time.c:152-170 | An alarm at an absolute time keeps its time iff that is not more than 2^31 ticks in the past |
| `Alarms.FarPastIsFuture` | lib/pico/pico.time.c:152-170 | An alarm 2^31 + 1 ticks in the past that would ring 2^32 ticks after its time |
| `Alarms.RepeatKeepsPhase` | lib/pico/pico.time.c:127-130 | One repeat is relative to the scheduled time and not to the return of the callback, at least if that is no more than 2^31 ticks past it; Alarms.PhaseKeptIff says exactly when |
| `Alarms.LateCallbackSkips` | lib/pico/pico.time.c:127-130 | The other half of Alarms.PhaseKeptIff, for times stored in 32 bits: a callback that returns nearest to the k-th round of the 32-bit counter after the scheduled time, k > 0, makes the timer skip k * 2^32 ticks |
| `Alarms.PositiveDelayFollowsCallback` | lib/pico/pico.time.c:127-130 | A positive delay counts from the return of the callback, up to the end of time, and stays the delay |
| `Alarms.EndsIff` | lib/pico/pico.time.c:112-125 | An alarm ends iff its callback returns nil or 0, a repeating timer iff it returns false or 0; an alarm fails iff its callback returns a boolean; everything else is rescheduled |
| `Alarms.NewDelayCounts` | lib/pico/pico.time.c:122-138 | A returned delay counts from the return of the callback, or from the scheduled time if it is negative; it replaces the delay of a repeating timer and leaves an alarm an alarm |
| `Alarms.AlarmThread.Returned` | lib/pico/pico.time.c:112-139 | The step that replaces the stored time and delay refines the function the lemmas are about |
| `Int64Arith.DivideIsFloor` | lib/common/mlua.int64.c:308-338 | For all operands: quotient and remainder are the floor quotient and its remainder, min // -1 wraps to min, and both are errors iff the divisor is zero |
| `Int64Arith.DivModIdentity` | lib/common/mlua.int64.c:308-338 | For all lhs and rhs != 0, (lhs // rhs) * rhs + lhs % rhs is lhs modulo 2^64, and without wrapping except for min // -1; the remainder is zero or has the sign of rhs, and is smaller |
| `Int64Arith.ShiftMeaning` | lib/common/mlua.int64.c:205-214 | For every count: left shift multiplies by 2^n modulo 2^64, arithmetic right shift is floor division by 2^n, logical right shift is unsigned division by 2^n |
| `Int64Text.Parse` | lib/common/mlua.int64.c:62-92 | The parsing loops accept exactly the texts with a meaning and return it: the positional value modulo 2^64, negated after a minus sign |
| `Int64Grammar.AcceptsIff` | lib/common/mlua.int64.c:62-92 | A text has a meaning, and this one, iff it consists of blanks, an optional sign, for base 0 an optional 0x, 0X, 0o or 0b, digits of the base so chosen, and blanks, and the value of the digits, negated after a minus sign, is this one modulo 2^64 |
| `Int64Grammar.DigitsAreLetters` | lib/common/mlua.int64.c:78-85 | The digits are the characters of 0-9 and a-z, in this order |
| `Int64Text.DigitStringMeans` | lib/common/mlua.int64.c:78-90 | Every string of digits of a base from 2 to 36 parses to its positional value modulo 2^64 |
| `Int64Text.DecimalRoundTrip` | lib/common/mlua.int64.c:58-60 | The decimal text of every int64, including the minimum, parses back to it with base 0 and with base 10 |
| `Int64Text.HexRoundTrip` | lib/common/mlua.int64.c:229-243 | The hexadecimal text of every int64, at every width, parses back to it with base 16 |
| `Int64Grammar.HexIsCanonical` | lib/common/mlua.int64.c:229-243 | A hexadecimal text is in lower case, at least as wide as asked for, and has zeros in front only to be that wide |
| `Int64Grammar.DecimalIsCanonical` | lib/common/mlua.int64.c:58-60 | A decimal text has a minus sign iff the value is negative, and no zeros in front |
| `Int64Text.DecimalIsInjective` | lib/common/mlua.int64.c:58-60 | Different values have different decimal texts |
| `PerfectHash.LookupIsEntry` | core/module.c:271-283 | The lookup in the packed table is floor(N / 2^(index*bits)) mod 2^bits of the little-endian number N of all its bytes, and reads no byte past the one with the entry's last bit |
| `PerfectHash.LookupIsLabel` | core/module.c:271-283 | On a table that packs a list of labels it is the label at the index |
| `PerfectHash.JoinedIsNumber` | core/module.c:275-281 | Joining up to three bytes with shifts and bitwise or gives the number they form |
| `Hashing.ComputeHash` | core/module.c:262-269 | The loop stops at the terminating zero, and computes the hash of the key before it, below 2^31 |
| `Hashing.MixIsInjective` | core/module.c:262-269 | Before the sign bit is dropped no two seeds give the same hash of a key |
| `HashGenerator.GeneratorAgrees` | tools/gen/gen.lua:162-167 | The hash the generator of the tables computes on 64-bit integers is the one the program computes on 32-bit ones, for every key and seed |
| `HashPacking.PackHash` | tools/gen/gen.lua:237-253 | The loops of the generator that pack the labels, bit offset by bit offset, make a table that holds them all, so that PerfectHash.LookupIsLabel applies to it |
| `HashPacking.PutLabel` | tools/gen/gen.lua:243-250 | Putting one label adds it to the number of the table at its bit offset, and disturbs no other |
| `PerfectHash.ComputePerfectHash` | core/module.c:285-288 | The perfect hash over the packed table is the one over the list of labels |

## Left out

- The Lua C API, the stack, metatables, garbage collection (weak tables among it) and coroutine
  mechanics: a thread is an object with a link, a state and a deadline; the steps between
  yields are operations of a run.
- Handlers that run while a thread is closed and re-enter the scheduler: they are taken to leave
  the chains alone.
- Shutdown, thread names, statistics, the blocking flag, the values a thread returns or raises.
- The platform wait inside event dispatch and its return on the deadline: a pass may come at any
  time with any number of ticks.
- MainLoops.MainLoop.Kill: removes the THREADS entry before the joiners are resumed and not after
  it, as MainLoops.MainLoop.Terminate does; nothing runs in between.
- EventQueues.RunIsFifo: is about runs that remove an event only where that does not leave the
  tail pointer behind (the exact case of EventQueues.DisableKeepsFifoIff); what follows otherwise
  is the subject of EventQueues.LostForEver.
- EventQueues.LostForEver: a lost event is not disabled itself, nor is another one that the head
  pointer does not lead to; with an empty queue the walk for such an event starts from nowhere.
- NoLostWakeups.NoWakeupIsLost: an event has at most one waiter, is not disabled while it has
  one, and an event is not removed when that would leave the tail pointer behind (the exact
  case of EventQueues.DisableKeepsFifoIff).
- SchedulingJoins.NobodyStranded: is about runs in which each join takes a branch that records the
  caller; SchedulingJoins.JoinKeptIff says when one does.
- EventMask.Multi: a mask that is 0 or has only bit 31 set is excluded, because the code then
  counts the zeros of 0 or shifts by the width of the word.
- DnsSlots.SlotReuseIsSafe: is about runs in which no request ends, and no other event is disabled,
  while its event is the last of several pending ones; DnsSlots.DoneIsSafeIff and
  DnsSlots.SlotIsLeaked say what happens then. lwIP gives any answer and at most one callback;
  the conversion of addresses is not part of the model.
- Rings: the contents of datagrams and scan results, and the part of receiving that builds Lua
  values.
- TcpRecv.Tcp.RecvLoop: that pbuf_free_header of no bytes gives the same buffer back is taken from
  lwIP, which is not part of this model; so is that a new chain shares no buffer with the old one.
- TcpRecv.Tcp.HandleRecv: the fatal branch for an error without data is left out.
- TCP sending, accepting, closing: the sending loop bounds a chunk by the whole buffer, so
  conservation does not hold for it; the accept queue would only add an easier FIFO.
- Spi.Transfer.WriteReadLoop: promises nothing about what happens after a buffer is overrun. The
  initial size of a buffer is the default of this platform; how it grows beyond that, by half, is
  up to the Lua library, which is not part of this model, and so is what a buffer itself keeps on
  the Lua stack. The device at the other end of the wire sends any words.
- SPI and I2C registers other than the data, abort and interrupt state; interrupts are the moments
  at which a turn of a loop begins. The bits of a command are a record and not a word.
- I2c.Read: the registers may show any amount of room for commands and answer at any time, so it
  also covers a controller that holds the bus while its receive FIFO is full, which is what
  RX_FIFO_FULL_HLD_CTRL in the IC_CON register is for. I2cReads.NoByteIsLostIff is about schedules
  in which the transmit FIFO has 16 entries too; aborts and the deadline are not in those. The
  polling forms of I2C are library functions of the Pico SDK, which is not part of this model.
- I2c.Write: a STOP condition may be one detected earlier (I2cWrites.WaitsForOwnStopIff), so the
  return of a write says that the commands are out, not that the device has acknowledged them.
- I2cWrites.NeverEndsIff: a STOP of an earlier transfer is latched when the write begins or does not
  come at all; of what the code does to the controller only reading clr_tx_abrt clears the abort source, and
  selecting the target does not.
- I2c.TransfersAreFramedIff: counts the STOP a controller sends on an abort, and not what it does
  when it is disabled in the middle of a transfer that ran out of time.
- Ticks.DeadlineIsFaithful: is about 32-bit Lua integers; with 64-bit integers the conversions are
  the identity. The bitwise or of disjoint bits is written as a sum there.
- Alarms.NoDrift: needs each callback to return at most 2^31 ticks after the time it was scheduled
  for, and times below the maximum; Alarms.NoDriftIff says exactly when it holds. The
  callbacks do not return a new delay. The saturating addition of the Pico SDK is modelled from
  its documented meaning.
- Int64Arith.ShiftMeaning: the shift count -2^63 is excluded, because the code negates it.
- Int64Arith.DivideIsFloor: the sign test on the exclusive or of the operands is written as a
  comparison of signs. Mixed comparison of 64-bit integers and floats, construction from parts,
  and arithmetic on floats are left out; addition, subtraction and multiplication are the
  wrapped ones and would only add easy members.
- Int64Text.HexRoundTrip: printing is modelled from the meaning of the printf conversions; the
  classification of characters is that of the C locale.
- Watchers.NoSpuriousWakeup: is about runs in which no check raises an error while its thread watches
  events; Watchers.WatchersKeptIff and Watchers.StaleWatcherWakes say what happens then.
- PerfectHash.ComputePerfectHash: characters are the 32-bit values the code widens them to; how the
  generator finds the seeds and labels is left out.
- HashGenerator.GeneratorAgrees: is about characters that both sides widen in the same way, as they
  do for ASCII.
- Register bindings, littlefs, standard I/O, the loader, reset of the other core, build scripts, the
  test library, and the list, array, path and buffer modules: thin wrappers or easy members.
