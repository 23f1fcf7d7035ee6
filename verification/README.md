# A verified model of the BSP430 protocols

BSP430 is a C library for MSP430 microcontrollers. Much of what it is trusted for does not depend on the hardware's details: interrupt handlers and application code work together on linked lists, ring buffers, state machines and counters that wrap. This project models those cores in Dafny and proves what they promise.

Each part has up to three layers:

- a module of values and functions that says what every operation does to the whole state (`TimerAlarm`, `MuxAlarm`, `Console`, `Resource`, `SkyTraq`, `Uptime`, `Crc`, `Cli`);
- a `...Driver` module with the code in its own form, classes whose methods change registers, pointers and indices one by one, each method proved to make exactly that change of state;
- a `...Proofs` module with what follows: invariants of every step, statements over whole runs, round trips, error bounds.

`Words`, `Arithmetic`, `Bits`, `Lists` and `Options` hold the fixed-width arithmetic, division facts, bitwise operators, list removal and optional values that several parts share. Integers are unbounded in Dafny; wherever the C code computes in 8, 16, 32 or 64 bits the model cuts explicitly (`U16`, `S16`, `U32`, `S32`, `U64`, `S64`, `%`).

## The parts

**Timer alarms.** A 16-bit counter and a software overflow count make a 32-bit clock; an alarm compares 16 bits of its setting in hardware and 16 bits in the overflow handler. The model keeps an unbounded true time next to the registers. The steps are ticks, the overflow and compare interrupts, setting, cancelling, enabling, with ticks falling between the register accesses inside each operation. In every interleaving in which overflows are handled within half a cycle and setting an alarm takes at most `FUTURE_LIMIT` ticks, an alarm calls back at most once per setting, never before it is due unless it was forced, is never missed while its compare interrupt has priority, and after cancelling or disabling stays silent until it is set again.

**Multiplexed alarms.** Many alarms share one through a sorted linked list. Every added alarm is always in exactly one of the states waiting, removed, notified; notifications come in order of time, then of adding, also when callbacks add and remove alarms. The pointer code keeps the list sorted, and the dedicated alarm set for its head.

**Console.** A producer that fills a ring with interrupts disabled, the transmit interrupt that drains it, and the handshake by which a producer sleeps until there is room. Nothing is lost, repeated or reordered, and no wakeup is lost.

**Resources.** A recursive lock with a queue of waiters whose callbacks may claim, wait or cancel, which calls back again. Mutual exclusion in every reachable state, exactly who is called when the resource is released, and exactly which steps take a waiter off the queue.

**SkyTraq framing.** The receive and transmit state machines of the GPS driver. Received is what was sent, also for streams of messages and after noise; nothing is delivered that was not on the line with its checksum; fragments of memory are never lost or released twice.

**Uptime and NTP.** Which era a 32-bit uptime belongs to, wall-clock conversions with exact error bounds, and the client arithmetic of section 8 of RFC 5905.

**CRC.** Two independently written loops for the polynomial x^8 + x^5 + x^4 + 1: one is polynomial division, the other its mirror image.

**Commands.** Resolution of abbreviated commands over a tree of commands, and completion.

**Callback chains.** The chains through which interrupts reach all of the above.

## What the proofs found

Where the code and its documentation disagree, the model follows the code, and the exact condition under which the promise holds is proved.

- Removing a multiplexed alarm "guarantees" that it will not fire. From within a callback that is so exactly if the alarm is not among those already taken off the list by the running callback (`MuxAlarmProofs.RemoveSilencesUnlessFiring`).
- `ulBSP430timerCaptureCounter_ni` asks only that less than 32768 ticks passed since the capture. It is right exactly if, in addition, no overflow was handled since (`TimerAlarmProofs.CaptureCounterIffNoOverflowHandled`).
- The comment in the GPS capture handler allows 65535 ticks; the exact bound is 32768 (`TimerAlarmProofs.CaptureBySignExtension`).
- Setting an alarm may take as many ticks as `BSP430_TIMER_ALARM_FUTURE_LIMIT`, whatever that is chosen to be (`TimerAlarmProofs.SetInvariant`), and below 65536 not one more (`TimerAlarmProofs.SlowSetMissesAlarm`).
- A due alarm can go unnoticed only if its compare interrupt was held off for 65536 cycles, in which overflows were served (`TimerAlarmProofs.DueAlarmFires`, `TimerAlarmProofs.DueAlarmUnnoticed`); with the timers' interrupt priorities that cannot happen (`TimerAlarmProofs.PriorityNeverMisses`). A multiplexed alarm is taken off the list only while at most 2^31 ticks late (`MuxDriver.HeadTakenIff`).
- The 32-bit counter is wrong exactly if no overflow was pending, the counter was in its lower half, and the ticks between the two reads overflow it (`TimerAlarmProofs.CounterIsTrueTime`).
- A callback may add an alarm that is still to be notified by the same interrupt, for which removing it first does nothing. The loop then notifies just what it should exactly if that alarm is the last of its list and goes to the end of the shared one. Otherwise all alarms behind it in the shared list are notified although they are not due, and those behind it in the loop's own list are never notified and on no list any more (`MuxDriver.MuxShared.AddThenNotify`, `MuxDriver.BehindIsNotDue`).
- A console transmit buffer of one octet passes the configuration check and never sends anything (`Console.OnePlaceSendsNothing`).
- Console input is stepped by a remainder when received and by a mask when read. The header calls powers of two "most efficient"; over all runs from an empty buffer, input is in order exactly for those (`ConsoleRx.InOrderExactlyForPowersOfTwo`); for any other size octets that were read come back (`ConsoleRx.ReadAgain`).
- The claim count of a resource is 16 bits wide; the invariant is kept exactly by the steps that do not wrap it, which are named there by what a caller can see (`ResourceProofs.StepInvariantIffNoWrap`). A successful claim removes the waiter from the queue only if it is the first one (`ResourceProofs.SuccessDequeuesIffFirstClaim`), though the header says any.
- A received frame is delivered exactly if it is not empty and fits its fragment (`SkyTraqProofs.FrameDeliveredIffFits`). A transmission is a frame exactly if its message is not empty; for an empty one the handler sends 65536 octets of memory, as it compares its index with the length only after stepping it (`SkyTraqProofs.TransmitsFrameIffNotEmpty`, `SkyTraqProofs.TransmitsOctets`).
- The header says that there is no notification of messages dropped because they were corrupt. There always is one, with no message, on the next octet (`SkyTraqProofs.DropsAnnounced`, `SkyTraqProofs.CorruptFrameAnnounced`).
- The header says that the transmit completion callback gets the number of octets sent. It gets 0 (`SkyTraqProofs.CompletionSaysZero`).
- `iBSP430uptimeAsNTP` shifts the duration of an era out of its 64 bits, so that it is right exactly in the era of the epoch (`UptimeProofs.AsNtpIffSameEra`). `iBSP430uptimeAsTimeval` is right in all three eras.
- Setting the epoch gives the time back exactly if the given uptime is of the era in which the epoch is set (`UptimeProofs.SetThenGet`).
- The round-trip time is meant to saturate, but its product is cut to 64 bits first, so that it never does (`UptimeProofs.RoundTripTimeExactIff`).

## Model

| member | source | states |
|---|---|---|
| TimerAlarmProofs.CounterIsTrueTime | src/periph/timer.c:352-393 | with any number of ticks between reading the counter and reading the overflow flag, the 32-bit counter is the true time of the first read iff an overflow was already pending, or the counter was in its upper half, or those ticks do not overflow it |
| TimerAlarmProofs.CaptureBySignExtension | src/sensors/skytraq.c:396-401 | the sign extension of the capture handler recovers the capture time iff at most 32768 ticks passed |
| TimerAlarmProofs.CaptureCounterIffNoOverflowHandled | src/periph/timer.c:395-401 | the captured time is right iff no overflow was handled since the capture |
| TimerAlarmProofs.SetVerdict | src/periph/timer.c:577-645 | in true time: an alarm is scheduled iff it is enabled, not set and at least the limit ahead; for a disabled one, one already set, one past and one too near, each its own answer, of the values in the header; a refused setting changes nothing |
| TimerAlarmProofs.CancelVerdict | src/periph/timer.c:647-665 | 1 iff the alarm is enabled and set, which is then not set, its compare interrupt off and nothing pending, its history ending with the cancellation; 0 iff enabled and not set, -1 iff disabled, with no change |
| TimerAlarmProofs.EnableVerdict | src/periph/timer.c:536-575 | after disabling the alarm is neither enabled nor set, and its compare interrupt off; one that was set has been cancelled; enabling does nothing else; the clock goes on either way |
| TimerAlarmProofs.CompareVerdict | src/periph/timer.c:477-499 | the compare interrupt calls back iff the alarm is set, at the time of the call; afterwards the alarm is not set and nothing is pending |
| TimerAlarmProofs.ConfigureInvariant | src/periph/timer.c:425-460 | arranging the compare interrupt neither enables it before the cycle in which the alarm is due nor misses an alarm already passed in its cycle |
| TimerAlarmProofs.OverflowInvariant | src/periph/timer.c:462-476 | the overflow interrupt keeps: registers describe the alarm, not early, not missed, history in order |
| TimerAlarmProofs.SetInvariant | src/periph/timer.c:577-631 | setting, forced or not, keeps the same if it takes at most the limit in ticks, spread over its register accesses; for limits of a cycle or more, however long it takes |
| TimerAlarmProofs.StepInvariant | src/periph/timer.c:433-665 | every step keeps the invariant |
| TimerAlarmProofs.RunInvariant | src/periph/timer.c:433-665 | every run keeps it |
| TimerAlarmProofs.CallbacksAnswerSettings | src/periph/timer.c:477-499 | over any run, each callback directly follows its own setting in the alarm's history, so comes at most once per setting and not after a cancel, and is less than the limit early |
| TimerAlarmProofs.NeverEarlyUnlessForced | src/periph/timer.c:477-499 | over any run without forced settings no callback comes before its setting |
| TimerAlarmProofs.SilentUntilSetAgain | src/periph/timer.c:536-665 | over any run, after cancelling or disabling no callback comes until the alarm is set again |
| TimerAlarmProofs.DueAlarmFires | src/periph/timer.c:433-499 | over any run, for a set alarm whose time has come and with no overflow pending, the compare interrupt is enabled and pending, and calls back, iff not: a later cycle with the same 16-bit number, and the counter still below the setting's low half |
| TimerAlarmProofs.DueAlarmUnnoticed | src/periph/timer.c:440-459 | that exception is reached by a run: with the compare interrupt held off for 65536 cycles |
| TimerAlarmProofs.PriorityNeverMisses | src/periph/timer.c:433-499 | no missed alarm, however late: over any run in which the overflow interrupt runs only when the compare interrupt cannot, as the timers' priorities have it, a due alarm can fire and calls back |
| TimerAlarmProofs.SlowSetMissesAlarm | include/bsp430/periph/timer.h:1555-1566 | for every limit of less than a cycle, a run leads to a state in which setting an alarm with one tick more than the limit passes it over |
| TimerAlarmProofs.SetTakesTime | src/periph/timer.c:577-631 | the time after a setting is at most the ticks allotted to its parts |
| AlarmDriver.AlarmRecord.Set | src/periph/timer.c:577-631 | the same for setting, with its return value |
| MuxAlarmProofs.InsertSplits | src/periph/timer.c:759-769 | a new alarm lands after all that are due no later and before all that are due later, the others unmoved |
| MuxAlarmProofs.DueCountSplits | src/periph/timer.c:679-684 | the walk of the callback separates exactly the due alarms from those not due |
| MuxAlarmProofs.StepInvariant | src/periph/timer.c:670-797 | every step keeps: both lists sorted and without duplicates, everything detached is due, and the outstanding addings are exactly the entries of the lists |
| MuxAlarmProofs.CollectInvariant | src/periph/timer.c:679-690 | collecting moves the due prefix without changing the order of notification, and leaves nothing due on the list |
| MuxAlarmProofs.EachAddingSettledOnce | src/periph/timer.c:670-797 | over any run, each adding is either waiting or was settled exactly once, removed, or notified no earlier than due, even though the dedicated alarm may fire early |
| MuxAlarmProofs.QueuedInOrder | src/periph/timer.c:759-769 | an added alarm queues behind those being notified, those due earlier and those due at the same time, and ahead of those due later |
| MuxAlarmProofs.StepKeepsOrder | src/periph/timer.c:670-797 | no step reorders two entries of the queue |
| MuxAlarmProofs.NotifiedInQueueOrder | src/periph/timer.c:689-697 | over any run that removes neither, an entry ahead of another is notified before it |
| MuxAlarmProofs.EarlierDueFirst | src/periph/timer.c:670-797 | over any run from an empty shared alarm, of two alarms pending at the same time the one due earlier is notified first, unless one of them is removed |
| MuxAlarmProofs.FiringIsNotified | src/periph/timer.c:691-696 | every alarm detached by the callback is notified at its turn |
| MuxAlarmProofs.PendingIsNotified | src/periph/timer.c:670-699 | once its time has come a pending alarm is notified, after those ahead of it, and the callback is told the time at which it runs |
| MuxAlarmProofs.RemoveSilencesUnlessFiring | include/bsp430/periph/timer.h:1834-1840 | after removal no run notifies the alarm unless it is added again, iff it was not among those detached by a running callback |
| MuxDriver.MuxShared.constructor | src/periph/timer.c:701-724 | the empty shared alarm is valid, with its dedicated alarm enabled and not set |
| MuxDriver.MuxShared.Add | src/periph/timer.c:746-773 | the pointer code inserts as the model says; list acyclic and sorted, dedicated alarm set for the head |
| MuxDriver.MuxShared.Place | src/periph/timer.c:756-767 | the walk by wrapped differences finds the place that true times ask for |
| MuxDriver.MuxShared.LinkIn | src/periph/timer.c:768-769 | the two pointer assignments insert one record and disturb no other |
| MuxDriver.MuxShared.Remove | src/periph/timer.c:775-797 | exactly the record is unlinked, if there; dedicated alarm set for the new head, or not at all |
| MuxDriver.MuxShared.Collect | src/periph/timer.c:670-690 | the callback detaches exactly the due records and sets the dedicated alarm for the rest |
| MuxDriver.MuxShared.WalkDue | src/periph/timer.c:679-684 | the walk stops at the first record whose wrapped difference from the time is positive |
| MuxDriver.TakenIsDue | src/periph/timer.c:679-684 | for settings within half the clock's range those are exactly the due records |
| MuxDriver.HeadTakenIff | src/periph/timer.c:680 | the head is taken off the list iff its lateness, in 32 bits, is at most 2^31 ticks |
| MuxDriver.MuxShared.Detach | src/periph/timer.c:685-690 | the cut leaves two separate, properly ended lists |
| MuxDriver.MuxShared.NotifyNext | src/periph/timer.c:691-696 | a record is off every list before its callback is called |
| MuxDriver.MuxShared.NotifyFiring | src/periph/timer.c:689-697 | the loop notifies each detached record once, in order, and ends, whatever records its callbacks add and remove meanwhile and however long they take, as long as no overflow falls due; the shared list is then what those callbacks make of it, valid, and the dedicated alarm set for its head |
| MuxDriver.MuxShared.PerformAll | src/periph/timer.c:691-797 | a callback's additions and removals, in their order, with time passing in and between them |
| MuxDriver.LoopIsRun | src/periph/timer.c:689-697 | the loop with its callbacks is a run of the steps of `MuxAlarm`, for which the statements over whole runs are proved |
| MuxDriver.MuxShared.Elapse | src/periph/timer.c:670-797 | time passing between the operations keeps the lists, and the dedicated alarm set for the head |
| MuxDriver.MuxShared.OverflowInterrupt | src/periph/timer.c:958-981 | so does the overflow interrupt |
| MuxDriver.HeadCanRun | src/periph/timer.c:433-499 | an alarm at most 2^31 ticks late, with no overflow pending, has its compare interrupt enabled and pending |
| MuxDriver.MuxShared.ServeDueHead | src/periph/timer.c:670-690 | no multiplexed alarm is missed: once the head is due and no overflow waits, the compare interrupt runs and detaches the head and all the due alarms, and no others, in order |
| MuxDriver.RunsOnAsDetachedIff | src/periph/timer.c:768-769 | after an add in a callback the list of the notification loop is what it was iff the added record is not on it, or is the last of it and the last of the shared list |
| MuxDriver.MuxShared.LinkInAnyway | src/periph/timer.c:768-769 | otherwise that list runs on into the shared one from the added record on |
| MuxDriver.MuxShared.NotifyAlong | src/periph/timer.c:691-696 | the notification loop takes every record of the list it has, due or not |
| MuxDriver.MuxShared.AddThenNotify | src/periph/timer.c:691-769 | the two together: just the detached records are notified iff that condition holds; otherwise the records behind the new place are notified too, the detached ones behind the added record are not and end on neither list, and the shared list ends with the added record |
| MuxDriver.BehindIsNotDue | src/periph/timer.c:679-685 | the records notified with it so are not due |
| Console.StepInvariant | src/utility/console.c:138-212 | every step of producer, interrupt and UART keeps: accepted = sent + buffered; interrupt enabled iff something is buffered; a wake request above 0 exceeds the free space, one below 0 means the buffer is not empty, and either belongs to a sleeping producer |
| Console.InterruptVerdict | src/periph/eusci.c:613-657 | the transmit interrupt sends the oldest octet; it is off afterwards iff nothing is left, with its flag up again iff there was nothing to send |
| Console.PutVerdict | src/utility/console.c:182-212 | with room an octet is accepted and the interrupt on; without, nothing changes but that the producer sleeps, and is to be woken for one free place |
| Console.WaitVerdict | src/utility/console.c:563-598 | waiting for more than fits, or for what is there, changes nothing; otherwise the producer sleeps for just what was asked |
| Console.OtherVerdicts | src/utility/console.c:182-212 | a producer that wakes goes on iff its goal is met, with its octet accepted, and sleeps on otherwise |
| Console.OutputIsPrefixOfInput | src/utility/console.c:138-212 | over any run nothing is lost, repeated or reordered, and the buffer never overflows |
| Console.SleeperIsServed | src/utility/console.c:192-202 | a sleeping producer's goal is not met, there is something to send, and the interrupt that sends it is on its way |
| Console.WokenWhenGoalMet | src/utility/console.c:156-174 | no lost wakeup: a sleeper is woken by exactly the transmit interrupt that meets its goal, after at most as many as there are octets buffered |
| Console.OnePlaceSendsNothing | src/utility/console.c:119-122 | a buffer of one place, which the check admits, never sends anything |
| ConsoleDriver.RingPop | src/utility/console.c:151-155 | stepping the tail removes the oldest octet |
| ConsoleDriver.RingPush | src/utility/console.c:190-204 | storing at the head and stepping it appends one octet |
| ConsoleDriver.ConsoleTx.constructor | src/utility/console.c:124-130 | the initial state, for every size that the configuration admits |
| ConsoleDriver.ConsoleTx.TxIsr | src/periph/eusci.c:613-657 | the interrupt over head, tail, wake request and UART registers does what the model says, and ends low power mode iff the goal is met |
| ConsoleDriver.ConsoleTx.Queue | src/utility/console.c:182-212 | the producer's loop ends with the octet accepted, without waiting if there is room |
| ConsoleDriver.ConsoleTx.WaitForTxSpace | src/utility/console.c:563-598 | for every buffer: -1 iff more is asked than the buffer holds; otherwise on return the space is there, or the buffer empty if the request is negative; 0 iff that was so before, with no change; else 1 |
| ConsoleRx.RxBuffer.RxIsr | src/utility/console.c:83-105 | the ring keeps the last octets received, one less than its size |
| ConsoleRx.RxBuffer.GetChar | src/utility/console.c:398-415 | for every size, reading returns the oldest octet, -1 if there is none, and moves the tail as the model says; for a power of two that removes just that octet |
| ConsoleRx.InOrderExactlyForPowersOfTwo | src/utility/console.c:83-105 | over all runs of receiving and reading from an empty buffer, reading returns what a queue would that loses its oldest octet when full, iff the size is a power of two |
| ConsoleRx.ReadAgain | src/utility/console.c:409 | for any other size, once as many octets as its lowest bit says were received, each read at once, all of them are in the buffer again and the next read returns the first |
| ConsoleRx.MaskIsModulo | src/utility/console.c:409 | masking with one less than a power of two is the remainder |
| ResourceProofs.StepInvariantIffNoWrap | src/resource.c:72-165 | a claim, release or cancellation keeps: held iff counted, only the holder has claims and the count is their number, no waiter queued twice; iff it is not, with 65535 claims outstanding, a claim by the holder, or the cancellation of the first waiter where the next that does not cancel claims and is the holder |
| ResourceProofs.MutualExclusion | src/resource.c:72-165 | in every reachable state at most one party has claims outstanding, and the count is their number |
| ResourceProofs.ClaimVerdict | src/resource.c:72-119 | a claim succeeds iff the resource is free or the claimant its holder, who then holds it with one more claim; a refused one changes neither holder nor count |
| ResourceProofs.ClaimQueues | src/resource.c:72-119 | a refused waiter is last for FIFO, first for LIFO, where it was if queued already, and nowhere if it does not wait; a first claim takes out its waiter, any other leaves the queue alone |
| ResourceProofs.StaysQueuedIff | src/resource.c:72-165 | a queued waiter is off the queue after a step iff the step is a first claim naming it, its cancellation, or a release or cancellation that calls it and it cancels or claims successfully |
| ResourceProofs.RefusedStaysQueued | src/resource.c:72-165 | over any run, a refused waiter that waits stays queued until such a step |
| ResourceProofs.SuccessDequeuesIffFirstClaim | include/bsp430/resource.h:180-186 | a successful claim leaves its waiter out of the queue iff the resource was free or the waiter was not queued |
| ResourceProofs.NotifyVisits | src/resource.c:151-165 | notification of a free resource calls, in queue order and once each, the leading waiters that cancel and the first that does not; that one holds the resource and is off the queue if it claims |
| ResourceProofs.NotifyHeld | src/resource.c:151-165 | notification of a resource that is held: the same waiters are called, those that cancel leave, and the first that does not stays, claiming only if it is itself the holder |
| ResourceProofs.ReleaseHandsOn | src/resource.c:121-149 | releasing the last claim does that; an earlier one only counts down; by another than the holder, nothing |
| ResourceProofs.CancelBehind | src/resource.c:151-165 | cancelling a waiter that is not the first takes out just that one, the others in their order, and calls nobody |
| ResourceProofs.CancelFirst | src/resource.c:151-165 | cancelling the first takes it out and calls back those behind it |
| ResourceProofs.CancelAbsent | src/resource.c:151-165 | cancelling no waiter, or one that is not queued, changes nothing and calls nobody |
| ResourceDriver.SharedResource.RemoveWaiter | src/resource.c:42-70 | the pointer walk removes exactly that waiter from the queue |
| ResourceDriver.SharedResource.Claim | src/resource.c:72-119 | the pointer code does what the model says: holder, count, first-success removal, registration |
| ResourceDriver.SharedResource.Register | src/resource.c:96-116 | a waiter already queued keeps its place; otherwise last for FIFO, first for LIFO |
| ResourceDriver.SharedResource.Callback | include/bsp430/resource.h:99-124 | callbacks that claim, wait or cancel re-enter the code and end, and their answer is returned |
| ResourceDriver.SharedResource.CancelWait | src/resource.c:151-165 | the waiter is removed; if it was first, the new first is called back and its answer returned, otherwise 0 |
| ResourceDriver.SharedResource.Release | src/resource.c:121-149 | -1 and no change unless called by the holder; the last release frees the resource, calls the first waiter and returns its answer, otherwise 0 |
| SkyTraqProofs.StepOwns | src/sensors/skytraq.c:151-252 | outside Unsync a fragment is owned and the index is within it |
| Bits.XorBit | src/sensors/skytraq.c:206 | a bit of `x ^ y` is set iff it is set in exactly one of them |
| SkyTraqProofs.ChecksumIsParity | src/sensors/skytraq.c:323 | each bit of the checksum is the parity of that bit over the octets |
| SkyTraqProofs.HexDigits | src/sensors/skytraq.c:148-149 | the checksum digits are those of 0123456789ABCDEF, each with its place as its value |
| SkyTraqProofs.FeedLedger | src/sensors/skytraq.c:151-252 | over any input every fragment got is handed over or released exactly once, except one still owned |
| SkyTraqProofs.Resynchronizes | src/sensors/skytraq.c:151-252 | from any state, on any input, the machine is back in Unsync within the room left in its fragment and four octets |
| SkyTraqProofs.FrameDelivered | src/sensors/skytraq.c:199-248 | a binary frame that fits is delivered iff its checksum is right |
| SkyTraqProofs.SentenceDelivered | src/sensors/skytraq.c:187-238 | an NMEA sentence that fits is delivered, with a terminating NUL, iff its two digits are its checksum |
| SkyTraqProofs.FrameDeliveredIffFits | src/sensors/skytraq.c:199-248 | the message of a correct frame is delivered iff it is not empty and fits |
| SkyTraqProofs.OnlyReceivedDelivered | src/sensors/skytraq.c:151-252 | whatever is received, all that is ever delivered was received as one uninterrupted frame or sentence around it, with its length and the right checksum |
| SkyTraqProofs.TransmitsOctets | src/sensors/skytraq.c:294-373 | what the transmit interrupts emit for any length, after which the transmitter is idle: for length 0, the 65536 octets in memory from the message pointer on |
| SkyTraqProofs.TransmitsFrameIffNotEmpty | src/sensors/skytraq.c:294-373 | that is the frame of the message iff it is not empty |
| SkyTraqProofs.CompletionSaysZero | src/sensors/skytraq.c:337-350 | the completion callback is called once for a transmission, with 0, and the message let go |
| SkyTraqProofs.IdleInterrupt | src/sensors/skytraq.c:345-350 | an interrupt without a transmission sends nothing and completes nothing |
| SkyTraqProofs.DropsAnnounced | src/sensors/skytraq.c:161-168 | over any input, if anybody listens, a message is dropped only after a callback without a message, given its length, and a fragment refused only before one, given 0; no other such callbacks come, and if nobody listens none |
| SkyTraqProofs.CorruptFrameAnnounced | src/sensors/skytraq.c:161-168 | whatever octet follows a corrupt frame brings that callback |
| SkyTraqProofs.RoundTrip | src/sensors/skytraq.c:151-373 | what is sent for a message is received as that message, once, and the line end leaves the receiver between messages |
| SkyTraqProofs.StreamDelivered | src/sensors/skytraq.c:151-373 | any sequence of messages arrives as sent: each once, in order, nothing else |
| SkyTraqProofs.FrameAfterNoiseDelivered | src/sensors/skytraq.c:151-252 | whatever state noise left the receiver in, within the bound above a frame is delivered again |
| SkyTraqDriver.Receiver.RxIsr | src/sensors/skytraq.c:151-252 | the interrupt over fragment memory, index and checksums does what the model says, every store within the fragment |
| SkyTraqDriver.Transmitter.Start | src/sensors/skytraq.c:359-373 | refused with no change unless idle |
| SkyTraqDriver.Transmitter.TxIsr | src/sensors/skytraq.c:294-353 | the interrupt does what the model says, and disables itself iff the transmitter is then idle |
| SkyTraqDriver.Transmitter.SendAll | src/sensors/skytraq.c:294-373 | interrupts until disabled put the frame on the line iff the message is not empty, and call the completion callback once |
| UptimeProofs.EraIsExact | src/utility/uptime.c:364-402 | for true times within half an era of the update, the era is the exact difference of eras, and the epoch is refused iff it is invalid, or 3/8 of an era away or more |
| UptimeProofs.EpochConstants | include/bsp430/utility/uptime.h:633-730 | NTP time begins 70 years, 17 of them leap years, before 1970; the epoch becomes invalid at 3/8 of an era |
| UptimeProofs.RelativeIsFloor | src/utility/uptime.c:425-432 | seconds and microseconds of a duration are its microseconds rounded down, normalised |
| UptimeProofs.WithinOneMicrosecond | src/utility/uptime.c:570-621 | the wall clock is within one microsecond of the exact linear clock rounded down, equal to it in the era of the epoch |
| UptimeProofs.WallClockMonotone | src/utility/uptime.c:570-621 | the wall clock never goes back, also where the counter wraps |
| UptimeProofs.SetEpochIs | src/utility/uptime.c:481-524 | the stored epoch is the requested time less the uptime, rounded, through 64-bit and 32-bit wrapping |
| UptimeProofs.SetEpochFromNtpIs | src/utility/uptime.c:481-495 | the epoch set in NTP time is stored as given, valid, updated now, and in microseconds after 1970 rounded down, if that fits |
| UptimeProofs.SetEpochFromTimevalNtp | src/utility/uptime.c:511-524 | the epoch stored in NTP time is the requested time less the uptime |
| UptimeProofs.SetThenGet | src/utility/uptime.c:511-524 | setting the epoch and asking for the same uptime gives the time back, at most two microseconds low and never high, iff the uptime is of the era of the update |
| UptimeProofs.AsNtpIffSameEra | src/utility/uptime.c:526-568 | the NTP time of an uptime is right iff the uptime is of the era of the epoch |
| UptimeProofs.SetThenGetNtp | src/utility/uptime.c:481-568 | setting the epoch in NTP time and asking for the NTP time of an uptime within its reach gives back the epoch and the time since it, in 64 bits |
| UptimeProofs.ExchangeBounds | src/utility/uptime.c:650-655 | section 8 of RFC 5905: the delay is the sum of the two ways; the offset is wrong by half of their difference, rounded toward zero, so by at most half of the delay and one unit |
| UptimeProofs.AdjustmentIsExactOrSaturates | src/utility/uptime.c:659-670 | where the test passes nothing overflows and the milliseconds are exact, rounded down; elsewhere they saturate with the sign |
| UptimeProofs.RoundTripTimeExactIff | src/utility/uptime.c:671-679 | the round-trip time is exact iff its product fits 64 bits, and never saturates |
| UptimeDriver.Clock.EpochEra | src/utility/uptime.c:364-402 | the code's branches compute the model's era |
| UptimeDriver.Clock.SetEpochFromNtp | src/utility/uptime.c:481-495 | the whole new epoch |
| UptimeDriver.Clock.SetEpochFromTimeval | src/utility/uptime.c:511-524 | wrapping at each step is wrapping once |
| UptimeDriver.Clock.AsTimeval | src/utility/uptime.c:570-621 | refuses, and invalidates the epoch, iff the time is out of its reach; otherwise the microseconds of the model's instant below the second, and its seconds wrapped to 32 bits, through wrapping at each step |
| UptimeDriver.Clock.Normalize | src/utility/uptime.c:607-615 | the loops end with the microseconds below a second, and the seconds carried or borrowed |
| UptimeDriver.Clock.AsNtp | src/utility/uptime.c:526-568 | the model's NTP time; with validation bypassed, the fixed epoch of the header |
| Crc.Sht21Crc | src/sensors/sht21.c:70-90 | the nested loops compute the CRC function |
| Crc.OnewireCrc | src/utility/onewire.c:160-180 | the nested loops compute the reflected CRC function |
| CrcProofs.CrcIsTheRemainder | src/sensors/sht21.c:70-90 | the CRC, and no other octet, is the remainder of M(x) x^8 by x^8 + x^5 + x^4 + 1, for messages of any length |
| CrcProofs.ZeroCheck | src/sensors/sht21.c:156 | the CRC over data and an octet is 0 iff that octet is the CRC of the data |
| CrcProofs.BurstDetected | src/sensors/sht21.c:338 | messages of one length that differ only within eight consecutive bits have different CRCs |
| CrcProofs.ReverseBitsReverses | src/utility/sharplcd.c:162-166 | the masks and shifts reverse the order of the bits |
| CrcProofs.ReverseTwice | src/utility/sharplcd.c:162-166 | and doing it twice does nothing |
| CrcProofs.TurnsMirrored | src/utility/onewire.c:171-177 | one turn of one loop is one turn of the other in the mirror |
| CrcProofs.CrcsMirrored | src/utility/onewire.c:160-180 | the reversed 1-Wire CRC is the SHT21 CRC of the reversed octets, for all data |
| CrcProofs.OnewireZeroCheck | src/utility/onewire.c:205-207 | the serial number check passes iff its last octet is the CRC of the others |
| Cli.Matches | src/utility/cli.c:166-175 | exactly the commands whose keys begin with the word |
| CliProofs.TextSplits | src/utility/cli.c:62-92 | a text is space, its first word, which holds none, and a rest that is empty or begins with space |
| CliProofs.SpaceCodes | src/utility/cli.c:62-92 | space is what `isspace` calls so in the C locale: the codes 9 to 13 and 32 |
| CliDriver.MatchesOne | src/utility/cli.c:166-175 | in the order of the set: one more command joins them at the end iff its key does |
| CliProofs.ProcessResolvesWords | src/utility/cli.c:189-242 | streaming resolution is the fold of unique-prefix matching over the words; the handler gets an untouched suffix of the input, with just the words not resolved |
| CliProofs.EndingExplained | src/utility/cli.c:208-241 | each diagnostic or handler call says what happened: several matches, none, missing subcommand, no handler |
| CliProofs.AppendLengthIsCommonPrefix | src/utility/cli.c:635-656 | registering candidates one by one computes their longest common prefix |
| CliProofs.CompletionIgnoresOrder | src/utility/cli.c:635-656 | whatever their order |
| CliProofs.ResolutionShape | src/utility/cli.c:666-676 | what completion finds recorded: the text from which the last command was resolved begins with a prefix of its key |
| CliProofs.TextsBeginWithWords | src/utility/cli.c:666-676 | and it begins with the word of the same number |
| CliProofs.StuckIff | src/utility/cli.c:207-241 | resolution stops for want of a single match iff no word was resolved, or a word is left and the last command has subcommands |
| CliProofs.CompletionIsCommonPrefix | src/utility/cli.c:678-789 | where the text ends in the last letter of a word up to which all words resolve, that word and the offered text are the key of its command, with a space, the one candidate; otherwise the first word not resolved, or the empty one, and the offered text are the longest common prefix of all candidates in the last scope; a space is offered then iff anything is, and that is the whole of the only one |
| CliDriver.NextToken | src/utility/cli.c:62-92 | the loops find the first word and what follows it |
| CliDriver.MatchCommand | src/utility/cli.c:144-187 | the number of matching commands, negated for an empty word, and the match if there is one |
| CliDriver.CompletionData.Register | src/utility/cli.c:635-656 | the comparison loop keeps the common prefix of all candidates so far |
| CliDriver.ReverseChain | src/utility/cli.c:344-358 | the in-place loop leaves the same links in reverse order |
| CliDriver.ReverseAndRestore | src/utility/cli.c:389-399 | reversing there and back restores every link |
| Chains.Chain.Link | include/bsp430/periph.h:533-536 | the node becomes the first, the others unmoved |
| Chains.Chain.Unlink | include/bsp430/periph.h:558-568 | exactly that node is taken out, the others in their order |
| Chains.Chain.Invoke | include/bsp430/periph.h:461-472 | the loop calls the nodes that the model says and returns all flags together |
| Chains.CalledUpToFirstBreak | include/bsp430/periph.h:461-496 | those are exactly the prefix up to and including the first that breaks the chain |
| Chains.SetAlarmEnabled | src/periph/timer.c:536-575 | both nodes of the alarm are linked or unlinked as its flag changes, all others unmoved |
| Chains.SetEnabledRelinks | src/periph/timer.c:536-575 | that is the model's change, and only on the alarm's own chains |
| Chains.ChainMembership | src/periph/timer.c:536-575 | over any calls on any alarms, each alarm is on both its chains, once, iff its flag is set |

## Left out

- The hardware registers beyond the flags used here; clock trimming, pin configuration, bus transfers by busy waiting, LED, LCD drawing, real-time clock and port drivers: plumbing or small finite tables.
- Timers: one capture/compare block with one alarm is modelled at a time; several alarms on one timer share only the counter and the chains, and the chains are in `Chains`.
- Timers: reading the interrupt vector, which clears the overflow flag, and counting the overflow are one step; the capture modes, pulse capture, delays and the reading of an asynchronous counter (`uiBSP430timerBestCounterRead_ni` is an exact read) are not modelled.
- Timers: signed overflow in the computation of delays, undefined in C, is taken as two's complement wrapping.
- MuxDriver.MuxShared.NotifyFiring: what a callback does is given beforehand, as a list of additions, removals and ticks for each record; it does not depend on what it finds. No overflow interrupt is served in the loop, which runs with interrupts disabled.
- MuxDriver.MuxShared.Add: adding a record that is on the shared list already is excluded; the code would link the list into a circle. What adding one that the running callback has detached does is in `MuxDriver.MuxShared.AddThenNotify`, not in the steps of `MuxAlarm`.
- Console: one thread of producers; the translation of line ends, formatting, and switching between interrupt-driven and polled output (`iBSP430consoleTransmitUseInterrupts_ni`, `iBSP430serialSetHold_rh` by third parties) are not modelled. The console callback is alone on its chain.
- ConsoleDriver.ConsoleTx.Sleep: only the UART ends low power mode there; other wakeups are steps of `Console`.
- ConsoleDriver.ConsoleTx.Queue: requires a buffer of two places or more, because with one place it does not return.
- Resources: the variant that spins on misuse for diagnosis. Callbacks are limited to claiming for their own waiter, keeping waiting and cancelling themselves; a callback that does several of these or acts on other waiters is not modelled.
- SkyTraq: the fragment pool is abstract: a request is given memory of some size or none, and shrinking a delivered fragment succeeds. Time stamps and what the callbacks return are not modelled.
- UptimeProofs.SetThenGet: the requested time must fit the 32-bit `time_t`, as must the time at uptime zero.
- UptimeProofs.ExchangeBounds: offset and ways are limited to the 34 years (2^30 seconds) for which RFC 5905 states the exchange, in which the signed 64-bit sum does not overflow.
- Uptime: packet validation, byte order and transmit-field set-up of NTP packets; delays. The theorems about the wall clock are about the instant before its seconds are cut to 32 bits.
- CRC: the bus transactions around the checks.
- Commands: quoted tokens, completion helpers, the line editor, help and diagnostic display, and value extraction. Keys and input contain no NUL character.
- Chains: callbacks that unlink nodes of the chain being walked, which the header forbids.
