# A model of a Cortex-M4 kernel and its DHCP server

This project models the concurrency core, the heap, the network mailbox and the
latency histogram of a small preemptive kernel, and the data core of the DHCP
server that runs on it, and proves what they promise.

**Kernel.** Every task control block is in at most one of several intrusive lists
that share one `next` field; its effective priority has to equal a minimum over a
wait-for graph that changes at every lock and unlock. `KernelState` gives each
kernel entry (create, put, select, wait, post, lock, unlock, sleep, tick, exit) as
one atomic step on an abstract state `K`, since each body runs with interrupts
masked. `KernelInvariant` says what every step keeps: each task is in exactly the
list its state names, every list is in order, at most one task runs, owned lists
and owner fields agree, and every effective priority is exact. `Inheritance`,
`KernelSteps`, `MutexSteps` and `Unlocking` prove it step by step, `KernelRuns`,
`KernelTiming`, `SleepTiming`, `SemaphoreRuns`, `MutexFairness`, `WaitCycles` and
`BoundedWait` draw the conclusions for whole runs, `KernelOutcomes` says what each call
does for its caller, `KernelWitness` gives the inputs on which the code fails.
`KernelCode.Kernel` is the kernel as it is written: tables of fields, list heads and
tails and link fields changed in place by pointer-walking loops (`ListOps`,
`TaskLinks`, `OwnedLists`), each entry proved to take its view to exactly what the
step function says.

**DHCP.** `DhcpOptions` and `DhcpMessage` give the message format (section 2 of RFC
2131, section 2 of RFC 2132) as a recursive specification with the parsing loop
proved against it, `DhcpBuild` writes replies into a caller's array, `Leases` is the
lease table as a state machine over client messages, `LeaseOutcomes` what each message
does to it, `Journal` the append-only log in flash, `LeaseServer.Server` the server that
keeps both in place, and `DhcpService` its loop, from a datagram to the reply.

**The rest.** `HeapBlocks`, `HeapCode`, `HeapRuns` and `HeapPointers` model the first-fit
heap as a block list, as linked headers in memory and as its callers see it, `NetRpc` and
`NetSemaphores` the one-mailbox network service, `Bench` the histogram percentile against
the true order statistic.

## Where the code falls short of its documents

The model follows the code. Where a documented property fails, a lemma gives the
exact condition under which it holds:

- `mutex_unlock` links the mutex into the next owner's list before it unlinks it
  from the caller's, through the same field (semaphore.c:167, 171).
  `Unlocking.UnlockInv`: the invariant survives if and only if nobody waits, or the
  next owner holds nothing and the mutex is last in the caller's list. The parameter
  `unlinkFirst` selects the repaired order, for which it always survives.
  `KernelWitness.HandoverFails` is a state, reached from boot, in which it does not.
- `mutex_unlock_all_owned` reads `next_owned` after the unlock has cleared it.
  `Unlocking.ExitReleasesAll`: an exiting task leaves all its mutexes if and only if it
  held at most one; `Unlocking.ExitInv` says exactly when the invariant survives.
- The split in `kmalloc` does not tell the old successor about its new predecessor.
  `HeapCode.SplitPrev`: the `prev` fields stay right if and only if the block split was
  the last one (or the parameter `fixPrev` repairs it); `HeapRuns.RunRightIff` and
  `HeapRuns.RunRepresentedIff` say exactly which runs keep the heap;
  `HeapCode.StalePrevCorrupts` follows a stale field, from a fresh heap, to an overlap.
- The rounding in `kmalloc` wraps: `HeapBlocks.MallocServes` shows the payload is as
  large as asked for if and only if the request is at most 0xFFFFFFF8.
- The sleep list is ordered by unsigned tick and popped by signed difference.
  `SleepTiming.WakesIff`: a sleeper wakes on its tick if and only if no sleeper's wake
  tick lies behind the counter's wrap; `SleepTiming.WrapOversleeps` is a state in which
  it does not. `SleepTiming.SleepLimit`: a sleep of more than 2^31 + 1 ticks is over at
  the next one.
- A lease is read as alive only up to 2^31 seconds ahead (`Leases.LeaseTimeLimit`, if
  and only if). REQUEST and RELEASE may revive a quarantined slot:
  `Leases.HandleUnique` says exactly when that leaves two slots with one key, and
  `Leases.RevivedTwice` gives the messages. A released slot is matched by key but stays
  free: `Leases.OfferedTwice` says exactly when it is offered to two keys in a row, and
  `LeaseOutcomes.OfferHonouredIff` that such an offer, and no other, is not honoured.
- A power failure inside `journal_compact` loses the leases not yet written
  (`Journal.CompactCut`, if and only if, and `Journal.HeaderCut`).
- The network mailbox can be overwritten before it is copied: `NetRpc.CallPaired`
  says a call keeps requests and replies paired if and only if nothing is uncopied.

Where the text and the code differ otherwise, the model follows the code: the listing
of `mutex_lock` in docs/05-synchronization.md raises the owner only, while the code
recurses along the whole chain, as the paragraph below that listing says; a REQUEST,
DECLINE or RELEASE is matched by the last octet of its address only; and the parameter
request list is recorded, but every reply carries all options.

## Model

| member | source | states |
|---|---|---|
| KernelRuns.RunInv | source/kernel/semaphore.c:12-184 | over every run of create, select, wait, post, lock, unlock, sleep, tick and exit steps whose unlocks and exits are sound, the whole invariant holds in the state reached |
| KernelRuns.RunInvIff | source/kernel/semaphore.c:12-203 | over every run whatsoever, the invariant holds in every state if and only if every unlock and every exit is sound |
| KernelRuns.StepInv | source/kernel/scheduler.c:19-51 | every step from any state of the invariant keeps it if and only if it is sound, which every step other than an unlock or an exit is |
| KernelRuns.BootInv | source/kernel/scheduler.c:10-15 | the state after initialisation satisfies the invariant, for every pool size |
| KernelRuns.OneListOnly | source/kernel/scheduler.c:62-155 | a task found in two lists is at the same position of the same list: sharing `next` never splices two lists |
| KernelRuns.BehindBound | source/kernel/semaphore.c:116-123 | on any wait-for graph, cycles included, a task is at least as good as every task blocked any number of hops behind it |
| KernelRuns.InheritanceIsGlobal | source/kernel/tcb.c:48-63 | on an acyclic graph the effective priority is the minimum of the base priorities of the task and of everything transitively blocked behind it, and is attained |
| WaitCycles.LockAcyclic | source/kernel/semaphore.c:126-151 | from an acyclic state mutex_lock leaves an acyclic one if and only if the owner is not blocked, any number of hops, behind the caller |
| WaitCycles.RunAcyclicIff | source/kernel/semaphore.c:12-203 | over every run the wait-for graph is acyclic in every state if and only if no lock closes a cycle in that way |
| WaitCycles.InheritsAlong | source/kernel/tcb.c:48-63 | along such a run every effective priority is that minimum |
| KernelRuns.NoInversion | source/kernel/semaphore.c:108-124 | a ready task worse than someone blocked behind a ready holder is not dispatched before that holder |
| KernelRuns.SelectDispatches | source/kernel/scheduler.c:37-51 | whenever some task can run, the dispatch runs one of minimum priority number among all that can |
| KernelRuns.SwitchDecision | source/kernel/arm.c:6-20 | the switch is declined if and only if the running task strictly outranks every ready one; taking it runs a task at least as good |
| KernelOutcomes.SelectOutcome | source/kernel/scheduler.c:37-51 | a dispatch changes the state of two tasks at most: the one that had the processor becomes ready if it can run on, and the one chosen runs |
| KernelOutcomes.PutOutcome | source/kernel/scheduler.c:19-33 | a task that cannot run is left alone; any other one then stands in the ready queue behind every task at least as good, also if it was there already |
| KernelOutcomes.LockOutcome | source/kernel/semaphore.c:126-151 | SEM_OK_YIELD if and only if the caller is now blocked, in the mutex's queue; SEM_OK if and only if the mutex was free and now is its own; MUTEX_DEADLOCK if and only if it was its own, and nothing changed; nobody else is touched |
| KernelOutcomes.UnlockOutcome | source/kernel/semaphore.c:153-184 | MUTEX_NOT_OWNER if and only if the caller is not the owner, and nothing changed; otherwise the mutex is free, or its next owner is ready, in the ready queue only |
| KernelOutcomes.UnlockYieldsIff | source/kernel/semaphore.c:173-183 | when no ready task outranked the caller, SEM_OK_YIELD if and only if one does now |
| KernelOutcomes.WaitOutcome | source/kernel/semaphore.c:12-35 | SEM_OK if and only if one unit was taken; SEM_OK_YIELD if and only if the caller is blocked, last in the queue; SEM_CLOSE if and only if closed, and nothing changed |
| KernelOutcomes.PostOutcome | source/kernel/semaphore.c:37-59 | the first waiter and nobody else becomes ready, or the count grows by one; refused if and only if closed |
| KernelOutcomes.SleepOutcome | source/kernel/sleep.c:34-46 | nothing for zero ticks; otherwise the caller sleeps until its tick, and nobody else is touched |
| KernelOutcomes.CreateOutcome | source/kernel/tcb.c:19-41 | fails if and only if every slot is in use; otherwise the first free slot is a fresh ready task of the given priority, whatever it was, and every other task is as it was |
| KernelOutcomes.ExitOutcome | source/kernel/syscall.c:241-245 | the exited task is finished and in no list, whatever it held; of the others at most a waiter becomes ready |
| KernelOutcomes.FinishedStays | source/kernel/scheduler.c:19-51 | over every run an exited task stays finished, so it is never dispatched and in no list, until a creation takes its slot |
| KernelOutcomes.StepBase | source/kernel/tcb.c:19-41 | base priorities change by creation only |
| KernelOutcomes.BootOutcome | source/kernel/static_memory.c:16-25 | every slot unused, every list empty, every mutex free, every semaphore open with its count |
| Inheritance.RaiseStruct | source/kernel/semaphore.c:108-124 | the raise keeps every list placed, sorted and duplicate-free, though each hop re-sorts a different list |
| Inheritance.RaiseExact | source/kernel/semaphore.c:108-124 | started where one waiter was just added, the raise ends with every task's priority exact, whatever the shape of the graph |
| Inheritance.RaiseMonotone | source/kernel/semaphore.c:109-112 | the raise weakens nobody and sets no priority other than the one raised to |
| KernelState.AboveDrops | source/kernel/semaphore.c:108-124 | one hop lowers the number of tasks above the priority, so the raise ends even on a deadlock cycle |
| MutexSteps.LockInv | source/kernel/semaphore.c:126-151 | mutex_lock keeps exact inheritance and every list, for free, own and foreign mutexes |
| MutexSteps.RecalcOverMin | source/kernel/tcb.c:48-63 | the running minimum is below the base priority and every queue head, and is one of them |
| MutexSteps.RecalcExact | source/kernel/tcb.c:48-63 | the recalculated value satisfies the documented priority equation over all waiters, not only the heads |
| MutexSteps.ExactUnique | source/kernel/tcb.c:48-63 | the equation has only one solution for a task |
| MutexSteps.HeadIsBest | source/kernel/scheduler.c:85-110 | the head of a mutex's queue is at least as good as every task waiting on that mutex |
| Unlocking.UnlockInv | source/kernel/semaphore.c:153-184 | mutex_unlock keeps the invariant if and only if the caller is not the owner or the handover condition holds; in the other link order always; under the condition both orders agree |
| Unlocking.UnlockHandsToBest | source/kernel/semaphore.c:159-170 | the mutex goes to the first queued waiter, which no other waiter outranks, or becomes free |
| MutexFairness.EarlierServedFirst | source/kernel/semaphore.c:108-184 | over every run in which two tasks keep waiting on a mutex at unchanged priorities, the one that stands first keeps standing first, and no unlock hands the mutex to the other |
| MutexFairness.QueuesBehind | source/kernel/semaphore.c:139-147 | a task that joins the queue goes behind every waiter at least as good whom its own arrival does not lift |
| MutexFairness.RaiseOrder | source/kernel/semaphore.c:108-124 | a raise leaves any two waiters it does not lift in their order |
| Unlocking.UnlockYields | source/kernel/semaphore.c:173-183 | if no ready task outranked the caller, then afterwards none does or SEM_OK_YIELD is returned |
| Unlocking.DropCause | source/kernel/semaphore.c:173-174 | the releaser's priority changes only when the waiter just served was what had raised it |
| Unlocking.HandRecalc | source/kernel/semaphore.c:167-169 | the new owner's recalculation returns the priority it already had |
| Unlocking.HandSame | source/kernel/semaphore.c:167-171 | under the handover condition linking first and unlinking first give the same owned lists |
| Unlocking.HandBroken | source/kernel/semaphore.c:167-171 | without the condition some owned list disagrees with the owner fields |
| Unlocking.ExitReleasesAll | source/kernel/semaphore.c:197-203 | after exit the task owns no mutex if and only if it owned at most one |
| Unlocking.ExitInv | source/kernel/syscall.c:241-245 | exit keeps the invariant if and only if the task holds nothing, or one mutex with a sound handover |
| KernelWitness.HandoverFails | source/kernel/semaphore.c:167-171 | a state reached from boot by eight sound calls in which an unlock breaks the invariant, and the repaired order does not |
| KernelWitness.ExitFails | source/kernel/semaphore.c:197-203 | the same state, in which exit breaks it and leaves the finished task the owner of a mutex |
| KernelSteps.SelectInv | source/kernel/scheduler.c:37-51 | requeueing the current task and dispatching keeps the invariant, also when the current task is already ready |
| KernelSteps.SemWaitInv | source/kernel/semaphore.c:12-35 | semaphore_wait keeps the invariant |
| KernelSteps.SemPostInv | source/kernel/semaphore.c:37-59 | semaphore_post keeps the invariant, at any time |
| KernelSteps.SleepForInv | source/kernel/sleep.c:34-46 | sleep_for_ticks keeps the invariant |
| KernelSteps.TickInv | source/kernel/sleep.c:59-71 | the wake-ups of one tick keep the invariant |
| KernelSteps.CreateInv | source/kernel/tcb.c:19-41 | task creation keeps the invariant, a reused slot included |
| KernelTiming.StepEffect | source/kernel/sleep.c:34-71 | what one step may do to any one task: nothing, readiness, its own blocking call, or dispatch; sleepers are woken by ticks only |
| KernelTiming.IdleKeepsDispatching | source/kernel/scheduler.c:37-51 | while one task makes no blocking call, every dispatch of every run finds a task: the empty-queue fallback is unreachable |
| SleepTiming.WakesPrefix | source/kernel/sleep.c:48-71 | in every state sleep_tick wakes the longest prefix of the sleep list that is due, and nobody else |
| SleepTiming.WakesIff | source/kernel/sleep.c:48-71 | a sleeper whose tick it is wakes if and only if no sleeper's wake tick lies behind the counter's wrap; nobody else wakes |
| SleepTiming.TickWakes | source/kernel/systick.c:14-19 | which sleepers one tick wakes, and that it leaves every other one strictly ahead if and only if nobody due was hidden behind the wrap |
| SleepTiming.SleepsExactly | source/kernel/sleep.c:8-71 | a task that sleeps n ticks, n at most 2^31 + 1, is asleep through n - 1 ticks, and the n-th makes it ready if and only if no wake tick then lies behind the wrap, for every interleaving and any number of wraps |
| SleepTiming.UnwrappedPunctual | source/kernel/sleep.c:17-24 | while every wake tick is above the counter as a number, ticks are punctual: nobody due is hidden |
| SleepTiming.SleepLimit | source/kernel/sleep.c:34-57 | a sleep, across the counter's wrap or not, is over at the very next tick if and only if it is one tick long or longer than 2^31 + 1, and every sleeper in front of it is due as well |
| SleepTiming.LongSleepEndsAtOnce | source/kernel/sleep.c:34-57 | a task alone on the machine that asks for 0xF0000000 ticks at tick 0 is ready after one |
| SleepTiming.WrapOversleeps | source/kernel/sleep.c:17-24 | two sleepers on either side of the wrap, both in time: the earlier one is asleep after its own tick |
| SemaphoreRuns.UnitsConserved | source/kernel/semaphore.c:12-59 | over every run an open semaphore's count minus its waiters is what it was, plus posts, minus waits, minus 2^32 for each wrap of the count, and nobody waits while a unit is available |
| SemaphoreRuns.StepUnits | source/kernel/semaphore.c:12-59 | a wait takes one unit or one place in the queue, a post gives one unit or wakes one task, no other step touches either |
| BoundedWait.PassedAtMost | source/kernel/scheduler.c:19-51 | a ready task with i tasks before it is passed over by at most i dispatches while nothing better becomes ready and it is not requeued |
| BoundedWait.PosInsert | source/kernel/scheduler.c:85-110 | a newcomer that is no better queues up behind an equal: first in, first out |
| Queues.InsertFifo | source/kernel/scheduler.c:76-83 | without a key, insertion appends |
| Queues.InsertSorted | source/kernel/scheduler.c:85-110 | keyed insertion keeps a sorted list sorted |
| Queues.RemoveKeeps | source/kernel/scheduler.c:128-155 | removal takes out exactly one task and keeps the others' order |
| TaskLinks.RepInsert | source/kernel/scheduler.c:85-110 | relinking two next fields represents the list with one entry more |
| TaskLinks.RepRemove | source/kernel/scheduler.c:128-155 | relinking the predecessor represents the list with one entry less |
| TaskLinks.Relink | source/kernel/scheduler.c:62-155 | link writes inside one list leave all other lists represented |
| ListOps.PopNode | source/kernel/scheduler.c:62-74 | popping returns the head, clears its link and represents the rest |
| ListOps.AppendNode | source/kernel/scheduler.c:76-83 | the list gains the task at its end; tail is the last entry |
| ListOps.WalkTo | source/kernel/scheduler.c:100-103 | the walk stops at the last entry not worse than the key |
| ListOps.PushNode | source/kernel/scheduler.c:85-110 | the list becomes the keyed insertion; only links of the list and the task are written |
| ListOps.RemoveNode | source/kernel/scheduler.c:128-155 | the list becomes the removal, head, tail and absent tasks included |
| ListOps.PopSleeper | source/kernel/sleep.c:48-57 | the sleep list loses its head, whose link is left as it was |
| ListOps.RemoveOwned | source/kernel/semaphore.c:89-106 | the owned list loses the mutex, if it is there |
| OwnedLists.OwnPush | source/kernel/semaphore.c:84-87 | a mutex in no list is linked in front of one list, all others untouched |
| OwnedLists.OwnSplice | source/kernel/semaphore.c:167 | linking a mutex that is still in another list makes that list run into the new one |
| OwnedLists.OwnUnsplice | source/kernel/semaphore.c:171 | unlinking it afterwards leaves the caller with the next owner's mutexes and the next owner with this one only |
| KernelCode.Kernel.constructor | source/kernel/static_memory.c:16-25 | the tables represent the initial state |
| KernelCode.Kernel.PutTask | source/kernel/scheduler.c:19-33 | refines the put step; finished, blocked and sleeping tasks are ignored |
| KernelCode.Kernel.SelectNext | source/kernel/scheduler.c:37-51 | refines the select step |
| KernelCode.Kernel.Reorder | source/kernel/scheduler.c:157-160 | the task moves to the place its priority names, all links represented |
| KernelCode.Kernel.SemaphoreWait | source/kernel/semaphore.c:12-35 | refines the wait step, state and result |
| KernelCode.Kernel.SemaphorePost | source/kernel/semaphore.c:37-59 | refines the post step, state and result |
| KernelCode.Kernel.RaisePriority | source/kernel/semaphore.c:108-124 | the recursive raise terminates on every graph and refines the raise function |
| KernelCode.Kernel.Recalculate | source/kernel/tcb.c:48-63 | the loop over the owned list computes the recalculated priority |
| KernelCode.Kernel.MutexLock | source/kernel/semaphore.c:126-151 | refines the lock step, state and result |
| KernelCode.Kernel.MutexUnlock | source/kernel/semaphore.c:153-184 | refines the unlock step in the kernel's link order and in the repaired one, state and result |
| KernelCode.Kernel.TaskExit | source/kernel/syscall.c:241-245 | refines the exit step: the walk ends after the first release |
| KernelCode.Kernel.SleepForTicks | source/kernel/sleep.c:34-46 | refines the sleep step, zero and no-caller cases included |
| KernelCode.Kernel.SleepTick | source/kernel/sleep.c:59-71 | the loop wakes exactly what the wake-up function wakes |
| KernelCode.Kernel.SystickHandler | source/kernel/systick.c:14-19 | refines the tick step |
| KernelCode.Kernel.FindFree | source/kernel/static_memory.c:27-43 | finds the first unused or finished slot |
| KernelCode.Kernel.CreateTask | source/kernel/syscall.c:232-240 | refines the create step, the full pool included |
| DhcpOptions.ParseOptions | source/user/dhcp.c:14-80 | the option loop equals the recursive reading of the option area, for every buffer and length, and stays inside it |
| DhcpOptions.ReadAcceptsIff | source/user/dhcp.c:14-80 | accepted if and only if no option before END overruns and every known option has a legal length |
| DhcpOptions.ReadRefusesIff | source/user/dhcp.c:37-71 | which refusal: a bad length before END wins over an overrun |
| DhcpOptions.LengthRules | source/user/dhcp.c:41-71 | the legal lengths by option code |
| DhcpOptions.SplitEdges | source/user/dhcp.c:22-38 | padding is skipped, END and a lone last byte end the list, and an option that claims more than is left overruns |
| DhcpOptions.LastWins | source/user/dhcp.c:40-76 | the last occurrence of an option decides its field |
| DhcpOptions.SetsStay | source/user/dhcp.c:17-76 | a field whose option does not occur keeps its value and flag |
| DhcpOptions.BitmapIff | source/user/dhcp.c:59-64 | bit t is set if and only if some parameter list before END names t |
| DhcpOptions.SplitEnc | source/user/dhcp.c:138-179 | written options read back as they were, whatever bytes follow |
| DhcpMessage.DhcpParse | source/user/dhcp.c:82-128 | accepts exactly the datagrams long enough, with the cookie, for Ethernet, whose options neither overrun nor have a bad length; the lease key is the client id or the six hardware bytes, at most 16 bytes |
| DhcpMessage.ParseStaysInside | source/user/dhcp.c:82-128 | bytes at or past the datagram's length never change the outcome |
| DhcpMessage.FlagsIff | source/user/dhcp.c:14-80 | each flag of an accepted message is set if and only if its option occurs before END, whatever the record held before |
| DhcpMessage.BitmapOfMessage | source/user/dhcp.c:21-64 | the bitmap names exactly what the parameter lists of this message name |
| DhcpMessage.ParseRefusesIff | source/user/dhcp.c:82-96 | which refusal, and when |
| DhcpMessage.RequestRoundTrip | source/user/dhcp.c:82-128 | a message laid out as section 2 of RFC 2131 draws it, with any legal options, parses to exactly that message |
| DhcpMessage.ReplyRoundTrip | source/user/dhcp.c:181-239 | for every request that parses, the 300-byte reply parses to a BOOTREPLY with the given address, type and server, all else echoed, same client id and lease key |
| DhcpMessage.ReplyConfigured | source/user/dhcp.c:217-233 | a reply carries the message type, server, mask, router, name server, broadcast address and lease time, each once, under its own code and with its own value, and the client id if the request had one |
| DhcpMessage.ReplyBytes | source/user/dhcp.c:193-215 | op, hops, secs, yiaddr and cookie are set, every other byte of the first 236 is echoed, zeros pad the options, and END is the last of the 300 bytes |
| DhcpMessage.ReplyOptionsFit | source/user/dhcp.c:217-229 | the options of a reply take at most 57 bytes, so END always has room in 300 |
| DhcpBuild.TotalSize | source/user/dhcp.c:142-149 | sums exactly the options that are wanted |
| DhcpBuild.WriteOptions | source/user/dhcp.c:154-166 | the buffer holds the encodings of the wanted options in order behind its first 240 bytes |
| DhcpBuild.EmbedOptions | source/user/dhcp.c:138-179 | fails if and only if the options do not fit, pads to 300 bytes, ends in END, and says when END went past the buffer |
| DhcpBuild.EndOutside | source/user/dhcp.c:151-176 | END falls outside the buffer if and only if the options fill it to its last byte |
| DhcpBuild.BuildReply | source/user/dhcp.c:181-239 | fails if and only if the buffer is under 300 bytes, leaving it alone; otherwise writes the reply, which reads back as configured |
| DhcpService.MeaningOf | source/user/dhcp.c:440-516 | which messages ask something of the lease table, by type code, and with which key, address and server test |
| DhcpService.Receive | source/user/dhcp.c:430-521 | one datagram is at most one step of the lease state machine; a reply is sent if and only if that step gives one, and it parses to an answer to the client that asked, with the slot's address and the whole configuration |
| Leases.LeaseExclusive | source/user/dhcp.c:614-673 | after an ACK at t, no message of any client before t plus the lease time gets the slot offered or confirmed to another key, unless the holder gives it up |
| LeaseOutcomes.RequestIff | source/user/dhcp.c:614-673 | a REQUEST is acknowledged if and only if it is for this server, its last octet names the slot, and the slot is alive and carries the key |
| LeaseOutcomes.RequestOutcome | source/user/dhcp.c:636-650 | then the slot is bound for its key until the lease time from now; otherwise nothing changes and nothing is sent |
| LeaseOutcomes.RenewedInTime | source/user/dhcp.c:614-673 | over every run a client that renews before each deadline holds its slot until the last renewed one |
| LeaseOutcomes.DiscoverOutcome | source/user/dhcp.c:291-343 | when a DISCOVER stays unanswered (if and only if), and what an offer leaves in its slot and in no other |
| LeaseOutcomes.OfferHonoured | source/user/dhcp.c:614-673 | over every run an offered address is acknowledged when its client requests it, while the slot stays alive and is not given up |
| LeaseOutcomes.OfferHonouredIff | source/user/dhcp.c:311-325 | an immediate request of an offered address is acknowledged if and only if the offer was not of a released slot |
| LeaseOutcomes.DeclineOutcome | source/user/dhcp.c:535-551 | a DECLINE quarantines its slot for five minutes if and only if the slot carries the key |
| LeaseOutcomes.QuarantineHolds | source/user/dhcp.c:291-343 | over every run a declined slot is given to nobody for five minutes, unless the client that declined it asks for it or releases it |
| LeaseOutcomes.ReleaseOutcome | source/user/dhcp.c:553-570 | a RELEASE frees its slot if and only if the slot carries the key, and is not answered |
| Leases.TooLongNotExclusive | source/user/dhcp.c:241-343 | with a lease time above 2^31 seconds, the slot of a one-slot pool is offered to the next key right after its ACK |
| Leases.HandleKeeps | source/user/dhcp.c:445-521 | no single message takes a held slot away |
| Leases.AliveUntil | source/user/dhcp.c:241-244 | a stored deadline keeps the slot alive if and only if it is at most 2^31 seconds ahead |
| Leases.LeaseTimeLimit | source/user/dhcp.c:638-642 | a fresh ACK is alive if and only if the lease time is at most 2^31 seconds |
| Leases.HandleUnique | source/user/dhcp.c:535-673 | one message keeps keys unique if and only if it is not a REQUEST or RELEASE that revives a quarantined slot whose key stands elsewhere |
| Leases.RevivedTwice | source/user/dhcp.c:535-673 | three messages of one client, DISCOVER, DECLINE, REQUEST, that end with two slots for its key |
| Leases.RunUnique | source/user/dhcp.c:535-673 | over every run, at most one slot outside quarantine carries any key after every message if and only if no message is such a revival |
| Leases.SameAddress | source/user/dhcp.c:302-325 | a key whose slot stands is offered that slot again, state unchanged |
| Leases.AddressStable | source/user/dhcp.c:291-343 | over every run without such a revival, each DISCOVER of a key is answered with its one slot while that slot is alive and not given up |
| Leases.DistinctAddresses | source/user/dhcp.c:291-343 | over every run, a slot once given to a key is given to no other key while it is alive at each message and not given up |
| Leases.LiveNotGiven | source/user/dhcp.c:291-343 | no message gets a live slot offered or confirmed to a key it does not carry |
| Leases.OfferedTwice | source/user/dhcp.c:302-340 | two keys that ask one after the other are offered the same slot if and only if the first key's slot was released, the second key has none, and no slot before it is free |
| Journal.SerializeRoundTrip | source/user/dhcp.c:679-701 | a serialized slot passes its checksum and reads back as itself under its own address |
| Journal.RecordLayout | source/user/dhcp.c:679-701 | the record byte by byte |
| Journal.ChecksumCovers | source/user/dhcp.c:774-778 | a record changed before its last byte so that the checksum changes no longer passes |
| Journal.HeaderOkIff | source/user/dhcp.c:753-757 | a header is accepted if and only if it is this server's, its checksum aside |
| Journal.HeaderLayout | source/user/dhcp.c:703-731 | the header byte by byte |
| Journal.AddressNamesSlot | source/user/dhcp.c:734-741 | an address of the pool names its slot, to the handlers and to the replay |
| Journal.ZeroedIsFree | source/user/dhcp.c:374-381 | a zeroed table is a table of free slots |
| Journal.ReplayLastWriter | source/user/dhcp.c:765-789 | replay gives a slot the fields of the last record for it whose checksum holds |
| Journal.ReplayUntouched | source/user/dhcp.c:765-789 | a slot no such record is for keeps what it had |
| Journal.ReplayAppend | source/user/dhcp.c:765-789 | replaying a log with one record more updates what the shorter log gives |
| Journal.AppendLogged | source/kernel/flash.c:75-82 | programming a record, or its beginning, behind a log gives the longer log and leaves the rest erased |
| Journal.TornAppend | source/user/dhcp.c:765-778 | an append cut at any word replays as if never started when its checksum fails, and then asks for compaction |
| Journal.CompactReplay | source/user/dhcp.c:703-746 | the compacted log has no bad record and replays to the same slots in use, free ones blank |
| Journal.CompactCut | source/user/dhcp.c:703-746 | after a power failure inside the compaction a slot in use survives if and only if its record had been written |
| Journal.HeaderCut | source/user/dhcp.c:703-733 | after a power failure inside the new header the sector is foreign or holds an empty log |
| LeaseServer.Server.ProgramWord | source/kernel/flash.c:47-73 | the word reads back at the write pointer, which advances, and every other word of flash reads as before |
| LeaseServer.Server.Append | source/kernel/flash.c:75-82 | all words are written in order at the write pointer |
| LeaseServer.Server.Reprogram | source/kernel/flash.c:84-87 | the sector is erased first |
| LeaseServer.Server.Read | source/kernel/flash.c:89-96 | returns the words at the read pointer, which advances |
| LeaseServer.Server.Load | source/user/dhcp.c:748-792 | on a zeroed table gives the replay, leaves the write pointer at the end of the log, asks for compaction if and only if the header is foreign or a checksum fails |
| LeaseServer.Server.Compact | source/user/dhcp.c:703-746 | from any state leaves a well-formed log that fits the sector and would restore every bound lease |
| LeaseServer.Server.Setup | source/user/dhcp.c:374-388 | from any log this server wrote, torn records included, or a foreign sector, the server starts with the replayed table and a sound journal |
| LeaseServer.Server.FindSlot | source/user/dhcp.c:302-319 | one scan finds the slot of the key and, failing that, the first free or expired one |
| LeaseServer.Server.ChooseAddress | source/user/dhcp.c:291-343 | refines address choice, and names the address of the slot offered |
| LeaseServer.Server.HandleRequest | source/user/dhcp.c:614-673 | refines the REQUEST step; an ACK appends its record, so the lease would survive a power cycle |
| LeaseServer.Server.HandleDecline | source/user/dhcp.c:535-551 | refines the DECLINE step |
| LeaseServer.Server.HandleRelease | source/user/dhcp.c:553-570 | refines the RELEASE step, journal included |
| LeaseServer.Server.Serve | source/user/dhcp.c:449-516 | every message is one step of the lease state machine and keeps table and journal in agreement |
| LeaseServer.Server.Session | source/user/dhcp.c:403-521 | any number of messages from any clients is the run of the state machine, table and journal in agreement |
| LeaseServer.Server.PowerCycle | source/user/dhcp.c:374-388 | after a power failure at any word of an append whose rest fails its checksum, and a restart, every bound slot is bound to its key again |
| LeaseServer.Server.Survives | source/user/dhcp.c:374-570 | the two together: any session, a power failure in the next append, a restart, and no bound lease lost |
| HeapRuns.RunRightIff | source/kernel/heap.c:26-105 | over every run on headers, they represent a sound heap with right prev fields in every state if and only if every kmalloc repairs the prev field, does not split, or splits the last block |
| HeapRuns.RunRepresentedIff | source/kernel/heap.c:26-105 | over every run, stale prev fields or not, the headers represent a sound heap in every state if and only if every kfree can rely on the one prev field it reads |
| HeapRuns.RepairedRuns | source/kernel/heap.c:26-105 | with the repaired split every run keeps everything |
| HeapRuns.PerformCall | source/kernel/heap.c:26-105 | the code's calls are the steps of these runs |
| HeapBlocks.RunKeeps | source/kernel/heap.c:26-105 | over every sequence of kmalloc and kfree that finds its true predecessors, the blocks tile the heap, are 8-aligned, and no two neighbours are free |
| HeapPointers.FreeOutcome | source/kernel/heap.c:75-105 | kfree takes exactly its own block out of use, every other pointer keeps its block and size, and all of the freed block lies inside a free one |
| HeapPointers.MallocOutcome | source/kernel/heap.c:26-59 | kmalloc brings exactly one pointer into use, one that was not, with at least the rounded size and less than a header and a minimal block more |
| HeapPointers.RunTracks | source/kernel/heap.c:26-105 | over every run the pointers in use, with their sizes, are exactly those kmalloc has returned and kfree has not taken back |
| HeapBlocks.MallocServes | source/kernel/heap.c:26-59 | fails if and only if no free block fits; serves the lowest one; the payload is aligned, and large enough if and only if the request did not wrap |
| HeapBlocks.MallocKeeps | source/kernel/heap.c:26-59 | kmalloc keeps the heap tiled, aligned and coalesced |
| HeapBlocks.FreeKeeps | source/kernel/heap.c:75-105 | a kfree that joins the true neighbours keeps the heap tiled, aligned and coalesced |
| HeapBlocks.FreeUndoesMalloc | source/kernel/heap.c:26-105 | freeing the pointer just returned restores the block list exactly |
| HeapBlocks.Disjoint | source/kernel/heap.c:26-59 | two blocks never overlap |
| HeapCode.SplitPrev | source/kernel/heap.c:38-47 | the split leaves every prev field right if and only if it is repaired or the block was the last |
| HeapCode.StalePrevCorrupts | source/kernel/heap.c:26-105 | seven calls of kmalloc and kfree on a fresh heap after which a free block covers one in use |
| HeapCode.TakeRep | source/kernel/heap.c:36-52 | kmalloc on headers is kmalloc on the block list, and when the prev fields survive it |
| HeapCode.RepLinks | source/kernel/heap.c:81-95 | with right links every block meets what kfree asks of its caller |
| HeapCode.FreeRep | source/kernel/heap.c:75-105 | kfree on headers is kfree on the block list if and only if the freed block's own prev field leads to its free predecessor or to no free block; right prev fields do, and stay right |
| HeapCode.AbsorbRep | source/kernel/heap.c:85-102 | joining two headers represents the merged block list, both link directions |
| HeapCode.Heap.constructor | source/kernel/heap.c:17-24 | one free block covers the heap |
| HeapCode.Heap.Search | source/kernel/heap.c:34-55 | the walk finds the first fit |
| HeapCode.Heap.Kmalloc | source/kernel/heap.c:26-59 | refines allocation on linked headers and says when prev fields survive |
| HeapCode.Heap.Kfree | source/kernel/heap.c:75-105 | the headers after kfree of any block, or null; a block in use is freed and the heap kept if and only if its prev field can be relied on |
| HeapCode.Heap.FreeSize | source/kernel/heap.c:107-117 | sums the free payloads: with the bytes in use and the headers they are the whole heap |
| NetRpc.CallPaired | source/kernel/net.c:11-16 | a call keeps the pairing if and only if no earlier request is uncopied, and blocks its caller |
| NetRpc.ReplyPaired | source/kernel/net.c:29-119 | the completed service writes the slot of, and wakes, the requester it served |
| NetRpc.RunPairedIff | source/kernel/net.c:11-119 | over every interleaving, requests, replies and wake-ups are paired in every state if and only if no request is posted while an earlier one is uncopied |
| NetRpc.RpcPairing | source/kernel/net.c:11-119 | over every such run the k-th reply and the k-th wake-up belong to the k-th request, and net_done holds no spare unit |
| NetSemaphores.CallMatches | source/kernel/net.c:11-16 | the client's call is the kernel's post on net_posted and wait on net_done, and blocks when the kernel says so |
| NetSemaphores.WaitMatches | source/kernel/net.c:29-30 | the service's wait is the kernel's wait on net_posted |
| NetSemaphores.ReplyMatches | source/kernel/net.c:118 | the service's reply is the kernel's post on net_done, which readies the client the model names |
| NetSemaphores.OthersMatch | source/kernel/semaphore.c:12-203 | no other kernel step changes what the service sees |
| NetRpc.MailboxOverwritten | source/kernel/net.c:12 | two calls before the copy: one client is woken unanswered, the other answered twice |
| NetRpc.Service.SendAndWait | source/kernel/net.c:11-16 | while requests and replies are paired the caller blocks, and they stay paired if and only if nothing was uncopied |
| NetRpc.Service.Reply | source/kernel/net.c:29-119 | while paired, the oldest outstanding request has its slot written and its client woken, and the pairing stays |
| Bench.PercentileClose | source/kernel/bench.c:68-83 | within 7 cycles of the target-th smallest reading |
| Bench.PercentileMonotone | source/kernel/bench.c:68-83 | monotone in its target |
| Bench.NthIsSortedElement | source/kernel/bench.c:68-83 | the order statistic used is the element a sort puts at that position |
| Bench.Result.Record | source/kernel/bench.c:32-46 | a reading in range keeps the histogram, count and sum of the stream, and its least and greatest reading |
| Bench.Result.CalcPercentile | source/kernel/bench.c:68-83 | computes the percentile and is within 7 cycles of the order statistic |

## Left out

- Hardware: registers, clocks, the MPU, the FPU, assembly, SPI and the W5500. PendSV is "select next, then switch"; the chip's answer to a network request is an arbitrary status.
- `semaphore_close`: it leaves the tasks it wakes in the blocked state, so they are never queued.
- System call dispatch, pointer and handle validation, ring buffers, drivers, console and CLI: plumbing, or easy members.
- Reply destination selection (section 4.1 of RFC 2131): a four-way branch.
- `crc32`: a parameter. Every result holds for every checksum function.
- Pointers are indices into the static pools, and a control block's fields are tables indexed by task.
- KernelRuns.RunInv: only sound unlocks and exits; `KernelRuns.RunInvIff` shows that to be exact. System calls other than post are steps of a running task.
- KernelCode.Kernel.MutexLock: requires owned lists and owner fields to agree, which the kernel's own link order can break (`Unlocking.HandBroken`).
- KernelCode.Kernel.MutexUnlock: has the same requirement.
- KernelCode.Kernel.TaskExit: models the kernel's own link order only.
- SleepTiming.SleepsExactly: the ticks before the n-th are punctual and every sleep is at most 2^31 + 1 ticks; `SleepTiming.TickWakes` and `SleepTiming.SleepLimit` show both to be exact.
- Leases.LeaseExclusive: lease times up to 2^31 seconds; `Leases.LeaseTimeLimit` and `Leases.TooLongNotExclusive` show the bound to be exact. One clock reading per message; the code reads the clock once per slot examined.
- DhcpService.Receive: requires room for one record in the sector and a reply buffer of 300 bytes, as the server allocates it; the transport and its errors are outside.
- LeaseServer.Server.HandleRequest: requires room for one record in the sector, since the code has no capacity check.
- LeaseServer.Server.HandleRelease: has the same requirement, and with it `WriteRecord`, `StoreSlot` and `Serve`; `Session` and `Survives` require room for one record per message.
- LeaseServer.Server.ProgramWord: a programmed word replaces the old one; that flash can only clear bits is not modelled; every use here writes over erased words.
- DhcpOptions.ParseOptions: the client id and lease key are sequences of their length, so bytes left in a fixed array beyond that length are not modelled.
- DhcpBuild.EmbedOptions: the byte behind the buffer that the code writes when the options fill it is not part of the array; `BuildReply` never gets there.
- HeapCode.Heap.Kfree: a header swallowed by a join keeps its last contents in the model; in memory the payload over it may have been rewritten.
- Bench.Result.Record: readings below 2048 and at most 65535 of them, since the buckets are 16 bits wide; `Update` covers the rest without a meaning.
- `kcalloc`, `mutex_get_waiting`, task names and stacks: easy members.
