# launch-core: a verified model of the scheduler stack, its protocols and its codecs

launch-core is an embedded library built around a cooperative scheduler. This project models the library bottom-up and
proves what the layers promise each other:

- **Queues and pool** (`SimpleQueue`, `Pool`, `AllocatedQueue`): intrusive doubly linked lists, a fixed pool and the
  preallocated queues made of both, as classes that relink nodes in place. They refine bounded sequences.
- **Scheduler** (`SchedulerSpec`, `SchedulerRuns`, `SchedulerFairness`, `Scheduler`): the entry points as functions of
  the task table and the two queues, invariants and waiting bounds over all runs, and the imperative code with its
  back-pointers, proved equal to the functions. The clock is an arbitrary function of the number of readings. A task
  body is an arbitrary sequence of scheduler calls followed by a return code.
- **Blocking semaphore** (`SemaphoreSpec`, `BlockingSemaphore`): a transition system over the scheduler with barging and
  requeueing, and the class that implements it.
- **Coroutine macros** (`CoroutineSpec`, `CoroutineRuns`, `CoroutineTraces`, `Coroutine`): functions as lists of effects,
  branches, CALLs, suspensions and returns; running them by labels is compared with a thread that keeps a whole stack,
  and what a task does over all its dispatches with a run that never suspends.
- **Triple buffer** (`TripleBuffer`): the lock-free protocol as a state machine over loads, swaps and index
  computations, and the two loops under arbitrary interference.
- **SLIP** (`Slip`, `SlipCodec`, `SlipRing`, `SlipRingDevice`, `SlipRingBytes`, `SlipRingAsWritten`): codec, round trip
  over streams, ring protocol over runs, the device that connects bytes with frames, the ring down to single bytes, and
  the device exactly as it is written.
- **Socket, ring buffer, CRC-32, UDP checksum** (`SocketSpec`, `SocketBuffer`, `RingBuffer`, `Crc32Table`,
  `PolynomialDivision`, `Crc32`, `Crc32Detection`, `UdpChecksum`): bounded queues against their fixed-size storage, and
  fast arithmetic against its definition.

`Bytes`, `Options`, `Return` and `Sequences` hold what several of them share.

Queues are listed head first, so the next element to pop is the last one. Where a method is proved equal to a function,
what the source promises is proved about the function.

## Where the code does not do what it says

The code is kept, the condition under which it does is proved, and the main results are about the evident meaning:

- `queue/queue_simple.h:153-163` does not set `it->prev->next`. A push keeps the pop order iff the element it finds along
  `next` is the one before which the new one belongs along `prev` (`AsWrittenInOrder`, over runs `AsWrittenAllInOrder`);
  the two chains agree iff all pushes go to an end (`AsWrittenAllAgree`). `PushSortedNodeAsWritten` does to the nodes what
  these lemmas are about; `PushSortedNode` has the missing line.
- `pool/pool.h:53-54` says that an object may come to be on the free list twice. It cannot: a free succeeds iff the object
  is outstanding (`Free`). What a pool cannot catch is a second free by a former owner once the object has been handed out
  again; exactly then that free succeeds (`FreeAgain`).
- `sched/sched.cpp:167-233` does not check tids: sched_sleep and sched_block keep the scheduler consistent iff the task has
  been started and has not ended (`SleepExact`, `BlockExact`). Otherwise a slot without a task gets on the queues, and a
  NULL function may be called (`StrangerIsQueued`, `StrangerIsDispatched`).
- `sched/sched.cpp:145-157`: a dispatch keeps the scheduler consistent iff the task returns as `ReturnOk` says
  (`EndExact`).
- `sched/sched.cpp:184`: a sleep whose end wraps around 32 bits ends at once (`WakeTimeExact`, `WrappedSleepEndsAtOnce`,
  `WrappedSleepOfRunningTask`).
- `triple_buffer/TripleBuffer.h:33-34` compares where it should shift, so that the index 2 becomes 1. A run is what it
  should be iff no write() that swaps after a read() has swapped returns in it (`AsWrittenExact`); when one does, both
  sides come to hold the same buffer (`LateWriteShares`), as they do after write, read, write, read
  (`AsWrittenSharesABuffer`). `ctl` and `m_ctl` are taken to be one word. read() is not wait-free, as write() is: the
  writer can make any number of its swaps fail (`ReadMayFailAnyNumber`).
- `net/slip/slip.h:40-85`: the encoder writes past its buffer iff that has no bytes at all or the payload is one of
  `Overruns` (`InBoundsExact`).
- `net/slip/slip.h:160-165` lacks a `break` and `net/slip/slip.h:183` stores the byte as it came:
  `StreamRoundTripExact` says for which payloads this does not matter. The comment at `net/slip/slip.h:128` says that a
  frame that is too large is discarded; all frames that follow it are lost as well (`StreamOutcome`).
- `net/slip/SLIPRingDevice.h:74-124`, poll(), has RESUME() but never calls RESET(), so that after the first frame that is
  forwarded or passed up a task resumes at that CALL for ever: it passes the same packet up again, or uses a pointer that
  it has not set, and never reads another byte (`SecondFrameNeverRead`, `PassedUpForEver`). Line 104 overwrites the pointer
  to the decoded frame, so that a device that forwards a frame passes up its encoded form; and the frame comes from the
  decoder above, which leaves escape codes in it (`SpecialDatum`). Over any stream of bytes poll() as written does what it
  means iff no byte follows the first frame that is forwarded or passed up, and all frames up to there are too short to
  matter, end their way here without special bytes among the data, or are forwarded unchanged and too large for the
  packet (`SlipRingAsWritten.PollExact`, which has the two other faults as parameters). `SlipRingDevice` and
  `SlipRingBytes` are about the code with all three repaired.
- `net/slip/SLIPRingDevice.h:146-165`, transmit2(), lacks RESET() as well: it transmits what it should iff no call follows
  the first one that sends something (`SlipRingAsWritten.TransmitExact`).
- `net/slip/SLIPRingDevice.h:131` allocates the header in the device's own packet, not in the one that is sent: transmit()
  succeeds iff that packet has room for one header more than there have been transmissions since poll() last cleared it,
  and therefore never in `alloc::SLIPRingDevice`, whose packet has none (`SlipRingDevice.TransmitExact`).
- `net/slip/SLIPRingDevice.h:229-231`: the buffer sizes do not count the header, so that some packets of the permitted
  size are not forwarded (`ShippedForwardsExact`) and others overrun the encoder (`ShippedEncoderOverruns`).
- In a ring of one device, the TTL at `net/slip/SLIPRingDevice.h:138` is 0 and wraps around: the sender gets its own frame
  2^32 times (`RingOfOne`).
- `net/stack/IPv4UDP/IPv4UDPSocket.h:260-262` shifts the wrong way (`RecordedIpExact`); `m_blocked` is never cleared,
  so that recv() blocks only if no task ever did (`Recv`), and every datagram wakes the first task that ever blocked: it
  waits in recv() iff it has not come back there since (`WokenExact`), and if it waits on a semaphore instead, that is
  broken (`StrayWakeupBreaks`). A woken task may find the queue empty (`RobbedWaiter`), and `ResumedFindsPacket` says
  after which events it does not.
- `ringbuffer/RingBuffer.h:27-30` does not update `m_len` (`Push`), and `ringbuffer/RingBuffer.h:69-82` does not test for
  an empty buffer (`Pop`).
- `net/eth/eth.h:53` puts the bytes of the check sequence in the order opposite to Ethernet's (`StoredOrderFails`): of the
  2^32 ways to fill any four bytes of a frame, the 2^16 of `StoredOrderFillings` are accepted.
- `net/udp/udp.h:111` does not replace a computed zero (`ZeroExact`).

## Model

| member | source | states |
|---|---|---|
| SimpleQueue.SortedInsertKeepsOrder | queue/queue_simple.h:134-164 | for every strict order, a sorted push keeps the queue in an order in which no element is popped before one that has to precede it |
| SimpleQueue.SortedInsertSplits | queue/queue_simple.h:136-145 | for every strict weak order, exactly the elements that must be popped before the new one are nearer the tail; a tie is popped before its equals |
| SimpleQueue.SortedInsertAllOrdered | queue/queue_simple.h:125-165 | any number of sorted pushes holds exactly the pushed elements, in pop order |
| SimpleQueue.AsWrittenChainsAgree | queue/queue_simple.h:153-163 | on a queue whose chains agree, a push as written does to pops what it should, and the chains still agree iff the node goes to the head or the tail |
| SimpleQueue.AsWrittenInOrder | queue/queue_simple.h:153-163 | on any two chains, equal elements included, a push as written keeps the pop order iff the node found along next is where the prev chain needs the new one |
| SimpleQueue.AsWrittenAllHolds | queue/queue_simple.h:125-165 | over any run of pushes as written, exactly the pushed elements are popped |
| SimpleQueue.AsWrittenAllAgree | queue/queue_simple.h:125-165 | over any run of pushes as written, the chains agree iff every push belongs at an end; then they are the sorted queue |
| SimpleQueue.AsWrittenAllInOrder | queue/queue_simple.h:125-165 | over any run of pushes as written, elements are popped in order iff every push finds its place |
| SimpleQueue.AsWrittenPopsOutOfOrder | queue/queue_simple.h:153-163 | as written, pushing 10, 5, 7 breaks the chains but not the pop order, and 8 on top of that breaks the pop order |
| SimpleQueue.SimpleQueue.PushNode | queue/queue_simple.h:28-43 | the node is the new head, both chains mirror the sequence of nodes, m_size is its length, no stored object changes |
| SimpleQueue.SimpleQueue.PopNode | queue/queue_simple.h:47-65 | takes the last node, NULL iff the queue is empty |
| SimpleQueue.SimpleQueue.RemoveNode | queue/queue_simple.h:68-86 | takes any node out and keeps the order of the others |
| SimpleQueue.SimpleQueue.PeekNode | queue/queue_simple.h:90-92 | the last node, NULL iff the queue is empty |
| SimpleQueue.SimpleQueue.PushSortedNode | queue/queue_simple.h:125-165 | with the forward link restored, inserts at the position the sort determines; both chains mirror the result |
| SimpleQueue.SimpleQueue.PushSortedNodeAsWritten | queue/queue_simple.h:125-165 | on any queue such pushes can produce, the push as written does to the nodes and both of their chains what PushAsWritten does to their objects |
| Pool.Pool.constructor | pool/pool.h:87-99 | all descriptors are free, each once |
| Pool.Pool.Alloc | pool/pool.h:37-50 | fails iff nothing is free; never hands out an outstanding object; free descriptors and spare nodes add up to the size |
| Pool.Pool.Free | pool/pool.h:56-80 | succeeds iff the object is an outstanding one of this pool, so that the pop of a spare node is never NULL and nothing is on the free list twice |
| Pool.FreeAgain | pool/pool.h:53-54 | a second free of an object, n allocations after the first one, succeeds iff n exceeds the number of objects that were free before the first: then it has a new owner |
| Pool.MissingOne | pool/pool.h:68-72 | the count behind it: free descriptors that miss one descriptor are fewer than all |
| AllocatedQueue.AllocQueue.constructor | queue/allocated_queue.h:30 | a new queue is empty and holds as many elements as it was made for |
| AllocatedQueue.AllocQueue.Push | queue/allocated_queue.h:34-45 | fails iff SIZE elements are held, otherwise the element is at the head of the FIFO sequence, and its node does not move the others |
| AllocatedQueue.AllocQueue.PushSorted | queue/allocated_queue.h:122-133 | the same with the element at its sorted place |
| AllocatedQueue.AllocQueue.Peek | queue/allocated_queue.h:77-85 | the oldest element, NULL iff empty |
| AllocatedQueue.AllocQueue.Pop | queue/allocated_queue.h:62-73 | drops the oldest element; giving its node back cannot fail |
| AllocatedQueue.AllocQueue.Remove | queue/allocated_queue.h:90-94 | removes an element from the middle; giving its node back cannot fail |
| SchedulerRuns.StartKeeps | sched/sched.cpp:70-94 | sched_start keeps the invariant: a task is active iff it is on the ready queue once (or runs), sleeping iff it is on the sleep queue once, otherwise on neither; the sleep queue is sorted; a slot is in use iff its task has been started and has not ended, and holds the function and argument it was started with |
| SchedulerRuns.StartExact | sched/sched.cpp:70-94 | the whole outcome: -1 and no change iff all 64 tasks are live, otherwise the first free slot is filled and is the last to run |
| SchedulerRuns.BlockExact | sched/sched.cpp:219-233 | sched_block keeps it iff the task has been started and has not ended |
| SchedulerRuns.BlockResult | sched/sched.cpp:219-233 | the whole outcome: the task is blocked and on no queue; the others keep their order and their records |
| SchedulerRuns.WakeKeeps | sched/sched.cpp:192-215 | so does sched_wake |
| SchedulerRuns.WakeExact | sched/sched.cpp:192-215 | the whole outcome: a sleeping or blocked task becomes active, leaves the sleep queue and is the last to run; the others keep their order and their records; a task that is neither is left alone |
| SchedulerRuns.SleepExact | sched/sched.cpp:167-189 | sched_sleep keeps it iff the task has been started and has not ended |
| SchedulerRuns.SleepResult | sched/sched.cpp:167-189 | after sched_sleep the task is on the sleep queue only, at its sorted place, and no other task's record changes |
| SchedulerRuns.SleepPlace | sched/sched.cpp:27-34 | the task wakes after exactly those sleepers whose wake time is before its own, so that of equal ones the latest wakes first; the others keep their order |
| SchedulerRuns.SleepUnlinked | sched/sched.cpp:172-188 | the stale sleep_loc between the removal and the push makes no difference |
| SchedulerRuns.WakeTimeExact | sched/sched.cpp:184 | the wake time is now + time iff that does not wrap around 32 bits, and 2^32 less if it does |
| SchedulerRuns.WrappedSleepEndsAtOnce | sched/sched.cpp:184 | under a monotone clock, a sleep that wraps and that somebody else imposed is over at the next _sched_wakeup_tasks |
| SchedulerRuns.WrappedSleepOfRunningTask | sched/sched.cpp:184 | so is that of a running task that puts itself to sleep, after it has returned RET_SLEEP |
| SchedulerRuns.WakeupSplits | sched/sched.cpp:97-124 | _sched_wakeup_tasks cuts the sleep queue in two: those that wake had each reached their wake time at their own clock reading and run after the ready ones, earliest first; the next sleeper had not |
| SchedulerRuns.WakeupRecords | sched/sched.cpp:108-118 | exactly those that leave the sleep queue become active; no other record changes |
| SchedulerRuns.NobodyLeftBehind | sched/sched.cpp:97-124 | when it returns, every sleeper's wake time lies after the last clock reading |
| SchedulerRuns.NobodyWokenEarly | sched/sched.cpp:108-118 | nobody leaves the sleep queue before a reading has reached the wake time |
| SchedulerRuns.BeginKeeps | sched/sched.cpp:129-144 | during a dispatch the invariant holds with the running task on neither queue, and sched_dispatched names it |
| SchedulerRuns.BeginExact | sched/sched.cpp:127-144 | the whole handover: once the sleepers are awake, the task at the tail of the ready queue is taken off it, or there is none |
| SchedulerRuns.EndExact | sched/sched.cpp:145-162 | the scheduler is consistent after the task's return iff the task did not return RET_ERROR while queued, nor active while already queued |
| SchedulerRuns.EndResult | sched/sched.cpp:145-162 | the whole return: RET_ERROR frees the slot, an active task is the last to run again, one that sleeps or is blocked stays where it is |
| SchedulerRuns.WokenBeforeReturning | sched/sched.cpp:152-155 | a task that sleeps and is woken before it returns always breaks that |
| SchedulerRuns.ErrorWhileAsleep | sched/sched.cpp:145-149 | so does RET_ERROR from a task that has put itself to sleep |
| SchedulerRuns.StepKeeps | sched/sched.cpp:127-163 | every call and every dispatch keeps the invariant |
| SchedulerRuns.RunKeeps | sched/sched.cpp:70-233 | so does every run, whatever the tasks do within their duties |
| SchedulerRuns.InitialIdle | sched/sched.cpp:17-38 | the statically initialised scheduler satisfies it |
| SchedulerRuns.RunKeepsLive | sched/sched.cpp:70-163 | over any run, a task counts as live with a job iff the events say so: the last sched_start that returned its tid gave it that job, and its function has not returned RET_ERROR since |
| SchedulerRuns.DispatchedWasStarted | sched/sched.cpp:134-145 | over every run from the initial state, whoever is dispatched was started, has not ended since, and runs the function and argument of that sched_start |
| SchedulerRuns.StrangerIsQueued | sched/sched.cpp:167-233 | blocking and waking, or putting to sleep, a slot without a task puts it on the queues |
| SchedulerRuns.StrangerIsDispatched | sched/sched.cpp:192-233 | so that in the initial state a task nobody started is dispatched next, with a NULL function |
| SchedulerRuns.QueuesFit | sched/sched.cpp:83-85 | ready and sleeping tasks together are at most 64 |
| SchedulerRuns.PushesSucceed | sched/sched.cpp:187 | discharges the five "we assume we can always push" notes: every push a call, a wakeup or a return makes finds room |
| SchedulerFairness.DispatchAdvances | sched/sched.cpp:127-163 | a dispatch runs a given ready task or brings it one place nearer, whatever the task that runs does to others |
| SchedulerFairness.BoundedWaiting | sched/sched.cpp:127-163 | in every run, a ready task with k tasks ahead that nobody blocks or puts to sleep before it runs is the one dispatched within k + 1 dispatches; it may sleep or block itself then |
| SchedulerFairness.DispatchedWithin64 | sched/sched.cpp:127-163 | so within 64 |
| SchedulerFairness.WokenIsDispatched | sched/sched.cpp:192-215 | a task that is woken from sleep or from being blocked, and not held before it runs, is dispatched within as many dispatches as tasks were ready, and one more |
| SchedulerFairness.BlockedUntilWoken | sched/sched.cpp:217-233 | over every run in which no call names it, a blocked task stays blocked and is never dispatched |
| SchedulerFairness.SleepsUntilWakeTime | sched/sched.cpp:97-124 | over every run in which no call names it as long as it sleeps, a sleeping task stays on the sleep queue with its wake time until a clock reading has reached it |
| Scheduler.Scheduler.constructor | sched/sched.cpp:17-38 | the initial state |
| Scheduler.Scheduler.GetTime | sched/sched.cpp:62-64 | one reading of the clock, which changes nothing else |
| Scheduler.Scheduler.Start | sched/sched.cpp:70-94 | the loop and the push do what SchedulerSpec.Start does; ready_loc and sleep_loc of every task point at the node that holds it |
| Scheduler.Scheduler.Sleep | sched/sched.cpp:167-189 | equals SchedulerSpec.Sleep for every tid below 64; the scheduler stays consistent iff the task has been started and has not ended |
| Scheduler.Scheduler.Wake | sched/sched.cpp:192-215 | equals SchedulerSpec.Wake |
| Scheduler.Scheduler.Block | sched/sched.cpp:219-233 | equals SchedulerSpec.Block for every tid below 64; the scheduler stays consistent iff the task has been started and has not ended |
| Scheduler.Scheduler.WakeupTasks | sched/sched.cpp:97-124 | the loop terminates and equals SchedulerSpec.WakeupTasks |
| Scheduler.Scheduler.Dispatch | sched/sched.cpp:127-163 | equals one step of SchedulerSpec, for every script of calls the task makes |
| SemaphoreSpec.ReleaseKeeps | sync/BlockingSemaphore.h:28-44 | release() keeps the invariant: while somebody waits, the count is at most the number of woken tasks that have not yet rerun acquire(); waiting tasks are blocked, woken ones awake, nobody waits twice, the lock is 1 |
| SemaphoreSpec.ReleaseExact | sync/BlockingSemaphore.h:28-44 | the whole outcome: one permit more, and the task that has waited longest, if any, is awake and the last to run; the others wait on in their order |
| SemaphoreSpec.WaitsItsTurn | sync/BlockingSemaphore.h:28-74 | over every run, whoever takes permits in between, a waiting task has as many fewer tasks before it as there were releases |
| SemaphoreSpec.TurnComes | sync/BlockingSemaphore.h:33-39 | so a task that began to wait with k tasks before it is woken by exactly the release after the k-th |
| SemaphoreSpec.AcquireState | sync/BlockingSemaphore.h:48-74 | acquire() succeeds iff there is a permit, which it takes; otherwise the task is blocked, on no queue of the scheduler, and waits behind all others |
| SemaphoreSpec.AcquireExact | sync/BlockingSemaphore.h:48-74 | acquire() keeps it iff the running task is not on the wait queue, which is why waiting tasks may be woken by release() only |
| SemaphoreSpec.StrayWakeupBreaks | sync/BlockingSemaphore.h:48-74 | a wakeup from elsewhere of a task that waits breaks the semaphore as soon as the task is dispatched and runs acquire() again |
| SemaphoreSpec.WaitQueueHasRoom | sync/BlockingSemaphore.h:56-59 | the push at line 56 cannot fail |
| SemaphoreSpec.AcquireResult | sync/BlockingSemaphore.h:48-74 | acquire() never returns RET_ERROR |
| SemaphoreSpec.StepKeeps | sync/BlockingSemaphore.h:28-74 | every event keeps the invariant, barging and requeueing included |
| SemaphoreSpec.RunKeepsSem | sync/BlockingSemaphore.h:28-74 | no lost wakeup in any reachable state |
| SemaphoreSpec.InitialSem | sync/BlockingSemaphore.h:23 | a new semaphore satisfies it iff its count is not negative |
| SemaphoreSpec.PermitsAreFetched | sync/BlockingSemaphore.h:33-39 | while permits are left and somebody waits, as many woken tasks as there are permits run or are ready, less than 64 places from being dispatched |
| SemaphoreSpec.PermitsConserved | sync/BlockingSemaphore.h:31-65 | over every run, count = initial + releases - acquisitions, and is never negative |
| BlockingSemaphore.BlockingSemaphore.constructor | sync/BlockingSemaphore.h:23 | builds that initial state for any count; the invariant holds iff it is not negative |
| BlockingSemaphore.BlockingSemaphore.Release | sync/BlockingSemaphore.h:28-44 | equals SemaphoreSpec.Release on the count, the queue, the lock and the scheduler |
| BlockingSemaphore.BlockingSemaphore.Acquire | sync/BlockingSemaphore.h:48-74 | equals SemaphoreSpec.Acquire, label included |
| CoroutineSpec.EnterAgrees | sched/macros/call.h:22-23 | calling a function by labels does, effect by effect, what a thread with the stack the labels stand for does up to its next suspension or return, and leaves labels that stand for the thread's new stack; for every acyclic program that RESETs before final returns |
| CoroutineRuns.DispatchAgrees | sched/macros/resume.h:19-29 | one dispatch of one task does that and leaves the other tasks' labels alone |
| CoroutineRuns.SuspensionPreservesMeaning | sched/macros/call.h:22-23 | for every interleaving of dispatches, tasks with labels have the same outcomes and leave the same statics as threads with stacks |
| CoroutineRuns.InitiallyRelated | sched/macros/resume.h:22-27 | the labels the first RESUME sets stand for threads that have not begun |
| CoroutineRuns.CallHandsBack | sched/macros/call.h:22-23 | by labels: when the callee returns, CALL goes on behind itself iff the code is RET_SUCCESS and with the handling of errors otherwise; when it suspends, so does the caller, still at that CALL |
| CoroutineRuns.ReturnHandsBack | sched/macros/call.h:22-23 | the same for the thread with a stack |
| CoroutineRuns.ResultPassedOn | sched/macros/call.h:6-14 | a function that only passes on the result of its callee returns RET_SUCCESS iff that does, and RET_ERROR otherwise, however often it is suspended in between |
| CoroutineTraces.DispatchIsStraight | sched/macros/block.h:15-19 | what one dispatch does, whether it suspends, finishes or is cut short, is the beginning of the run that never suspends, and the rest of that run goes on from there |
| CoroutineTraces.SuccessiveAreStraight | sched/macros/resume.h:19-29 | so all dispatches of a task in a row, however many and however they end, are one such run of its function, called over and over: no effect is skipped or repeated |
| CoroutineTraces.TracesAreStraight | sched/macros/call.h:22-23 | for every interleaving of tasks that run by labels, each task's own trace of effects is the beginning of its straight run, whatever the others do (conditions do not depend on the statics) |
| CoroutineTraces.BeginningsAreNested | sched/macros/resume.h:19-29 | beginnings of a straight run are prefixes of each other |
| CoroutineRuns.StuckAtLastCall | sched/macros/reset.h:16 | a function that returns without RESET right behind a CALL executes nothing but that CALL from then on, however often it is called |
| CoroutineRuns.ForgottenReset | sched/macros/reset.h:16 | a function without RESET whose next call skips an effect and does not suspend |
| Coroutine.Functions.constructor | sched/macros/resume.h:20-21 | before the first RESUME every task is at every function's start |
| Coroutine.Functions.Resume | sched/macros/resume.h:19-29 | initialises the static array once and changes no task's labels |
| Coroutine.Functions.Execute | sched/macros/call.h:22-23 | executing with the static arrays equals CoroutineSpec.Enter and touches the dispatched task's labels only |
| TripleBuffer.ReadWordFields | triple_buffer/TripleBuffer.h:74-76 | read() swaps clean and snap and clears the flag |
| TripleBuffer.WriteWordFields | triple_buffer/TripleBuffer.h:91-93 | write() swaps clean and dirty and sets the flag |
| TripleBuffer.InitialInv | triple_buffer/TripleBuffer.h:49-57 | the initial word names the buffers 0, 1 and 2 as dirty, clean and snap, with no flag, and satisfies the invariant |
| TripleBuffer.StepKeeps | triple_buffer/TripleBuffer.h:62-100 | every atomic step of either side keeps the invariant; the flag is set iff something was published since the last successful read |
| TripleBuffer.Exclusion | triple_buffer/TripleBuffer.h:62-100 | under every interleaving the fields are a permutation of 0, 1, 2 and the sides never hold the same buffer |
| TripleBuffer.WriterLeavesSnap | triple_buffer/TripleBuffer.h:80 | the writer cannot change the snap field, so reading the word again after the swap gives the index just installed |
| TripleBuffer.ReaderLeavesDirty | triple_buffer/TripleBuffer.h:99 | nor the reader the dirty field or the contents |
| TripleBuffer.SnapshotIsStable | triple_buffer/TripleBuffer.h:62-100 | a buffer that is being read keeps what was published in it |
| TripleBuffer.ReadReturnsLatest | triple_buffer/TripleBuffer.h:66-80 | a successful read returns the latest publication before its swap, and a newer one than the read before |
| TripleBuffer.NullIffNothingNew | triple_buffer/TripleBuffer.h:69-72 | read() returns NULL iff nothing was published since the last successful one, and the reader keeps its buffer |
| TripleBuffer.ReaderKeepsBuffer | triple_buffer/TripleBuffer.h:62-81 | at every step of either side the reader keeps its buffer, until its swap succeeds |
| TripleBuffer.FillIsPublished | triple_buffer/TripleBuffer.h:85-100 | what the writer puts into its buffer is what its next successful swap publishes, whatever the reader does until then |
| TripleBuffer.WriteSwapsAtMostTwice | triple_buffer/TripleBuffer.h:89-96 | write() is wait-free: one of its swaps fails at most |
| TripleBuffer.ReadMayFailAnyNumber | triple_buffer/TripleBuffer.h:66-76 | read() is not: for every n there is a run of the writer and the reader in which n of its swaps fail |
| TripleBuffer.ContendedAtFirst | triple_buffer/TripleBuffer.h:49-57 | such runs start right after the first write() |
| TripleBuffer.DirtyAsWrittenExact | triple_buffer/TripleBuffer.h:33 | the macro as written gives the dirty index iff that is not 2 |
| TripleBuffer.AsWrittenExact | triple_buffer/TripleBuffer.h:33-34 | with the macro as written, a run is what it should be at each of its steps, and the sides never share a buffer, iff no write() that swaps after a read() has swapped returns in it |
| TripleBuffer.LateWriteShares | triple_buffer/TripleBuffer.h:33-34 | once such a write() has returned, the two sides hold the same buffer at once or after the next read() |
| TripleBuffer.AsWrittenSharesABuffer | triple_buffer/TripleBuffer.h:33-34 | the run of write, read, write, read after which both sides hold buffer 1 |
| TripleBuffer.TripleBuffer.constructor | triple_buffer/TripleBuffer.h:49-57 | nobody holds a buffer and nothing is published |
| TripleBuffer.TripleBuffer.Write | triple_buffer/TripleBuffer.h:85-100 | the loop terminates under any interference by the reader and publishes what the dirty buffer held, once |
| TripleBuffer.TripleBuffer.Read | triple_buffer/TripleBuffer.h:62-81 | NULL, or a buffer with a strictly newer publication than the last one, under any interference by the writer |
| Slip.FrameSize | net/slip/slip.h:34-86 | a frame has len + 2 bytes plus one for each 0xC0 or 0xDB, at most 2 (len + 1), and no END inside |
| Slip.FrameSizeTight | net/slip/slip.h:108-110 | the bound is reached iff all bytes are special |
| Slip.EncodeIsRfc1055 | net/slip/slip.h:17-20 | a frame is the one of RFC 1055, escaped from the front and in the numbers of that document |
| Slip.InBoundsExact | net/slip/slip.h:34-86 | all of the encoder's writes are in bounds iff the buffer has at least one byte and the payload is not one of Overruns (the last body byte fills the buffer); it returns a frame iff that fits or overruns; at most one byte is overrun |
| Slip.DocumentedSizeSuffices | net/slip/slip.h:108-110 | a buffer of the documented size fits every frame, without the encoder's overrun |
| Slip.StreamRoundTrip | net/slip/slip.h:129-187 | pushing the concatenated frames of payloads that fit returns exactly the payloads, each at its closing END, and NULL at every other byte |
| Slip.StreamRoundTripExact | net/slip/slip.h:129-187 | the payloads come back iff they all fit and, in the decoder as written, none contains 0xC0 or 0xDB |
| Slip.StreamOutcome | net/slip/slip.h:175-180 | for any payloads: those before the first one that is too large, and an empty one for each frame after it |
| Slip.AnyFrame | net/slip/slip.h:129-187 | for any bytes between two ENDs, encoded or not: every byte but 0xDB counts, with 0xDC and 0xDD behind a 0xDB read as 0xC0 and 0xDB (as written, not); that is returned at the closing END iff it fits |
| Slip.InvertedForever | net/slip/slip.h:131-156 | a decoder that takes a closing END for an opening one never recovers |
| SlipCodec.SLIPDecoder.constructor | net/slip/slip.h:191-194 | an empty buffer, not parsing |
| SlipCodec.SLIPEncoder.Encode | net/slip/slip.h:34-86 | for every payload, the overrunning ones included: returns NULL or exactly the frame, as InBoundsExact says, and changes no memory behind the last byte it writes |
| SlipCodec.SLIPDecoder.Push | net/slip/slip.h:129-187 | with both repairs, equals one step of the decoder on byte strings |
| SlipCodec.SLIPDecoder.PushAsWritten | net/slip/slip.h:129-187 | as written, equals the unrepaired one |
| SlipRing.TransmitKeeps | net/slip/SLIPRingDevice.h:137-138 | a transmission with a header, as transmit() evidently means it, keeps the invariant: a frame is where its TTL says, with the data it was sent with, and was delivered to the devices behind it only |
| SlipRing.StepKeeps | net/slip/SLIPRingDevice.h:92-116 | so does every reception |
| SlipRing.ExactlyOnce | net/slip/SLIPRingDevice.h:16-22 | over any run of a ring of two or more, with any number of frames in flight, a transmission reaches each other device at most once, its sender never, with its data; exactly once when the links are empty (never if it has no data) |
| SlipRing.OthersArrive | net/slip/SLIPRingDevice.h:16-22 | the same told by the data: over any run, each device gets any data no more often than the others sent them, and just as often when the links are empty |
| SlipRing.ComesBack | net/slip/SLIPRingDevice.h:99-111 | in a ring of one, a frame comes back to its sender as often as its TTL says |
| SlipRing.RingOfOne | net/slip/SLIPRingDevice.h:99-102 | there the TTL wraps: the sender gets its own frame n times in n receptions for all n up to 2^32, and then the ring is quiet |
| SlipRing.StepUsesTtl | net/slip/SLIPRingDevice.h:99-111 | every reception uses up TTL, a transmission brings n - 1 |
| SlipRing.ComesToRest | net/slip/SLIPRingDevice.h:19-22 | no more receptions can follow than the TTLs add up to |
| SlipRing.AtRest | net/slip/SLIPRingDevice.h:99-111 | no frame is in flight iff that sum is 0 |
| SlipRingDevice.HandleIsReception | net/slip/SLIPRingDevice.h:91-116 | what a device does with the bytes of a frame is the reception of the ring protocol |
| SlipRingDevice.HandleExact | net/slip/SLIPRingDevice.h:91-116 | for any frame with data and any sizes: the TTL is counted down on 32 bits, the frame is forwarded iff that is not 0 and the encoder returns it, and the data are delivered iff they fit the packet |
| SlipRingDevice.TtlOrder | net/slip/SLIPRingDevice.h:51-53 | the header is the TTL as a little-endian target leaves it in memory |
| SlipRingDevice.PollFrame | net/slip/SLIPRingDevice.h:74-124 | with RESET and the intended pointer restored, a device handles an encoded frame exactly once, at its closing END |
| SlipRingDevice.PollStream | net/slip/SLIPRingDevice.h:74-124 | with both restored, a link that carries encoded frames is a FIFO of frames |
| SlipRingDevice.Device.Poll | net/slip/SLIPRingDevice.h:74-124 | with both restored, poll() equals PollByte; RET_ERROR iff the packet is too small; clears the packet's header space when it gets that far |
| SlipRingDevice.Device.Transmit | net/slip/SLIPRingDevice.h:129-141 | RET_SUCCESS iff the device's own packet has 4 bytes for headers left, of which it takes 4 |
| SlipRingDevice.TransmitExact | net/slip/SLIPRingDevice.h:129-141 | over any run, the next transmit() succeeds iff the packet has room for one header more than there were transmissions since poll() last cleared it |
| SlipRingBytes.LinkPoll | net/slip/SLIPRingDevice.h:80-116 | a byte taken from a link leaves the frames under way as they are, or completes and handles the first one |
| SlipRingBytes.StepRefines | net/slip/SLIPRingDevice.h:74-124 | every step of a ring of devices on links of bytes is a step of the ring of frames, or none |
| SlipRingBytes.RunRefines | net/slip/SLIPRingDevice.h:74-124 | so every run of it, with any interleaving of the bytes of all links, is a run of the ring of frames |
| SlipRingBytes.DataArrive | net/slip/SLIPRingDevice.h:16-22 | over any such run each device passes up any data no more often than the others sent them, and just as often when no byte is on the links, if the buffers have room for data and header |
| SlipRingAsWritten.CompletesFrame | net/slip/SLIPRingDevice.h:91-123 | the call that completes a frame, on the decoder as written or repaired, does what it means iff the frame is too short, has TTL 1 and arrives with its special bytes intact, is forwarded intact and too large for the packet, or cannot be encoded; it leaves the label at the start iff it did nothing |
| SlipRingAsWritten.NeverReadsAgain | net/slip/SLIPRingDevice.h:75-123 | a task whose label is past read() never reads again |
| SlipRingAsWritten.SecondFrameNeverRead | net/slip/SLIPRingDevice.h:75-123 | with or without the other two repairs: after a first frame that is forwarded or passed up, the second is never handled; each of its bytes has the first packet passed up again or an unset pointer used |
| SlipRingAsWritten.PassedUpForEver | net/slip/SLIPRingDevice.h:75-123 | what poll() as written passes up then, for ever: the data with escape codes in them, or, of a forwarded frame, its encoded form |
| SlipRingAsWritten.PollExact | net/slip/SLIPRingDevice.h:74-124 | for each combination of the two other repairs, and as written, the actions over any stream of bytes are the intended ones iff no byte follows the first frame that is forwarded or passed up and every frame up to there meets the condition of CompletesFrame |
| SlipRingAsWritten.SpecialDatum | net/slip/slip.h:183 | as written, the frame with TTL 1 and the datum 0xC0 is passed up as 0xDC |
| SlipRingAsWritten.PollingTask.Poll | net/slip/SLIPRingDevice.h:74-124 | the code as written, with its label, its packet and the unrepaired decoder, equals PollOnce |
| SlipRingAsWritten.TransmitExact | net/slip/SLIPRingDevice.h:146-165 | as written, any series of calls of transmit2() sends what it should iff no call follows the first that sends something |
| SlipRingAsWritten.TransmitArrives | net/slip/SLIPRingDevice.h:149-164 | what transmit2() sends is one frame, which the next device handles as what it was; nothing is sent iff the packet is empty or does not fit the encoder |
| SlipRingAsWritten.ShippedForwardsExact | net/slip/SLIPRingDevice.h:229-231 | with the shipped sizes a frame is forwarded iff header, data and their special bytes are at most 2 SIZE, or the encoder overruns |
| SlipRingAsWritten.ShippedEncoderOverruns | net/slip/SLIPRingDevice.h:229 | for every SIZE from 4 on and every TTL below 0xC0, a payload of SIZE bytes that the shipped encoder overruns with |
| SocketSpec.RecordedIpExact | net/stack/IPv4UDP/IPv4UDPSocket.h:260-263 | the reported source address is right iff its first three bytes are 0 |
| SocketSpec.AcceptsExact | net/stack/IPv4UDP/IPv4UDPSocket.h:223-233 | a socket bound to an address accepts exactly what is sent to that address, first byte most significant; one bound to 0.0.0.0 accepts everything |
| SocketSpec.QueueHoldsNewest | net/stack/IPv4UDP/IPv4UDPSocket.h:235-249 | over any run, the queue holds the most recent datagrams in order of arrival |
| SocketSpec.ReadsInOrder | net/stack/IPv4UDP/IPv4UDPSocket.h:154-205 | the reads return datagrams that arrived, in order, none twice and none that is still queued |
| SocketSpec.NothingElseLost | net/stack/IPv4UDP/IPv4UDPSocket.h:238-246 | every arrival is read, queued, or was dropped because the queue was full |
| SocketSpec.QueueLengthExact | net/stack/IPv4UDP/IPv4UDPSocket.h:235-249 | over any run, more than c datagrams are queued iff from some event on receptions exceed reads by more than c and no later stretch of reads could have brought even a full queue down to c |
| SocketSpec.ResumedFindsPacket | net/stack/IPv4UDP/IPv4UDPSocket.h:170-172 | the note that a woken task finds a packet holds iff, from some event since it blocked, receptions outnumber reads and at no later point the reads still to come could have emptied even a full queue |
| SocketSpec.RobbedWaiter | net/stack/IPv4UDP/IPv4UDPSocket.h:170-175 | another task may have taken it |
| SocketSpec.WokenExact | net/stack/IPv4UDP/IPv4UDPSocket.h:265-268 | over any run, the task that receive() wakes is the first that ever blocked, and it waits in recv() iff it has not come back to recv() since |
| SocketSpec.UsedQueue | net/stack/IPv4UDP/IPv4UDPSocket.h:151-271 | whoever blocks or is woken, the datagrams are those of the drop-oldest queue |
| SocketBuffer.Socket.constructor | net/stack/IPv4UDP/IPv4UDPSocket.h:293-298 | nothing is queued and all packets are free |
| SocketBuffer.Socket.Bind | net/stack/IPv4UDP/IPv4UDPSocket.h:71-74 | sets the address and leaves what is queued alone |
| SocketBuffer.Socket.Reserve | net/stack/IPv4UDP/IPv4UDPSocket.h:236-246 | the second alloc, after the drop, never fails; outstanding packets are exactly the queued pointers and this one |
| SocketBuffer.Socket.Receive | net/stack/IPv4UDP/IPv4UDPSocket.h:212-271 | RET_ERROR iff too large or not for this address; otherwise the datagram is the newest of the queue and the oldest is dropped iff it was full |
| SocketBuffer.Socket.Recv | net/stack/IPv4UDP/IPv4UDPSocket.h:151-206 | returns the oldest datagram, cut to the caller's buffer, with its real length and source; on an empty queue blocks iff no task ever did |
| SocketBuffer.Socket.TakeFirst | net/stack/IPv4UDP/IPv4UDPSocket.h:175-205 | the same where a blocked task resumes; the free never fails |
| RingBuffer.HoldsNewest | ringbuffer/RingBuffer.h:26-48 | an overwriting queue always holds the newest bytes, whatever is popped in between |
| RingBuffer.NothingLost | ringbuffer/RingBuffer.h:22-25 | without overwriting, popped and held bytes are exactly the accepted ones in order |
| RingBuffer.RingBuffer.constructor | ringbuffer/RingBuffer.h:111-116 | an empty buffer |
| RingBuffer.RingBuffer.Push | ringbuffer/RingBuffer.h:26-48 | refines the bounded queue iff it does not overflow a partly filled overwriting buffer |
| RingBuffer.RingBuffer.Pop | ringbuffer/RingBuffer.h:69-82 | takes the min(len, size) oldest bytes iff there is one or none is wanted; otherwise returns old array contents and m_len wraps around |
| Crc32Table.TableIsEightSteps | net/eth/crctable.c:26-92 | all 256 entries are eight steps of the reflected shift register with polynomial 0x04C11DB7 |
| Crc32Table.StepsLinear | net/eth/crctable.c:9-24 | the register is linear over exclusive or |
| Crc32.TableStep | net/eth/eth.h:49 | one table lookup does the work of eight bit-serial steps |
| Crc32.CalculateFcs | net/eth/eth.h:42-54 | the table-driven loop leaves the bit-serial CRC of the whole frame in memory, most significant byte first |
| PolynomialDivision.Division | net/eth/eth.h:37-41 | feeding bits to the register is long division by the generator |
| PolynomialDivision.DivisionUnique | net/eth/eth.h:37-41 | quotient and remainder are unique |
| Crc32.RegisterIsRemainder | net/eth/eth.h:42-54 | the register holds the remainder |
| Crc32.FcsIsComplementedRemainder | net/eth/eth.h:42-54 | the FCS is the one word that clause 3.2.9 of IEEE 802.3-2018 defines |
| Crc32Detection.BurstDetected | net/eth/eth.h:37-41 | frames that differ within four consecutive bytes have different check sequences |
| Crc32Detection.ReceiverAccepts | net/eth/eth.h:37-54 | a receiver's residue is the standard one iff the trailer is the FCS, least significant byte first |
| Crc32Detection.StoredOrderExact | net/eth/eth.h:53 | the byte order of hton32 is that one iff the FCS reads the same from both ends |
| Crc32Detection.StoredOrderFails | net/eth/eth.h:53 | for the one-byte frame 0x61 the bytes stored are E8 B7 BE 43, which a receiver does not accept |
| Crc32Detection.FillingExact | net/eth/eth.h:42-54 | for any check sequence and any surroundings, exactly one filling of four bytes gives the frame that check sequence |
| Crc32Detection.StoredOrderFillings | net/eth/eth.h:53 | of all fillings of any four bytes of a frame, a receiver accepts in the stored order those that give one of the 2^16 symmetric check sequences |
| Crc32Detection.FillingsDiffer | net/eth/eth.h:53 | and these are all different |
| UdpChecksum.TotalIsSum | net/udp/udp.h:67-105 | the loops add up exactly the words RFC 768 covers, for payloads of either parity |
| UdpChecksum.NoOverflow | net/udp/udp.h:65-105 | 65535 bytes do not overflow 32 bits |
| UdpChecksum.OnesSumIsSum | net/udp/udp.h:107-109 | adding with the carry going around word by word gives the representative of the plain sum modulo 65535 |
| UdpChecksum.FoldCarries | net/udp/udp.h:107-109 | the fold loop terminates at the same representative |
| UdpChecksum.ComputeChecksum | net/udp/udp.h:62-112 | for every payload UDP allows, checksum() is the one's complement checksum of RFC 768 and section 2 of RFC 1071 |
| UdpChecksum.ReceiverAccepts | net/udp/udp.h:62-112 | with the checksum in place everything adds up to 0xFFFF, and with no other value, except that 0 and 0xFFFF are the same |
| UdpChecksum.ZeroExact | net/udp/udp.h:111 | what is sent is what RFC 768 asks for iff the sum is no multiple of 65535 |
| UdpChecksum.ZeroExample | net/udp/udp.h:111 | a datagram for which it is not |

## Left out

- Raw pointers: a pointer to a pool object is a reference to its descriptor, and `container_of` is a map fixed at construction.
- Class hierarchies: `alloc::Queue` and `alloc::SortedQueue` are one class with two pushes; `m_sort` is passed to each push as a function of the task table at that moment.
- The default-constructing `push()` of `queue/allocated_queue.h:49-58`, which is `push` without the assignment.
- SchedulerRuns.RunKeeps: assumes that callers pass tids of tasks that have been started and have not ended, and that tasks return as `ReturnOk` says; the scheduler checks neither, and `SleepExact`, `BlockExact` and `EndExact` say that both are needed.
- Tids of 64 and more, of which `sched_dispatched` is one outside any task: they index memory behind the task table, and the type Tid excludes them.
- A task body that calls sched_dispatch itself; its end would overwrite `sched_dispatched`.
- Scheduler.Scheduler.Dispatch: the same for the calls and the return of the task that runs.
- SchedulerFairness.SleepsUntilWakeTime: is about the stored wake time; the wrap-around is treated by `WakeTimeExact`.
- Interrupts in the middle of a scheduler call, and task bodies beyond the sequence of scheduler calls they make.
- SemaphoreSpec.RunKeepsSem: assumes that tasks that wait, and woken ones that have not yet rerun acquire(), are woken by release() only and are neither put to sleep nor blocked by others, that a woken task reruns acquire() before it returns, and that acquire() is called by a running, active task.
- The 32-bit overflow of `m_count`, and the spin of the inner lock, which is never entered at 0.
- CoroutineSpec.EnterAgrees: functions call lower-numbered ones only (no recursion), keep no locals across a suspension, and do not use a suspension code as a return value; one that runs off its end, which C++ leaves undefined, is taken to return RET_SUCCESS.
- Execution is counted in instructions ("fuel"), because a task may loop for ever without suspending; every statement is for all amounts.
- TripleBuffer.TripleBuffer.Read: requires that the writer rests from some step on, because against a writer that never does the loop need not end (`ReadMayFailAnyNumber`).
- Hardware memory ordering: every load and compare-and-swap is one atomic step on one word.
- SlipCodec.SLIPEncoder.Encode: there is memory behind the buffer as far as the encoder writes, one byte at most unless `m_size` is 0; what lives there is not part of this model.
- SlipRing.ExactlyOnce: links are lossless FIFOs; a lost or corrupted byte is outside the model.
- SlipRingDevice.Device.Poll: the byte has arrived on the serial line, and write() and receive() succeed; read, write and receive may block, which is what `CoroutineTraces` is about.
- SlipRingAsWritten.PollingTask.Poll: `_current` has one entry for each task and all devices share it, so that the model is that of one device polled by one task; the network layer leaves the payload of `m_packet` as it is; a call that uses a pointer it did not set is `Undefined` and goes no further.
- SlipRing.TransmitKeeps: models the evident meaning of transmit(), a header in the packet that is sent.
- What the network layer returns to poll().
- RingBuffer.RingBuffer.Push: `m_len + len` does not wrap around, as no array is that large.
- RingBuffer.RingBuffer.constructor: requires a capacity of at least 1, though the template accepts 0.
- SocketBuffer.Socket.TakeFirst: requires a packet, as the source assumes; `RobbedWaiter` shows that a resumed task may have none.
- SocketBuffer.Socket.constructor: requires room for at least 1 packet; with SIZE 0, receive() would dereference NULL.
- SocketBuffer.Socket.Receive: reads the payload as a sequence of bytes; Packet is not part of this model.
- Sending through the socket and port subscription. The wakeup of the blocked task is a returned task id.
- Big-endian targets, for which the return type at `net/common.h:16-18` cuts hton32 down to 16 bits.
- The caller of checksum() passes the addresses in system order at `net/udp/UDPRouter.h:123-125`; the model starts at the bytes checksum() is given.
- device/peripherals, device/platforms and the HAL handlers: registers, vendor constants and interrupts.
- filesystem/ChainFS, net/ipv4/IPv4Router.h, net/kiss, net/icmp, net/ax25, net/arp: unfinished, or with nothing to pair them with.
- vector, hashmap, bloom_filter, string, event, hash: they would add easy members only.
