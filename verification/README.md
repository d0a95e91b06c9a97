# A verified model of the jamesOS kernel core

jamesOS is a small x86 kernel. This project models, in Dafny, the parts of its C code that are state
machines with real invariants, and proves what those parts promise over whole runs.

| file | models |
|---|---|
| `bitmap.dfy` | the bitmap library |
| `tcp_window.dfy`, `tcp_stream.dfy` | the TCP receive window: a 1024-byte ring and a bitmap, refining an in-order byte stream |
| `tcp_sender.dfy`, `tcp_system.dfy`, `tcp_sender_task.dfy` | the retransmission queue and its sweep; application, sender task, lossy network and receiver together; the sender task as a task of the kernel |
| `tcp_acks.dfy`, `tcp_enqueue.dfy` | which acknowledgments and which enqueues are safe |
| `tcp_connection.dfy`, `tcp_parse.dfy` | the connection state machine of one port and what it carries; what it reads out of a header |
| `scheduler.dfy`, `scheduler_effects.dfy`, `scheduler_fairness.dfy`, `scheduler_object.dfy` | the task scheduler, its lock hand-over, its timer, its reaper; what each call does to whom; bounded waiting; the kernel variables updated in place |
| `heap.dfy`, `heap_runs.dfy` | the bitmap heap allocator; whole runs of it |
| `frame_queue.dfy`, `wakeup.dfy`, `handler_service.dfy` | the frame rings; a ring, its handler task and the scheduler together; how soon a handler is served |
| `codec.dfy`, `checksum.dfy`, `headers.dfy`, `header_layout.dfy` | bit fields, the Internet checksum, IPv4 and TCP headers, and where their fields lie |
| `netstack.dfy`, `wire.dfy` | sending and receiving UDP, ICMP, IPv4 and Ethernet, with the heap blocks they use; what is on the wire, byte by byte |
| `paging.dfy` | the frame allocator and the identity mapping |

Each part has the same shape. A value type holds the state and functions say what one kernel call does
to it. Where the source updates variables in place, a class does so too, and its methods are proved to
follow those functions. The lemmas then say what the functions keep, over every run, and what each call
does in plain numbers, so that neither a function nor a method rests on its own definition.

## Main results

- **End-to-end stream safety** (`TcpSystem.StreamSafety`). Data segments are lost, duplicated and
  reordered at will. In every run the bytes the peer reads are a prefix of the bytes enqueued, every
  segment that can arrive starts at or below the peer's mark, and no segment is ever split.
- **When acknowledgments are safe** (`TcpAcks.AckExactly`). An acknowledgment overwrites the send mark
  unconditionally. Taking it leaves every later run safe, the peer reading the stream and no sweep
  entering the splitting branch, if and only if every queued segment still lies inside the send window
  and the mark of an idle sender does not move, or the sender sleeps for good with what it has queued.
  `TcpAcks.StaleAckCorrupts` and `TcpAcks.StaleAckSplits` construct the harm otherwise, and
  `TcpAcks.StaleAckReachable` and `TcpAcks.SplitReachable` reach it from a fresh connection.
- **When enqueues are safe** (`TcpEnqueue.EnqueueExactly`, `TcpEnqueue.StreamSafety`). The queue need not
  be empty: it is enough that the send mark stands at the end of the stream. Otherwise there are bytes
  whose enqueueing makes the peer read what was not sent, but for two cases: the sender is about to sleep
  for good, or the peer already has everything the new numbers can reach.
- **When everything can still be delivered** (`TcpSystem.CanFinish`). The sender task can sleep for good
  with a segment queued. After any run, what has been enqueued can still be delivered if and only if no
  segment was enqueued between the end of a sweep and the `sleep_until` that follows it;
  `TcpSystem.WedgedRun` is a run in which one was.
- **When the receive window is a stream** (`TcpStream.DeliverHoldsExactly`, `TcpWindow.DeliverExactly`). The
  ring refines the peer's stream exactly as long as no segment leaves a gap inside the window, and it takes
  everything that fits.
- **Scheduler** (`Scheduler.Accounting`, `Scheduler.HandOver`, `Scheduler.BlockExactly`,
  `SchedulerFairness.BoundedWaiting`). The counter is exact and the search loop ends. Tasks keep a rule
  about their own `lock_irq` calls only; from it follows that the kernel's one lock counter equals the
  current task's own count, that every switch happens at lock depth 1 and that the task switched to goes
  on at depth 0, and the rule is exact. A ready task waits at most one round, and one more for each task
  the timer wakes meanwhile.
- **Heap** (`KernelHeapRuns.RunKeeps`, `KernelHeap.Heap.Kmalloc`, `KernelHeap.Heap.Kfree`,
  `KernelHeap.AlignedExactly`). Live blocks and bitmap agree over every run, and a free keeps them so if
  and only if the caller's size is right. First fit is exact. Aligned requests do not always end up
  aligned; the exact condition on the bitmap is given, with an example, and heaps without partly used
  bitmap bytes meet it.
- **No lost wake-up** (`Wakeup.NoLostWakeup`). The handler's lock, test and block are separate steps that
  interrupts fall between whenever they are on; `Wakeup.TestNeedsLock` shows the frame lost without the
  lock. `HandlerService.ServedInTime` adds that a handler with frames queued gets the processor within a
  bounded number of scheduler calls.
- **Encapsulation round trip** (`NetStack.UdpRoundTrip`),
  **heap conservation** (`NetStack.Stack.SendUdp`, `NetStack.SentBitmap`), **checksum**
  (`Checksum.InternetChecksum`, `Headers.Ipv4Verifies`, `Headers.TcpVerifies`), **header fields**
  (`Headers.Ipv4ReadBack`, `Headers.TcpReadBack`), **connection life cycle**
  (`TcpConnection.ListenerConnects`, `TcpConnection.ConnectedCarries`, `TcpConnection.ClosesAfterTwo`),
  **what a receiver makes of what was sent** (`Wire.UdpOnWire`, `TcpParse.ClassifiedAsBuilt`), **identity mapping**
  (`Paging.Pager.IdentityTranslates`).

## Hypotheses

They stand in the model where they are used.

- Sequence numbers, ticks and window ends do not wrap at 32 bits. The source compares them as plain
  unsigned numbers, not modulo 2^32 as section 3.4 of RFC 9293 asks. The methods demand that their sums
  fit, and `TcpSystem.DemandsMet` proves the demands along every run. The tick counter stays 100 short of
  0xffffffff, which is the time an idle sender sleeps until.
- A newly allocated receive window, page table or frame bitmap is zero.
- In `TcpSystem` the application hands over a new segment only when the queue is empty, stamps it with the
  send window's mark and keeps it within the window. `entry` in `src/kcore/kernel_main.c` does stamp it so,
  but enqueues after every `tcp_read` and never looks at the queue; it does not keep this rule, nor the
  weaker and exact one of `TcpEnqueue`. That a wedged sender stays so for ever also rests on the rule: a
  further enqueue would wake it once it sleeps.
- One kernel call, one timer wake-up, one sweep of the sender task and one round of the reaper are single
  steps. The send queue's publish and wake-up are two, and so are a sweep and the sleep after it.
- Block, sleep and termination are called by a task other than the idle one, which itself has called
  lock_irq once before `block_task (r, 0)` and not at all before the others; `soft_unblock_task` is given
  the pid of a listed task that has not terminated.

## Model

| member | source | states |
|---|---|---|
| Bitmap.BitUpdate | src/libc/bitmap.c:3-13 | setting or clearing one bit of a byte changes that bit and no other |
| Bitmap.Set | src/libc/bitmap.c:3-7 | exactly the given position of the bitmap becomes set |
| Bitmap.Clear | src/libc/bitmap.c:9-13 | exactly the given position of the bitmap becomes clear |
| Bitmap.Read | src/libc/bitmap.c:15-19 | the value of the given position |
| Bitmap.AroundOffset | src/libc/bitmap.c:24-24 | walking as far round the ring as measured arrives at the bit measured to |
| Bitmap.OffsetAround | src/libc/bitmap.c:24-24 | within one lap, distinct offsets reach distinct bits |
| Bitmap.Fill | src/libc/bitmap.c:21-30 | exactly the given number of bits following the start round the ring take the value; a longer fill covers the ring |
| Bitmap.FindSequence | src/libc/bitmap.c:32-51 | the result starts the first run of the wanted value in scan order within one lap; none exactly when no such run exists; length 0 is never found |
| Bitmap.FilledIsRun | src/libc/bitmap.c:21-51 | what bitmap_fill fills, up to the whole lap, is a run that bitmap_find_sequence looks for |
| Bitmap.RunIsFilled | src/libc/bitmap.c:32-51 | and a run is nothing but bits so filled |
| TcpWindow.PositionSlot | src/network/tcp.c:193-193 | within one window, stream positions and ring slots modulo 1024 correspond one to one |
| TcpWindow.PositionMoves | src/network/tcp.c:192-196 | moving the window up re-assigns exactly the slots of the positions left behind |
| TcpWindow.RecvWindow.constructor | src/network/tcp.c:268-280 | both marks start one past the SYN's sequence number; the memory is not cleared, and the window is in order if and only if no bit in it was set |
| TcpWindow.RecvWindow.Receive | src/network/tcp.c:213-258 | drop, re-acknowledge or store: the new window holds exactly the new bytes of the segment that fit, and the acknowledgment number is the one sent |
| TcpWindow.RecvWindow.ReadInto | src/network/tcp.c:182-201 | returns the next bytes, at most size - 1 of them, clears their bits and moves the window up by as many |
| TcpWindow.WrittenStep | src/network/tcp.c:237-246 | one turn of the store loop writes one position; its slot was never already taken |
| TcpWindow.DeliverExactly | src/network/tcp.c:220-253 | everything of a segment that fits is taken: the mark moves to the end of the segment or of the window, the positions it passes get the segment's bytes, no other slot changes |
| TcpWindow.ReplyExactly | src/network/tcp.c:226-253 | no answer beyond the window, the mark for a segment that brings nothing new, otherwise the new mark if it moved |
| TcpWindow.ReadExactly | src/network/tcp.c:187-196 | a read takes the oldest bytes, as many as there are but at most size - 1 |
| TcpWindow.FreshExactly | src/network/tcp.c:275-276 | a window just opened expects the byte after the SYN's number and holds nothing |
| TcpWindow.DeliverValid | src/network/tcp.c:220-253 | any segment at all keeps the marks within one window, never moves them back, and leaves unreceived positions unmarked |
| TcpWindow.AfterReadValid | src/network/tcp.c:187-196 | a read of any size keeps the same |
| TcpStream.GuardNeverFires | src/network/tcp.c:238-239 | no byte the loop is about to store is marked as already received |
| TcpStream.GapExact | src/network/tcp.c:234-253 | the mark passes bytes never received exactly when the segment leaves a gap inside the window |
| TcpStream.DeliverHolds | src/network/tcp.c:226-253 | a gapless slice of the stream keeps the ring equal to the stream between the marks |
| TcpStream.DeliverHoldsExactly | src/network/tcp.c:226-253 | for a slice of the stream the refinement survives if and only if it leaves no gap |
| TcpStream.ReadHolds | src/network/tcp.c:187-199 | a read returns the stream bytes the window moves over and keeps the refinement |
| TcpStream.RunKeepsMarks | src/network/tcp.c:182-258 | over any run of any segments and reads, the marks stay in order and never go back |
| TcpStream.RunRefinesStream | src/network/tcp.c:182-258 | over any run of overlapping or repeated slices and reads, all reads together are the stream from first to last position, each byte once and in order |
| TcpSender.EmittedExactly | src/kernel_tasks/tcp_sender.c:49-123 | a segment goes on the wire in a sweep exactly when a slot held it due and unacknowledged |
| TcpSender.EnqueuedExactly | src/kernel_tasks/tcp_sender.c:12-20 | the segment takes the first free slot and leaves the others alone |
| TcpSender.SweptExactly | src/kernel_tasks/tcp_sender.c:57-123 | a slot not due stays, one wholly below the mark goes, any other is sent and due again after 100 ticks |
| TcpSender.EmittedInOrder | src/kernel_tasks/tcp_sender.c:49-119 | segments go on the wire in the order of their slots |
| TcpSender.SegmentQueue.Enqueue | src/kernel_tasks/tcp_sender.c:3-25 | the segment takes the first free slot, due at once, and the sender task is woken; with no free slot neither happens |
| TcpSender.SegmentQueue.Sweep | src/kernel_tasks/tcp_sender.c:46-125 | slots not due are kept, acknowledged ones freed, the others sent in order and rescheduled; the task then sleeps until the earliest new deadline |
| TcpSystem.EnqueueInv | src/kcore/kernel_main.c:181-190 | handing over a new segment to an empty queue keeps the two-party invariant |
| TcpSystem.SweepShape | src/kernel_tasks/tcp_sender.c:46-125 | a sweep keeps, frees or resends the queued segment; the task is about to sleep until its deadline, or for good if it sent nothing |
| TcpSystem.SweepInv | src/kernel_tasks/tcp_sender.c:49-123 | a sweep keeps the two-party invariant |
| TcpSystem.DataArrivesInv | src/network/tcp.c:213-258 | the arrival of any segment ever sent keeps it |
| TcpSystem.PeerReadsInv | src/network/tcp.c:182-201 | a read by the peer keeps it |
| TcpSystem.AckInv | src/network/tcp.c:205-211 | the arrival of an acknowledgment that leaves queued segments inside the window and an idle sender's mark alone keeps it |
| TcpSystem.InOrderHarmless | src/network/tcp.c:205-211 | acknowledgments in non-decreasing order always satisfy that condition |
| TcpSystem.StreamSafety | src/kernel_tasks/tcp_sender.c:46-125 | in every run the bytes read are a prefix of the bytes enqueued, every segment in flight starts at or below the peer's mark, and no queued segment reaches past the send window |
| TcpSystem.DemandsMet | src/kernel_tasks/tcp_sender.c:75-79 | every step meets the demands of the method that carries it out; no sweep enters the splitting branch |
| TcpSystem.TailAcknowledged | src/network/tcp.c:229-253 | the last segment of the stream is taken and acknowledged in full by a peer that has room for it |
| TcpSystem.WedgeExactly | src/kernel_tasks/tcp_sender.c:124-125 | a step makes the sender sleep for good with a segment queued exactly if it enqueues between a sweep and the sleep after it |
| TcpSystem.WedgedForever | src/multitask/multitask.c:189-198 | and then nothing puts that segment on the wire or wakes the sender, as long as nothing more is enqueued |
| TcpSystem.CanFinish | src/kernel_tasks/tcp_sender.c:46-125 | after any run, some continuation delivers the whole stream and empties the queue if and only if no enqueue fell between a sweep and the sleep after it |
| TcpSystem.WedgedRun | src/kernel_tasks/tcp_sender.c:124-125 | a run from a fresh connection in which one did |
| TcpSenderTask.EnqueueFollows | src/kernel_tasks/tcp_sender.c:21-21 | soft_unblock_task wakes the kernel's sender task as the enqueue wakes it in the system |
| TcpSenderTask.FallAsleepFollows | src/kernel_tasks/tcp_sender.c:125-125 | sleep_until puts it to sleep until the same time, or not at all |
| TcpSenderTask.WakeFollows | src/drivers/pit.c:14-15 | the timer can wake it exactly when it can in the system |
| TcpAcks.StaleAckLosesBytes | src/network/tcp.c:209-209 | an idle sender that takes an older acknowledgment loses its next bytes: a run that does so |
| TcpAcks.StaleAckCorrupts | src/network/tcp.c:209-209 | and then the peer can read bytes that are not the stream's: a run that does so |
| TcpAcks.StaleAckSplits | src/kernel_tasks/tcp_sender.c:75-79 | an acknowledgment that leaves a queued segment reaching past the window makes a later sweep enter the splitting branch, unless the sender sleeps for good: a run that does so |
| TcpAcks.StaleAckReachable | src/network/tcp.c:205-211 | a run from a fresh connection that leaves an idle sender with an older acknowledgment under way |
| TcpAcks.SplitReachable | src/kernel_tasks/tcp_sender.c:75-79 | a run from a fresh connection that leaves a full window queued with such an acknowledgment under way |
| TcpAcks.AckExactly | src/network/tcp.c:205-211 | taking an acknowledgment leaves every later run reading the stream and splitting nothing if and only if queued segments stay inside the send window and an idle sender's mark stays put, or the sender sleeps for good |
| TcpEnqueue.StreamSafety | src/kcore/kernel_main.c:181-190 | enqueueing while the mark stands at the end of the stream, whatever is queued, is enough for end-to-end safety in every run |
| TcpEnqueue.CoversIdleRule | src/kcore/kernel_main.c:181-190 | every run that enqueues only to an empty queue is such a run |
| TcpEnqueue.MisplacedCorrupts | src/kcore/kernel_main.c:184-187 | a segment stamped below the end of the stream can make the peer read bytes that are not the stream's: a run that does so |
| TcpEnqueue.EnqueueExactly | src/kcore/kernel_main.c:181-190 | all enqueues at a mark are safe if and only if the mark is at the end of the stream, or the sender is about to sleep for good, or the peer has all the new numbers can reach |
| TcpConnection.ReceiveInv | src/network/tcp.c:302-346 | no message lowers the state number, and windows exist from WAITING_THREEWAY_ACK on |
| TcpConnection.RunInv | src/network/tcp.c:302-346 | the same over any messages; the FIN_WAIT, CLOSING and TIME_WAIT states are never entered |
| TcpConnection.ListenerConnects | src/network/tcp.c:302-320 | a listening port is connected or past it if and only if a SYN and, later, an ACK have come |
| TcpConnection.ConnectorConnects | src/network/tcp.c:310-316 | a connecting port is connected or past it if and only if a SYN-ACK has come |
| TcpConnection.EstablishedExactly | src/network/tcp.c:310-316 | the flag tcp_connect waits for is set exactly from CONNECTED on |
| TcpConnection.ClosesAfterTwo | src/network/tcp.c:340-345 | CLOSE_WAIT becomes CLOSED after exactly two more messages and stays so |
| TcpConnection.Lifecycle | src/network/tcp.c:56-70 | from tcp_listen or tcp_connect, over any messages, the windows and states are as above |
| TcpConnection.ListenerOpens | src/network/tcp.c:304-320 | the first SYN opens the windows of a listening port, with these numbers, and the first ACK after it connects; everything before each is ignored |
| TcpConnection.ConnectorOpens | src/network/tcp.c:310-316 | the first SYN-ACK opens the windows of a connecting port and connects |
| TcpConnection.ConnectedCarries | src/network/tcp.c:203-258 | until a FIN-ACK comes, the receive window takes in every PSH-ACK segment in order and no other, the send mark is the number of the last ACK, and nothing else changes |
| TcpConnection.FinAckEnds | src/network/tcp.c:260-264 | the first FIN-ACK ends that: the state is CLOSE_WAIT or later and the windows stay as they were |
| TcpConnection.ClosesByFinAck | src/network/tcp.c:321-325 | a connected port reaches CLOSE_WAIT or beyond if and only if a FIN-ACK has come |
| TcpParse.GetFlags | src/network/tcp.c:372-385 | the nine flags at the bits of the header they belong to |
| TcpParse.ParsedAsBuilt | src/network/tcp.c:290-300 | a segment just built is received as the message it was built from |
| TcpParse.ReceivedAsSent | src/network/tcp.c:353-370 | also when it has gone over the wire as an array, for every data offset |
| TcpParse.ClassifiedAsBuilt | src/network/tcp.c:387-465 | each of the five classifiers accepts exactly the segments built with its flags |
| TcpConnection.Port.InitWindow | src/network/tcp.c:268-288 | fresh receive window; send mark 1 and the advertised window cut down to 1024 |
| TcpConnection.Port.RecvSegment | src/network/tcp.c:290-351 | the port entry changes as the state switch says |
| Scheduler.SwitchInv | src/multitask/dispatcher.asm:20-54 | the switch leaves every invariant in place if and only if the outgoing task holds the lock exactly once; the incoming one then holds none |
| Scheduler.ScheduleInv | src/multitask/multitask.c:117-144 | entered with exact accounting and the lock held once, the search ends and every invariant holds for the task dispatched |
| Scheduler.ScheduleShape | src/multitask/multitask.c:129-143 | only the outgoing and the incoming task change; the incoming one is running, an outgoing running one becomes ready |
| Scheduler.LeavingInv | src/multitask/multitask.c:61-69 | counting the current task out and rescheduling keeps every invariant if and only if scheduler() is entered with the lock held once |
| Scheduler.BlockExactly | src/multitask/multitask.c:61-69 | block_task keeps every invariant if and only if its caller holds one lock of its own, or none where block_task takes it |
| Scheduler.EnterInv | src/multitask/multitask.c:61-165 | every call that reaches scheduler() does so with the lock held once and interrupts off |
| Scheduler.SleepIsBlock | src/multitask/multitask.c:102-115 | sleep_until a time to come is block_task (SLEEPING, 1) with the time noted |
| Scheduler.UnblockInv | src/multitask/multitask.c:71-81 | unblock_task keeps the invariants if and only if its task is blocked or asleep and no lock is held |
| Scheduler.SoftUnblockInv | src/multitask/multitask.c:189-198 | soft_unblock_task keeps the invariants if and only if its task has not terminated |
| Scheduler.CreateInv | src/multitask/multitask.c:34-40 | create_task keeps the invariants if and only if the new state is neither running nor terminated |
| Scheduler.ReapInv | src/kernel_tasks/task_terminator.c:14-29 | unlinking the first terminated task keeps every invariant |
| Scheduler.NextInv | src/multitask/multitask.c:34-198 | every kernel call keeps every invariant |
| Scheduler.HandOver | src/multitask/multitask.c:61-94 | in every run from boot the lock counter equals the current task's own count, every dispatcher call is made at depth 1 with interrupts off, and the incoming task, never a terminated one, goes on at depth 0 with interrupts on |
| Scheduler.Accounting | src/multitask/multitask.c:42-59 | in every run from boot the counter is exact, pids are distinct, the only running task is the current one, the lock is held exactly while interrupts are off, and the search would end |
| SchedulerEffects.CallerLeaves | src/multitask/multitask.c:61-165 | a task that blocks, sleeps or terminates is left in that state, a sleeper with its time noted, without the processor; the one that gets it runs; no other is touched |
| SchedulerEffects.NoIdling | src/multitask/multitask.c:117-125 | the idle task gets the processor if and only if nobody else wants it |
| SchedulerEffects.PreemptedStaysReady | src/drivers/pit.c:22-26 | a preempted task stays ready unless it is its turn again |
| SchedulerEffects.WakeDispatches | src/multitask/multitask.c:71-81 | unblock_task gives the processor to the woken task, and the one that had it stays ready |
| SchedulerEffects.SleeperWakes | src/drivers/pit.c:14-15 | a task that went to sleep can be woken by the timer exactly when its time has passed, and then gets the processor |
| SchedulerEffects.SoftUnblockWakes | src/multitask/multitask.c:189-198 | a blocked or sleeping task becomes ready and is counted; no other is touched |
| SchedulerEffects.WokenWaits | src/multitask/multitask.c:189-198 | so it waits for the processor, and bounded waiting applies to it |
| SchedulerEffects.CreatedWaits | src/multitask/multitask.c:7-40 | the new task heads the list in the state asked for under a pid nobody has; a ready one waits for the processor |
| SchedulerEffects.CreatedIdle | src/multitask/multitask.c:36-37 | a new idle task replaces the idle task and nothing else |
| SchedulerEffects.ReapedOne | src/kernel_tasks/task_terminator.c:14-29 | a terminated task is unlinked if there is one, and no other is touched |
| SchedulerFairness.ChooseNearest | src/multitask/multitask.c:131-141 | the search settles on the nearest ready task |
| SchedulerFairness.ScheduleAdvances | src/multitask/multitask.c:117-144 | each scheduler call that leaves a task waiting brings its turn nearer |
| SchedulerFairness.StepAdvances | src/multitask/multitask.c:117-144 | no call but create_task puts a waiting task further back, and that by one at most |
| SchedulerFairness.BoundedWaiting | src/multitask/multitask.c:117-144 | a task that stays ready is dispatched within as many scheduler calls as there are tasks, plus one for each task created meanwhile, and that again for each task woken by the timer |
| SchedulerObject.Multitask.constructor | src/multitask/multitask.c:42-59 | the state at boot |
| SchedulerObject.Multitask.LockIrq | src/multitask/multitask.c:83-87 | interrupts off and depth one more |
| SchedulerObject.Multitask.UnlockIrq | src/multitask/multitask.c:89-94 | depth one less, interrupts on at depth 0 |
| SchedulerObject.Multitask.Dispatcher | src/multitask/dispatcher.asm:20-54 | reached only at lock depth 1; the next task becomes current and releases the lock unless it had terminated |
| SchedulerObject.Multitask.NextReady | src/multitask/multitask.c:131-141 | the unbounded search loop ends, at the next ready task in cyclic order |
| SchedulerObject.Multitask.Reschedule | src/multitask/multitask.c:117-144 | scheduler(): the idle task when nothing is ready, otherwise the next ready task |
| SchedulerObject.Multitask.BlockTask | src/multitask/multitask.c:61-69 | the caller is blocked, counted out and switched away from |
| SchedulerObject.Multitask.SleepUntil | src/multitask/multitask.c:102-115 | nothing if the time has passed, otherwise asleep until it |
| SchedulerObject.Multitask.TaskTermination | src/multitask/multitask.c:151-165 | the caller is marked terminated and never returned to |
| SchedulerObject.Multitask.SearchTask | src/multitask/multitask.c:180-187 | the first task with the pid |
| SchedulerObject.Multitask.UnblockTask | src/multitask/multitask.c:71-81 | the processor goes straight to the woken task |
| SchedulerObject.Multitask.SoftUnblockTask | src/multitask/multitask.c:189-198 | the task becomes ready unless it already was or is running |
| SchedulerObject.Multitask.CreateTask | src/multitask/multitask.c:34-40 | the new task heads the list under a new pid; an idle task replaces the idle task |
| SchedulerObject.Multitask.ReapTerminated | src/kernel_tasks/task_terminator.c:14-29 | the first terminated task is unlinked, if there is one |
| SchedulerObject.Multitask.TimerPreemption | src/drivers/pit.c:22-26 | the preemption that ends a timer interrupt |
| KernelHeap.MallocAccounts | src/libc/kheap.c:53-57 | a free run may be handed out wherever it lies: blocks stay disjoint and bits stay exact |
| KernelHeap.FreeAccounts | src/libc/kheap.c:79-85 | freeing a live block at its own size gives back exactly its bytes |
| KernelHeap.FreeAgain | src/libc/kheap.c:79-85 | freeing bytes no live block owns changes nothing |
| KernelHeap.FreeUndoesMalloc | src/libc/kheap.c:63-85 | kfree right after kmalloc restores the bitmap bit for bit |
| KernelHeap.LiveDeterminesBits | src/libc/kheap.c:63-77 | the live blocks determine the bitmap |
| KernelHeap.Heap.constructor | src/libc/kheap.c:25-29 | a cleared bitmap and no live block |
| KernelHeap.Heap.Fill | src/libc/kheap.c:63-77 | exactly the bits of the range take the value |
| KernelHeap.Heap.Kmalloc | src/libc/kheap.c:31-61 | the lowest start that fits among those the scan considers, marked and recorded; 0 and no change exactly when none fits |
| KernelHeap.Heap.Kfree | src/libc/kheap.c:79-85 | exactly the named bits are cleared; the accounts survive if and only if the bytes are a live block at its own size or nobody's |
| KernelHeap.PlainIsFirstFit | src/libc/kheap.c:11-16 | kmalloc_u returns the lowest free run of the size, and 0 exactly if there is none |
| KernelHeap.WholeHeapFits | src/libc/kheap.c:31-61 | an empty heap can be handed out whole |
| KernelHeap.WholeBytesPageFit | src/libc/kheap.c:18-23 | when no bitmap byte is partly used, kmalloc returns the lowest page-aligned free run, and 0 exactly if there is none |
| KernelHeap.AlignedExactly | src/libc/kheap.c:41-52 | an aligned request gets a page boundary if and only if each start off a page boundary that its scan would take has a free run on a page boundary below it |
| KernelHeap.MisalignedFollows | src/libc/kheap.c:41-52 | a block off a page boundary follows a used bit of its own bitmap byte |
| KernelHeap.MisalignedExample | src/libc/kheap.c:41-52 | with heap byte 0 used and byte 1 free, kmalloc (1) is not aligned |
| KernelHeap.ScanBit | src/libc/kheap.c:45-58 | one turn of the inner loop finds the answer or has refused one more start |
| KernelHeapRuns.TotalRemove | src/libc/kheap.c:79-85 | the sum of the live sizes drops by the size of the block removed, whichever it is |
| KernelHeapRuns.EmptyHeap | src/libc/kheap.c:25-29 | the cleared heap has nothing live and nothing used |
| KernelHeapRuns.KmallocSteps | src/libc/kheap.c:31-61 | a successful kmalloc, plain or aligned, is a step of such a run, a failed one changes nothing |
| KernelHeapRuns.KfreeSteps | src/libc/kheap.c:79-85 | so is a kfree of a live block at its own size |
| KernelHeapRuns.RunKeeps | src/libc/kheap.c:31-85 | over every run of allocations and frees, blocks are disjoint and inside the heap, a bit is set exactly when a live block owns its byte, and the bits set are the live sizes added up |
| KernelHeapRuns.BalancedRunRestores | src/libc/kheap.c:31-85 | a run that ends with the live blocks it began with ends with the same bitmap |
| FrameQueue.FrameRing.IsFull | src/kernel_tasks/network_handler_task.c:14-19 | full at 1023 frames |
| FrameQueue.FrameRing.IsEmpty | src/kernel_tasks/network_handler_task.c:49-49 | equal indices mean empty |
| FrameQueue.FrameRing.Push | src/kernel_tasks/network_handler_task.c:21-24 | the frame joins the end of the queue |
| FrameQueue.FrameRing.Front | src/kernel_tasks/network_handler_task.c:55-56 | the oldest frame |
| FrameQueue.FrameRing.Advance | src/kernel_tasks/network_handler_task.c:59-59 | the oldest frame leaves the queue |
| Wakeup.InitInv | src/kernel_tasks/network_handler_task.c:88-95 | the invariant holds when the handler has just been created |
| Wakeup.KernelUnharmed | src/multitask/multitask.c:34-198 | nothing another task or the timer does blocks, ends or unlists the handler |
| Wakeup.BlockInv | src/kernel_tasks/network_handler_task.c:48-53 | blocking inside the lock the queue was tested in leaves no frame behind |
| Wakeup.TestNeedsLock | src/kernel_tasks/network_handler_task.c:48-53 | tested with interrupts on, a frame that comes before the block is left with its handler blocked |
| Wakeup.StepInv | src/kernel_tasks/network_handler_task.c:12-64 | every step keeps the invariant; between lock_irq and the test, and the test and the block, no interrupt can fall |
| Wakeup.NoLostWakeup | src/kernel_tasks/network_handler_task.c:12-86 | in every run frames are handed up in the order accepted, each once, and a handler with frames to handle is not blocked except between publishing and waking |
| Wakeup.ReceiveNeverPublishes | src/kernel_tasks/network_handler_task.c:12-64 | for the receive queue the exception never arises |
| Wakeup.PublishGap | src/kernel_tasks/network_handler_task.c:40-41 | for the send queue it does, and the wake-up call ends it |
| Wakeup.FrameComes | src/kernel_tasks/network_handler_task.c:12-26 | a frame joins the queue and leaves the handler awake, or is dropped with 1023 queued |
| Wakeup.FrameSent | src/kernel_tasks/network_handler_task.c:28-40 | the same for a frame a task sends, before it wakes the handler |
| Wakeup.RoundDelivers | src/kernel_tasks/network_handler_task.c:48-60 | one uninterrupted round hands up the oldest frame and takes it off the queue |
| HandlerService.ServedInTime | src/kernel_tasks/network_handler_task.c:12-64 | while frames are queued and no sender is about to wake it, a handler without the processor gets it within as many scheduler calls as there are tasks, plus one for each created, and that again for each timer wake-up |
| Codec.NumberFieldBits | src/network/network_utils.c:55-69 | a field holds a value modulo 2 to the power of its size |
| Codec.ReadBack | src/network/network_utils.c:55-88 | reading a field just written gives the value modulo 2 to the power of its size |
| Codec.ReadOther | src/network/network_utils.c:55-88 | a field that does not overlap the one written reads as before |
| Codec.WriteBack | src/network/network_utils.c:55-88 | writing back what a field holds changes nothing |
| Codec.SetBits | src/network/network_utils.c:55-69 | the header with exactly that field overwritten |
| Codec.GetBits | src/network/network_utils.c:71-88 | the number the bits of the field spell, most significant first |
| Checksum.OnesSumReduced | src/network/network_utils.c:134-141 | folding the carries at the end equals adding with end-around carry at every step |
| Checksum.SumModulo | src/network/network_utils.c:134-141 | one's complement addition is addition modulo 0xffff, in which only zeros add up to 0 |
| Checksum.WordBytes | src/network/network_utils.c:106-111 | a word of the sum is two bytes of the buffer, high byte first |
| Checksum.AddWords | src/network/network_utils.c:106-111 | a buffer's whole words are added to the sum |
| Checksum.InternetChecksum | src/network/network_utils.c:100-144 | the complement of the one's complement sum of section 1 of RFC 1071 over header, pseudo header and zero-padded data, up to 65537 words; the fold loop ends |
| Checksum.ChecksumVerifies | src/network/network_utils.c:134-143 | summing the same words with the checksum in place of the zero gives all ones |
| Headers.AllReadBack | src/network/network_utils.c:55-88 | every field of an ascending list of writes reads back as written |
| Headers.TiledBits | src/network/network_utils.c:55-69 | bits covered by the fields written do not depend on what the buffer held |
| Headers.WordsWithField | src/network/network_utils.c:100-111 | writing a 16-bit field replaces exactly one word of the checksum's input |
| Headers.BuildIpv4 | src/network/ip.c:21-42 | the 20 header bytes depend on the arguments alone |
| Headers.Ipv4Partition | src/include/ip.h:15-41 | fields and checksum make up all 160 bits |
| Headers.Ipv4ReadBack | src/network/ip.c:24-35 | every field of a header just built reads back as given, modulo its size |
| Headers.Ipv4Verifies | src/network/ip.c:36-39 | internet_checksum of a header just built is 0 |
| Headers.BuildPseudo | src/network/network_utils.c:146-153 | the 12 pseudo-header bytes depend on the arguments alone |
| Headers.BuildTcp | src/network/tcp.c:3-28 | the fixed header bytes depend on the arguments alone; the options follow them |
| Headers.TcpPartition | src/include/tcp.h:13-49 | fields and checksum make up all 160 bits of the fixed header |
| Headers.TcpReadBack | src/network/tcp.c:5-21 | every field of a header just built reads back as given, modulo its size |
| Headers.TcpVerifies | src/network/tcp.c:23-28 | internet_checksum of a segment just built, pseudo header included, is 0 |
| Headers.ArrayRoundTrip | src/network/tcp.c:353-370 | array_to_tcp undoes tcp_to_array for every data offset from 5 to 15 |
| HeaderLayout.Ipv4At | src/include/ip.h:15-41 | the fields of a header just built read back at their bit offsets |
| HeaderLayout.PseudoAt | src/network/network_utils.c:146-153 | the same for the pseudo header |
| HeaderLayout.TcpAt | src/include/tcp.h:13-49 | the same for the numbers in a TCP header |
| HeaderLayout.TcpFlagsAt | src/include/tcp.h:19-27 | the same for its flags |
| NetStack.LayerBalance | src/network/ip.c:79-84 | after a layer's frees, what is left on the heap is what the layer below added |
| NetStack.FrameBalance | src/network/ethernet.c:20-25 | the same for Ethernet, where a full queue has already freed the array |
| NetStack.Stack.EnqueueSendFrame | src/kernel_tasks/network_handler_task.c:28-42 | a full queue frees the frame; otherwise a copy joins the queue |
| NetStack.Stack.SendEthernet | src/network/ethernet.c:14-26 | one queued frame with the given addresses, type and data; one block more on the heap, or nothing |
| NetStack.Stack.SendIpv4 | src/network/ip.c:70-85 | the same with an IPv4 header for the data in front |
| NetStack.Stack.SendUdp | src/network/udp.c:17-32 | the same with a UDP header; the heap gains exactly the queued frame, or is unchanged if the queue is full |
| NetStack.Stack.SendIcmp | src/network/icmp.c:19-32 | the same with an ICMP header |
| NetStack.SentBitmap | src/libc/kheap.c:31-85 | in the bitmap a send marks exactly one free run as long as the frame, or nothing |
| NetStack.FrameSizes | src/network/udp.c:27-27 | that run is as long as the payload and all headers |
| NetStack.Stack.RecvUdp | src/network/udp.c:34-50 | payload, ports and sender as they lie in the segment; the heap as before |
| NetStack.Stack.RecvIpv4 | src/network/ip.c:44-68 | the payload ends where the total-length field says; the heap as before unless the packet is ICMP or TCP |
| NetStack.Stack.RecvEthernet | src/network/ethernet.c:28-53 | dispatch on the frame type; the heap as before unless the frame carries ARP, ICMP or TCP |
| NetStack.UdpRoundTrip | src/network/udp.c:17-78 | a payload of up to 65507 bytes, sent and received with any padding, arrives unchanged at the named port with the sender's MAC, IP and port |
| Wire.EthernetBytes | src/network/ethernet.c:3-12 | destination, sender, type and data, in this order |
| Wire.UdpBytes | src/network/udp.c:3-15 | the bytes of a UDP header |
| Wire.IcmpBytes | src/network/icmp.c:3-17 | the bytes of an ICMP header |
| Wire.FrameEncloses | src/network/ip.c:70-85 | every byte of the Ethernet and IPv4 headers in front of a message |
| Wire.UdpOnWire | src/network/udp.c:17-32 | what udp_send_segment puts on the wire, to the address given, with checksums a receiver finds right |
| Wire.IcmpOnWire | src/network/icmp.c:19-32 | what send_icmp4_packet puts on the wire, likewise |
| Wire.UdpVerifies | src/network/udp.c:8-12 | internet_checksum of a UDP segment just built, pseudo header included, is 0 |
| Wire.IcmpVerifies | src/network/icmp.c:9-14 | internet_checksum of an ICMP message just built is 0 |
| NetStack.UdpPorts.Forward | src/network/udp.c:69-78 | a bound port gets payload and sender, a free one drops them, no other port is touched |
| Paging.TranslateMegabytes | src/libc/paging.c:145-145 | the masked translation takes the megabyte from the frame and the rest from the address |
| Paging.TranslateExactly | src/libc/paging.c:145-145 | the masked translation is right exactly when frame and page agree in their low 8 bits |
| Paging.Pager.FirstFrame | src/libc/paging.c:28-37 | the lowest free frame, none exactly if all are used |
| Paging.Pager.AllocPage | src/libc/paging.c:39-58 | an absent page gets the lowest free frame; a present one is left alone |
| Paging.Pager.MapNext | src/libc/paging.c:82-86 | one round of the loop maps one more page to the frame of its own number |
| Paging.Pager.constructor | src/libc/paging.c:72-90 | pages 0 to 0xf00 are mapped to frames 0 to 0xf00, and no other |
| Paging.Pager.Virtual2Phys | src/libc/paging.c:136-146 | 0 for an address not mapped; otherwise the frame's megabyte and the address's place in it; on an identity mapping the address itself |
| Paging.Pager.IdentityTranslates | src/libc/paging.c:136-146 | on the whole mapped range the translation is the identity |

## Left out

- TcpSender.SegmentQueue.Sweep: does not model the branch that splits an oversized segment, which takes an absolute sequence number for a data offset and never resets its remainder; it demands that no due and unacknowledged segment needs it, and `TcpSystem.DemandsMet` proves that none does.
- TcpSender.SegmentQueue.Enqueue: does not model the copies that stay allocated when no slot is free.
- TcpSystem.CanFinish: holds while at least 400 ticks are left before the end of the tick counter.
- TcpConnection.Port.InitWindow: takes the memory it allocates to be zero; what other memory does to a window is said by `TcpWindow.RecvWindow.constructor`.
- NetStack.Stack.RecvIpv4: demands a UDP packet's total length to be at least its headers and at most what arrived, which the source takes on trust; does not model what ICMP and TCP packets lead to, and after them says of the heap only that nothing live was freed.
- NetStack.Stack.RecvEthernet: does not model ARP frames, with the same consequence.
- NetStack.Stack.RecvUdp: demands at least the 8 header bytes, where the source's unsigned subtraction would wrap.
- NetStack.UdpPorts.Forward: demands that the payload fits the bound buffer, beyond which the source would write unchecked, and a port below 65535, which the source would index one past its table.
- TcpSystem.StreamSafety: covers one direction of one connection; the acknowledgment number a data segment carries is not modelled, because the receiver ignores it on PSH-ACK segments.
- TcpConnection.Port.RecvSegment: does not model the replies (SYN-ACK, ACK, FIN-ACK) sent on a change of state.
- Scheduler.Accounting: the flag with which pit_callback decides to preempt is not modelled; preemption may happen on any tick, which includes every real case.
- Wakeup.NoLostWakeup: one sending task; two that publish at once would write the same slot.
- NetStack.Stack.SendUdp: stops at a failed allocation, where the kernel goes on with a null pointer.
- Bitmap.Fill: `begin_bit + i` is not wrapped at 32 bits, nor in `FindSequence`.
- TCP heap accounting: `tcp_send_segment` does not release its array.
- Retransmission timing beyond the deadline of one sweep.
- Port allocation in `tcp_bind` and `udp_port_bind`, and `udp_port_unbind`.
- ICMP echo handling and ARP.
- `free_page`, directory switching and the page fault handler.
- Stack layout of new tasks, task names, and printing.
- Port I/O, the network card, keyboard, screen, serial line, PIC and all assembly but the effect of `dispatcher`.
- The forwarding functions between layers.
