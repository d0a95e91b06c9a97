/** No lost wake-up: a frame queue, its handler task and the scheduler together.

    The handler's loop is taken one kernel call and one access to the queue at a time: lock_irq, compare
    the indices, then either block_task inside that lock or unlock_irq; hand the frame up; free it and
    advance.  Interrupts may fall between any two of these steps as long as they are on, which is the
    scheduler's business and not assumed here.  A receive interrupt enqueues and wakes the handler in
    one step.  A sending task does it in two, and can be preempted in between. */
module Wakeup {
  import opened Scheduler
  import opened FrameQueue

  datatype Position = AtTop | Locked | SawEmpty | SawFrame | Checked | HandedUp

  datatype System = System(
    kernel: Pointed,
    handler: nat,            // pid of the handler task
    position: Position,      // where in its loop the handler is
    queue: seq<Frame>,
    publishing: bool,        // a sender has published a frame and not yet woken the handler
    accepted: seq<Frame>,    // every frame ever enqueued
    delivered: seq<Frame>)   // every frame ever handed up

  datatype Event =
    | KernelCall(step: Step)       // any other task, the timer or another interrupt
    | FrameInterrupt(frame: Frame)
    | Publish(frame: Frame)
    | WakeHandler
    | LockTop | Test | BlockOnEmpty | UnlockTop | HandUp | Advance // the handler

  function Index(k: Pointed, pid: nat): nat { Find(k.tasks, pid) }

  predicate Alive(k: Pointed, pid: nat) { Index(k, pid) < |k.tasks| }

  function StateOf(k: Pointed, pid: nat): TaskState
    requires Alive(k, pid)
  {
    k.tasks[Index(k, pid)].state
  }

  predicate IsCurrent(k: Pointed, pid: nat) { Alive(k, pid) && k.current == Index(k, pid) }

  predicate Current(s: System) { IsCurrent(s.kernel, s.handler) }

  /** The handler's code is between its lock_irq and the end of the lock. */
  predicate InLock(p: Position) { p.Locked? || p.SawEmpty? || p.SawFrame? }

  /** The calls that can interrupt a running task. */
  predicate ByInterrupt(step: Step) { step.TimerWake? || step.TimerPreempt? || step.SoftUnblockTask? }

  ghost predicate Enabled(s: System, e: Event)
  {
    match e
    case KernelCall(step) =>
      Scheduler.Enabled(s.kernel, step) && ((ByInterrupt(step) && s.kernel.irqOn) || !Current(s))
    case FrameInterrupt(_) => s.kernel.irqOn && Wakeable(s)
    case Publish(_) => s.kernel.current != IDLE && !Current(s) && !s.publishing
    case WakeHandler => s.publishing && !Current(s) && Wakeable(s)
    case LockTop => Current(s) && s.position == AtTop
    case Test => Current(s) && s.position == Locked
    case BlockOnEmpty => Current(s) && s.position == SawEmpty
    case UnlockTop => Current(s) && s.position == SawFrame
    case HandUp => Current(s) && s.position == Checked
    case Advance => Current(s) && s.position == HandedUp
  }

  predicate Wakeable(s: System) { Alive(s.kernel, s.handler) && StateOf(s.kernel, s.handler) != Terminated }

  function Woken(s: System): Pointed
    requires Alive(s.kernel, s.handler)
  {
    SoftUnblock(s.kernel, Index(s.kernel, s.handler))
  }

  predicate Room(s: System) { |s.queue| < QUEUE_SIZE - 1 }

  ghost function Next(s: System, e: Event): System
    requires Inv(s) && Enabled(s, e)
  {
    match e
    case KernelCall(step) => s.(kernel := Scheduler.Next(s.kernel, step))
    case FrameInterrupt(frame) =>
      if Room(s) then s.(queue := s.queue + [frame], accepted := s.accepted + [frame], kernel := Woken(s)) else s
    case Publish(frame) =>
      if Room(s) then s.(queue := s.queue + [frame], accepted := s.accepted + [frame], publishing := true) else s
    case WakeHandler => s.(publishing := false, kernel := Woken(s))
    case LockTop => s.(kernel := Scheduler.Next(s.kernel, LockIrq), position := Locked)
    case Test => s.(position := if s.queue == [] then SawEmpty else SawFrame)
    case BlockOnEmpty => s.(kernel := Scheduler.Next(s.kernel, BlockTask(Blocked, false)), position := AtTop)
    case UnlockTop => s.(kernel := Scheduler.Next(s.kernel, UnlockIrq), position := Checked)
    case HandUp => s.(delivered := s.delivered + [s.queue[0]], position := HandedUp)
    case Advance => s.(queue := s.queue[1..], position := AtTop)
  }

  ghost predicate Inv(s: System)
  {
    && Scheduler.Inv(s.kernel) && Alive(s.kernel, s.handler)
    && StateOf(s.kernel, s.handler) in {Running, Ready, Blocked}
    && (StateOf(s.kernel, s.handler) == Blocked ==> s.position == AtTop && (s.queue == [] || s.publishing))
    && (InLock(s.position) ==> Current(s) && s.kernel.depth == 1 && !s.kernel.irqOn)
    && (Current(s) && !InLock(s.position) ==> s.kernel.depth == 0)
    && (s.position == SawEmpty ==> s.queue == [])
    && (s.position in {SawFrame, Checked, HandedUp} ==> s.queue != [])
    && |s.queue| < QUEUE_SIZE
    && s.accepted == s.delivered + Pending(s)
  }

  /** Frames accepted and not yet handed up. */
  function Pending(s: System): seq<Frame>
  {
    if s.position == HandedUp && s.queue != [] then s.queue[1..] else s.queue
  }

  // ---------- What other tasks can do to the handler ----------

  /** A step of another task or of the timer leaves the handler listed, and does not block it. */
  ghost predicate Unharmed(k: Pointed, k': Pointed, pid: nat)
  {
    && Alive(k, pid) && Alive(k', pid)
    && (StateOf(k, pid) in {Running, Ready} ==> StateOf(k', pid) in {Running, Ready})
    && (StateOf(k, pid) == Blocked ==> StateOf(k', pid) in {Running, Ready, Blocked})
  }

  lemma ScheduleUnharmed(k: Pointed, r: Resume, pid: nat)
    requires Searchable(k) && Alive(k, pid) && StateOf(k, pid) in {Running, Ready, Blocked}
    requires k.current == Index(k, pid) ==> k.counter != 0
    ensures Unharmed(k, Schedule(k, r), pid)
  {
    hide Schedule;
    ScheduleShape(k, r);
    FindSame(k.tasks, Schedule(k, r).tasks, pid);
  }

  /** A task that leaves the processor leaves the handler alone. */
  lemma LeaveUnharmed(k: Pointed, step: Step, pid: nat)
    requires Scheduler.Inv(k) && Scheduler.Enabled(k, step) && Schedules(step) && !step.TimerPreempt?
    requires Alive(k, pid) && StateOf(k, pid) in {Running, Ready, Blocked} && k.current != Index(k, pid)
    ensures Unharmed(k, Scheduler.Next(k, step), pid)
  {
    hide Schedule, Runnable, Pids, Entering, Searchable;
    EnterInv(k, step);
    EnteringShape(k, step);
    FindSame(k.tasks, Entering(k, step).tasks, pid);
    ScheduleUnharmed(Entering(k, step), ResumeOf(step), pid);
  }

  lemma CreateUnharmed(k: Pointed, state: TaskState, pid: nat)
    requires Scheduler.Inv(k) && Alive(k, pid)
    ensures Unharmed(k, Create(k, state), pid)
    ensures k.current != Index(k, pid) ==> Create(k, state).current != Index(Create(k, state), pid)
  {
    if state != IdleState {
      var k' := Create(k, state);
      assert k'.tasks[1..] == k.tasks && k'.tasks[0].pid != pid;
    }
  }

  lemma ReapUnharmed(k: Pointed, pid: nat)
    requires Scheduler.Inv(k) && Alive(k, pid) && StateOf(k, pid) != Terminated
    ensures Unharmed(k, Reap(k), pid)
    ensures k.current != Index(k, pid) ==> Reap(k).current != Index(Reap(k), pid)
  {
    hide Runnable, Pids, Reap;
    ReapIndex(k, pid);
  }

  lemma SameUnharmed(k: Pointed, k': Pointed, pid: nat)
    requires k'.current == k.current && |k'.tasks| == |k.tasks|
    requires forall i :: 0 <= i < |k.tasks| ==> k'.tasks[i].pid == k.tasks[i].pid
    requires forall i :: 0 <= i < |k.tasks| && k'.tasks[i].state != k.tasks[i].state ==> k'.tasks[i].state == Ready
    requires Alive(k, pid)
    ensures Unharmed(k, k', pid) && Index(k', pid) == Index(k, pid)
  {
    FindSame(k.tasks, k'.tasks, pid);
  }

  lemma UnblockUnharmed(k: Pointed, j: nat, pid: nat)
    requires j < |k.tasks| && Alive(k, pid)
    ensures Unharmed(k, Unblock(k, j), pid)
  {
    hide Switch, Find, Unblocking;
    UnblockingShape(k, j);
    SwitchShape(Unblocking(k, j), j, InUnblockTask);
    FindSame(k.tasks, Unblock(k, j).tasks, pid);
  }

  lemma PreemptUnharmed(k: Pointed, pid: nat)
    requires Scheduler.Inv(k) && k.irqOn && Alive(k, pid) && StateOf(k, pid) in {Running, Ready, Blocked}
    ensures Unharmed(k, Scheduler.Next(k, TimerPreempt), pid)
  {
    hide Schedule, Runnable, Pids, Searchable;
    EnterInv(k, TimerPreempt);
    SameUnharmed(k, Lock(k), pid);
    if k.current == Index(k, pid) {
      SomeRunnable(k.tasks);
      assert Counted(k.tasks[k.current]) == 1;
    }
    ScheduleUnharmed(Lock(k), InTimer, pid);
  }

  lemma KernelUnharmed(k: Pointed, step: Step, pid: nat)
    requires Scheduler.Inv(k) && Scheduler.Enabled(k, step)
    requires Alive(k, pid) && StateOf(k, pid) in {Running, Ready, Blocked}
    requires ByInterrupt(step) || k.current != Index(k, pid)
    ensures Unharmed(k, Scheduler.Next(k, step), pid)
    ensures !Dispatches(step) && k.current != Index(k, pid) ==> !IsCurrent(Scheduler.Next(k, step), pid)
  {
    hide Schedule, Runnable, Pids, Unblock, Create, Reap, Unharmed, Entering;
    match step
    case LockIrq => SameUnharmed(k, Lock(k), pid);
    case UnlockIrq => SameUnharmed(k, Unlock(k), pid);
    case SleepUntil(ticks, tick) =>
      if ticks < tick {
        SameUnharmed(k, k, pid);
      } else {
        LeaveUnharmed(k, step, pid);
      }
    case BlockTask(_, _) => LeaveUnharmed(k, step, pid);
    case Terminate => LeaveUnharmed(k, step, pid);
    case CreateTask(state) => CreateUnharmed(k, state, pid);
    case SoftUnblockTask(j) => SameUnharmed(k, SoftUnblock(k, j), pid);
    case ReapTask => ReapUnharmed(k, pid);
    case TimerWake(j, _) => UnblockUnharmed(k, j, pid);
    case TimerPreempt => PreemptUnharmed(k, pid);
  }

  // ---------- Every step, every run ----------

  lemma WokenInv(s: System)
    requires Scheduler.Inv(s.kernel) && Wakeable(s) && StateOf(s.kernel, s.handler) in {Running, Ready, Blocked}
    ensures Scheduler.Inv(Woken(s)) && Alive(Woken(s), s.handler) && StateOf(Woken(s), s.handler) in {Running, Ready}
    ensures IsCurrent(Woken(s), s.handler) == Current(s)
    ensures Woken(s).depth == s.kernel.depth && Woken(s).irqOn == s.kernel.irqOn
  {
    hide Runnable, Pids;
    var i := Index(s.kernel, s.handler);
    SoftUnblockInv(s.kernel, i);
    FindSame(s.kernel.tasks, Woken(s).tasks, s.handler);
  }

  /** A task that calls block_task is blocked when the call has switched away from it. */
  lemma BlocksCaller(k: Pointed, lock: bool, pid: nat)
    requires Scheduler.Inv(k) && Scheduler.Enabled(k, BlockTask(Blocked, lock)) && IsCurrent(k, pid)
    ensures var k' := Scheduler.Next(k, BlockTask(Blocked, lock));
      Scheduler.Inv(k') && Alive(k', pid) && StateOf(k', pid) == Blocked && !IsCurrent(k', pid)
  {
    hide Schedule, Runnable, Pids;
    var step := BlockTask(Blocked, lock);
    EnterInv(k, step);
    ScheduleShape(Entering(k, step), InBlockTask);
    FindSame(k.tasks, Schedule(Entering(k, step), InBlockTask).tasks, pid);
  }

  /** Blocking inside the lock the queue was tested in leaves no frame behind. */
  lemma BlockInv(s: System)
    requires Inv(s) && Enabled(s, BlockOnEmpty)
    ensures Scheduler.Enabled(s.kernel, BlockTask(Blocked, false))
    ensures Inv(Next(s, BlockOnEmpty)) && StateOf(Next(s, BlockOnEmpty).kernel, s.handler) == Blocked
  {
    hide Scheduler.Next, Runnable, Pids;
    BlocksCaller(s.kernel, false, s.handler);
  }

  lemma KernelInv(s: System, step: Step)
    requires Inv(s) && Enabled(s, KernelCall(step))
    ensures Inv(Next(s, KernelCall(step)))
  {
    hide Scheduler.Next, Scheduler.Inv, Scheduler.Enabled;
    NextInv(s.kernel, step);
    KernelUnharmed(s.kernel, step, s.handler);
    StepDepth(s.kernel, step);
  }

  /** A step that switches tasks ends at depth 0; an interrupt does not change the depth otherwise. */
  lemma StepDepth(k: Pointed, step: Step)
    requires Scheduler.Inv(k) && Scheduler.Enabled(k, step)
    ensures Dispatches(step) ==> Scheduler.Next(k, step).depth == 0
    ensures step.SoftUnblockTask? ==> Scheduler.Next(k, step).depth == k.depth
  {
    hide Schedule, Runnable, Pids, Entering, Unblock, Create, Reap;
    NextInv(k, step);
    if Schedules(step) {
      EnterInv(k, step);
    } else if step.TimerWake? {
      UnblockInv(k, step.sleeper);
    }
  }

  lemma InterruptInv(s: System, frame: Frame)
    requires Inv(s) && Enabled(s, FrameInterrupt(frame))
    ensures Inv(Next(s, FrameInterrupt(frame)))
  {
    hide Scheduler.Inv, Woken;
    WokenInv(s);
  }

  lemma SenderInv(s: System, e: Event)
    requires Inv(s) && Enabled(s, e) && (e.Publish? || e.WakeHandler?)
    ensures Inv(Next(s, e))
  {
    hide Scheduler.Inv, Woken;
    if e.WakeHandler? {
      WokenInv(s);
    }
  }

  lemma LockInv(s: System, e: Event)
    requires Inv(s) && Enabled(s, e) && (e.LockTop? || e.UnlockTop?)
    ensures Inv(Next(s, e))
  {
    hide Runnable, Pids, Find;
    var step := if e.LockTop? then LockIrq else UnlockIrq;
    NextInv(s.kernel, step);
    SameUnharmed(s.kernel, Scheduler.Next(s.kernel, step), s.handler);
  }

  /** The handler's accesses to the queue. */
  lemma HandlerInv(s: System, e: Event)
    requires Inv(s) && Enabled(s, e) && (e.Test? || e.HandUp? || e.Advance?)
    ensures Inv(Next(s, e))
  {
    hide Scheduler.Inv, Find;
  }

  lemma StepInv(s: System, e: Event)
    requires Inv(s) && Enabled(s, e)
    ensures Inv(Next(s, e))
  {
    hide Inv, Next, Enabled;
    match e
    case KernelCall(step) => KernelInv(s, step);
    case FrameInterrupt(frame) => InterruptInv(s, frame);
    case Publish(_) => SenderInv(s, e);
    case WakeHandler => SenderInv(s, e);
    case BlockOnEmpty => BlockInv(s);
    case LockTop => LockInv(s, e);
    case UnlockTop => LockInv(s, e);
    case _ => HandlerInv(s, e);
  }

  /** The lock is what the result rests on.  Had the handler compared the indices with interrupts on,
      as it is at the top of its loop, and then called block_task, a frame could come in between: its
      wake-up finds the handler running and does nothing, and the handler blocks with the frame queued. */
  lemma TestNeedsLock(s: System, frame: Frame)
    requires Inv(s) && Current(s) && s.position == AtTop && s.queue == []
    ensures Enabled(s, FrameInterrupt(frame))
    ensures var came := Next(s, FrameInterrupt(frame));
      && came.queue == [frame] && !s.publishing == !came.publishing
      && Scheduler.Inv(came.kernel) && Scheduler.Enabled(came.kernel, BlockTask(Blocked, true))
      && Alive(Scheduler.Next(came.kernel, BlockTask(Blocked, true)), s.handler)
      && StateOf(Scheduler.Next(came.kernel, BlockTask(Blocked, true)), s.handler) == Blocked
  {
    hide Scheduler.Next, Runnable, Pids;
    assert Woken(s) == s.kernel;
    BlocksCaller(s.kernel, true, s.handler);
  }

  // ---------- What a frame and a round of the handler do ----------

  /** A frame that comes while there is room joins the end of the queue and leaves the handler awake; with
      1023 frames queued it is dropped. */
  lemma FrameComes(s: System, frame: Frame)
    requires Inv(s) && Enabled(s, FrameInterrupt(frame))
    ensures var came := Next(s, FrameInterrupt(frame));
      if |s.queue| == 1023 then came == s
      else
        && came.queue == s.queue + [frame] && came.accepted == s.accepted + [frame] && came.delivered == s.delivered
        && Alive(came.kernel, s.handler) && StateOf(came.kernel, s.handler) in {Running, Ready}
  {
    hide Scheduler.Inv, Woken;
    WokenInv(s);
  }

  /** A frame a task sends joins the end of the queue too, if there is room. */
  lemma FrameSent(s: System, frame: Frame)
    requires Inv(s) && Enabled(s, Publish(frame))
    ensures var sent := Next(s, Publish(frame));
      if |s.queue| == 1023 then sent == s
      else sent == s.(queue := s.queue + [frame], accepted := s.accepted + [frame], publishing := true)
  {
  }

  /** One round of the handler, uninterrupted, hands up the oldest frame and takes it off the queue. */
  lemma RoundDelivers(s: System) returns (last: System)
    requires Inv(s) && Current(s) && s.position == AtTop && s.queue != []
    ensures Run(s, [LockTop, Test, UnlockTop, HandUp, Advance], last) && Inv(last)
    ensures last.delivered == s.delivered + [s.queue[0]] && last.queue == s.queue[1..] && last.accepted == s.accepted
    ensures Current(last) && last.position == AtTop
  {
    hide Runnable, Pids, Scheduler.Inv, Find, Scheduler.Next, Scheduler.Enabled;
    StepInv(s, LockTop);
    var locked := Next(s, LockTop);
    StepInv(locked, Test);
    var seen := Next(locked, Test);
    StepInv(seen, UnlockTop);
    StaysCurrent(seen);
    var checked := Next(seen, UnlockTop);
    StepInv(checked, HandUp);
    var handed := Next(checked, HandUp);
    StepInv(handed, Advance);
    last := Next(handed, Advance);
    RunFive(s, locked, seen, checked, handed, last);
  }

  lemma StaysCurrent(s: System)
    requires Inv(s) && Enabled(s, UnlockTop)
    ensures Current(Next(s, UnlockTop))
  {
    hide Runnable, Pids, Find;
    SameUnharmed(s.kernel, Unlock(s.kernel), s.handler);
  }

  lemma RunFive(s: System, locked: System, seen: System, checked: System, handed: System, last: System)
    requires Inv(s) && Enabled(s, LockTop) && locked == Next(s, LockTop)
    requires Inv(locked) && Enabled(locked, Test) && seen == Next(locked, Test)
    requires Inv(seen) && Enabled(seen, UnlockTop) && checked == Next(seen, UnlockTop)
    requires Inv(checked) && Enabled(checked, HandUp) && handed == Next(checked, HandUp)
    requires Inv(handed) && Enabled(handed, Advance) && last == Next(handed, Advance)
    ensures Run(s, [LockTop, Test, UnlockTop, HandUp, Advance], last)
  {
    hide Inv, Enabled, Next;
    assert Run(last, [], last);
    assert [Advance][1..] == [];
    assert Run(handed, [Advance], last);
    assert [HandUp, Advance][1..] == [Advance];
    assert Run(checked, [HandUp, Advance], last);
    assert [UnlockTop, HandUp, Advance][1..] == [HandUp, Advance];
    assert Run(seen, [UnlockTop, HandUp, Advance], last);
    assert [Test, UnlockTop, HandUp, Advance][1..] == [UnlockTop, HandUp, Advance];
    assert Run(locked, [Test, UnlockTop, HandUp, Advance], last);
    assert [LockTop, Test, UnlockTop, HandUp, Advance][1..] == [Test, UnlockTop, HandUp, Advance];
  }

  /** nht_init: the handler has just been created, at the top of its loop, with nothing queued. */
  ghost predicate Init(s: System, before: Pointed)
  {
    && Scheduler.Inv(before) && before.current != IDLE && s.kernel == Create(before, Ready) && s.handler == s.kernel.lastPid
    && s.position == AtTop && s.queue == [] && !s.publishing && s.accepted == [] && s.delivered == []
  }

  lemma InitInv(s: System, before: Pointed)
    requires Init(s, before)
    ensures Inv(s)
  {
    hide Runnable, Pids;
    CreateInv(before, Ready);
    assert s.kernel.tasks[0].pid == s.handler;
  }

  /** The exception is real: publishing a frame to a blocked handler leaves it blocked with work to do,
      until the wake-up call. */
  lemma PublishGap(s: System, frame: Frame)
    requires Inv(s) && StateOf(s.kernel, s.handler) == Blocked && Room(s) && !s.publishing && Enabled(s, Publish(frame))
    ensures var published := Next(s, Publish(frame));
      && published.queue != [] && Alive(published.kernel, s.handler) && StateOf(published.kernel, s.handler) == Blocked
      && Enabled(published, WakeHandler)
      && Alive(Next(published, WakeHandler).kernel, s.handler)
      && StateOf(Next(published, WakeHandler).kernel, s.handler) == Ready
  {
    hide Runnable, Pids;
    var published := Next(s, Publish(frame));
    WokenInv(published);
    FindSame(s.kernel.tasks, Woken(published).tasks, s.handler);
  }

  /** `Inv` is there to make Next applicable; by StepInv it never stops a run that starts from it. */
  ghost predicate Run(s: System, events: seq<Event>, last: System)
    decreases events
  {
    if events == [] then s == last
    else Inv(s) && Enabled(s, events[0]) && Run(Next(s, events[0]), events[1..], last)
  }

  lemma {:induction false} RunInv(s: System, events: seq<Event>, last: System)
    requires Inv(s) && Run(s, events, last)
    ensures Inv(last)
    decreases events
  {
    if events != [] {
      StepInv(s, events[0]);
      RunInv(Next(s, events[0]), events[1..], last);
    }
  }

  /** In every run: frames are handed up exactly in the order they were accepted, each once; a handler
      with frames to handle is never blocked, except between a sender's publishing a frame and its
      wake-up call. */
  lemma NoLostWakeup(s: System, events: seq<Event>, last: System)
    requires Inv(s) && Run(s, events, last)
    ensures last.delivered <= last.accepted
    ensures last.accepted == last.delivered + Pending(last)
    ensures Alive(last.kernel, last.handler)
    ensures last.queue != [] && !last.publishing ==> StateOf(last.kernel, last.handler) != Blocked
  {
    RunInv(s, events, last);
  }

  /** Without two-step senders, as for the receive queue, the exception never arises. */
  lemma {:induction false} ReceiveNeverPublishes(s: System, events: seq<Event>, last: System)
    requires Inv(s) && Run(s, events, last) && !s.publishing
    requires forall i :: 0 <= i < |events| ==> !events[i].Publish?
    ensures Alive(last.kernel, last.handler)
    ensures last.queue != [] ==> StateOf(last.kernel, last.handler) != Blocked
    decreases events
  {
    if events != [] {
      StepInv(s, events[0]);
      ReceiveNeverPublishes(Next(s, events[0]), events[1..], last);
    }
  }
}
