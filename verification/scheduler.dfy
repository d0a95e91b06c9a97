/** The task scheduler of src/multitask/multitask.c, with the timer of src/drivers/pit.c and the
    reaper of src/kernel_tasks/task_terminator.c.

    `Kernel` is the scheduler's state as a value and `Next` one kernel call on it.  The linked list of
    TCBs is the sequence `tasks`, head first, and current_task is an index into it; the idle task is
    outside the list and its index is IDLE.

    `resume` and `held` are no TCB fields; they say what is on the task's stack.  `resume` is where a
    task that is not running returns to.  Every such place starts by calling unlock_irq, except that a
    terminated task has nowhere to return to.  `held` counts the lock_irq calls of the task's own code,
    block_task and the like included, that its own code has yet to match; a new task owes the
    unlock_irq of task_entry.  The kernel has one lock_irq_counter, `depth`, for all of them. */
module Scheduler {
  const IDLE: int := -1

  datatype TaskState = Blocked | Running | Ready | Sleeping | IdleState | Terminated

  datatype Resume = InTaskEntry | InBlockTask | InUnblockTask | InTimer | Nowhere

  datatype Task = Task(pid: nat, state: TaskState, sleepUntil: nat, resume: Resume, held: int)

  datatype Kernel = Kernel(
    tasks: seq<Task>,
    idle: Task,
    current: int,
    counter: int,   // ready_to_run_counter
    lastPid: nat,
    depth: int,     // lock_irq_counter
    irqOn: bool)

  predicate IsIndex(k: Kernel, i: int) { IDLE <= i < |k.tasks| }

  type Pointed = k: Kernel | IsIndex(k, k.current)
    witness Kernel([], Task(0, IdleState, 0, InTaskEntry, 0), IDLE, 0, 0, 0, true)

  function TaskAt(k: Kernel, i: int): Task
    requires IsIndex(k, i)
  {
    if i == IDLE then k.idle else k.tasks[i]
  }

  function Put(k: Pointed, i: int, t: Task): Pointed
    requires IsIndex(k, i)
  {
    if i == IDLE then k.(idle := t) else k.(tasks := k.tasks[i := t])
  }

  function WithState(k: Pointed, i: int, state: TaskState): Pointed
    requires IsIndex(k, i)
  {
    Put(k, i, TaskAt(k, i).(state := state))
  }

  /** search_task: the index of the first task with this pid, or the length if there is none. */
  function Find(tasks: seq<Task>, pid: nat): (i: nat)
    ensures i <= |tasks|
    ensures i < |tasks| ==> tasks[i].pid == pid
    ensures forall j :: 0 <= j < i ==> tasks[j].pid != pid
  {
    if tasks == [] || tasks[0].pid == pid then 0 else 1 + Find(tasks[1..], pid)
  }

  lemma {:induction false} FindSame(a: seq<Task>, b: seq<Task>, pid: nat)
    requires |a| == |b| && forall i :: 0 <= i < |a| ==> a[i].pid == b[i].pid
    ensures Find(a, pid) == Find(b, pid)
  {
    if a != [] && a[0].pid != pid {
      FindSame(a[1..], b[1..], pid);
    }
  }

  /** First ready task at or after index `from`, or the length if there is none. */
  function FirstReady(tasks: seq<Task>, from: nat): (i: nat)
    requires from <= |tasks|
    ensures from <= i <= |tasks|
    ensures i < |tasks| ==> tasks[i].state == Ready
    ensures forall j :: from <= j < i ==> tasks[j].state != Ready
    decreases |tasks| - from
  {
    if from == |tasks| || tasks[from].state == Ready then from else FirstReady(tasks, from + 1)
  }

  lemma FirstReadyStep(tasks: seq<Task>, i: nat)
    requires i < |tasks|
    ensures FirstReady(tasks, i) == if tasks[i].state == Ready then i else FirstReady(tasks, i + 1)
    ensures FirstReady(tasks, |tasks|) == |tasks|
  {
  }

  /** Where the scheduler's search settles: the next ready task after the current one, wrapping round
      to the head; the idle task is followed by the head.  The length if no task is ready. */
  function Choose(k: Pointed): (i: nat)
    ensures i <= |k.tasks|
    ensures i < |k.tasks| ==> k.tasks[i].state == Ready
    ensures i == |k.tasks| <==> forall j :: 0 <= j < |k.tasks| ==> k.tasks[j].state != Ready
  {
    var i := FirstReady(k.tasks, k.current + 1);
    if i < |k.tasks| then i else FirstReady(k.tasks, 0)
  }

  // ---------- Kernel calls ----------

  function Hold(k: Pointed, locks: int): Pointed
  {
    Put(k, k.current, TaskAt(k, k.current).(held := TaskAt(k, k.current).held + locks))
  }

  function Lock(k: Pointed): Pointed { Hold(k, 1).(depth := k.depth + 1, irqOn := false) }

  function Unlock(k: Pointed): Pointed { Hold(k, -1).(depth := k.depth - 1, irqOn := k.irqOn || k.depth - 1 == 0) }

  /** dispatcher, and then what the incoming task does first: release the lock. */
  function Switch(k: Pointed, next: int, r: Resume): Pointed
    requires IsIndex(k, next)
  {
    var saved := Put(k, k.current, TaskAt(k, k.current).(resume := r));
    var switched := saved.(current := next);
    if TaskAt(switched, next).resume == Nowhere then switched else Unlock(switched)
  }

  /** What scheduler() does to the current task before it searches. */
  function Yielded(k: Pointed): Pointed
  {
    if TaskAt(k, k.current).state == Running then WithState(k, k.current, Ready) else k
  }

  /** The search of scheduler() ends: if it is entered at all, some task is ready. */
  predicate Searchable(k: Pointed)
  {
    k.counter != 0 ==> Choose(Yielded(k)) < |k.tasks|
  }

  /** Whom scheduler() dispatches, and the state in which it calls dispatcher. */
  function Target(k: Pointed): int { if k.counter == 0 then IDLE else Choose(Yielded(k)) }

  function Prepared(k: Pointed): Pointed
    requires Searchable(k)
  {
    if k.counter == 0 then k else WithState(Yielded(k), Target(k), Running)
  }

  function Schedule(k: Pointed, r: Resume): Pointed
    requires Searchable(k)
  {
    Switch(Prepared(k), Target(k), r)
  }

  /** State of the current task just before block_task and task_termination call scheduler(). */
  function Leaving(k: Pointed, state: TaskState): Pointed
  {
    WithState(k.(counter := k.counter - 1), k.current, state)
  }

  /** unblock_task: hand the processor straight to the woken task. */
  function Unblocking(k: Pointed, i: nat): Pointed
    requires i < |k.tasks|
  {
    WithState(WithState(Lock(k).(counter := k.counter + 1), k.current, Ready), i, Running)
  }

  function Unblock(k: Pointed, i: nat): Pointed
    requires i < |k.tasks|
  {
    Switch(Unblocking(k, i), i, InUnblockTask)
  }

  /** soft_unblock_task. */
  function SoftUnblock(k: Pointed, i: nat): Pointed
    requires i < |k.tasks|
  {
    if k.tasks[i].state == Ready || k.tasks[i].state == Running then k
    else WithState(k.(counter := k.counter + 1), i, Ready)
  }

  /** create_task: a new task goes to the head of the list. */
  function Create(k: Pointed, state: TaskState): Pointed
  {
    if state == IdleState then k.(idle := Task(0, IdleState, 0, InTaskEntry, 1))
    else k.(
      tasks := [Task(k.lastPid + 1, state, 0, InTaskEntry, 1)] + k.tasks,
      current := if k.current == IDLE then IDLE else k.current + 1,
      counter := if state == Ready then k.counter + 1 else k.counter,
      lastPid := k.lastPid + 1)
  }

  /** First terminated task, or the length. */
  function FirstTerminated(tasks: seq<Task>): (i: nat)
    ensures i <= |tasks|
    ensures i < |tasks| ==> tasks[i].state == Terminated
    ensures forall j :: 0 <= j < i ==> tasks[j].state != Terminated
  {
    if tasks == [] || tasks[0].state == Terminated then 0 else 1 + FirstTerminated(tasks[1..])
  }

  function Without(tasks: seq<Task>, i: nat): (rest: seq<Task>)
    requires i < |tasks|
    ensures |rest| == |tasks| - 1
    ensures forall j :: 0 <= j < |rest| ==> rest[j] == tasks[if j < i then j else j + 1]
  {
    tasks[..i] + tasks[i + 1..]
  }

  /** One round of the task terminator: unlink the first terminated task. */
  function Reap(k: Pointed): Pointed
    requires TaskAt(k, k.current).state != Terminated
  {
    var i := FirstTerminated(k.tasks);
    if i == |k.tasks| then k
    else k.(tasks := Without(k.tasks, i), current := if k.current > i then k.current - 1 else k.current)
  }

  // ---------- Steps and what every step keeps ----------

  datatype Step =
    | LockIrq | UnlockIrq
    | BlockTask(reason: TaskState, lock: bool)   // reason BLOCKED or SLEEPING
    | SleepUntil(ticks: nat, tick: nat)
    | Terminate
    | CreateTask(state: TaskState)
    | SoftUnblockTask(target: nat)               // index of the task with the given pid
    | ReapTask
    | TimerWake(sleeper: nat, tick: nat)
    | TimerPreempt

  function Counted(t: Task): nat { if t.state == Running || t.state == Ready then 1 else 0 }

  /** How many listed tasks are running or ready: what ready_to_run_counter should be. */
  function Runnable(tasks: seq<Task>): nat
  {
    if tasks == [] then 0 else Counted(tasks[0]) + Runnable(tasks[1..])
  }

  ghost predicate Pids(tasks: seq<Task>, lastPid: nat)
  {
    && (forall i, j :: 0 <= i < j < |tasks| ==> tasks[i].pid != tasks[j].pid)
    && (forall i :: 0 <= i < |tasks| ==> 1 <= tasks[i].pid <= lastPid)
  }

  lemma FindFirst(tasks: seq<Task>, i: nat, lastPid: nat)
    requires Pids(tasks, lastPid) && i < |tasks|
    ensures Find(tasks, tasks[i].pid) == i
  {
  }

  lemma PidsKept(tasks: seq<Task>, i: nat, t: Task, lastPid: nat)
    requires i < |tasks| && t.pid == tasks[i].pid
    ensures Pids(tasks[i := t], lastPid) <==> Pids(tasks, lastPid)
  {
    var after := tasks[i := t];
    assert forall j :: 0 <= j < |tasks| ==> after[j].pid == tasks[j].pid;
  }

  ghost predicate Inv(k: Pointed) { Books(k) && Locks(k) }

  /** The counter is exact, the current task is the one running, terminated tasks have nowhere to go. */
  ghost predicate Books(k: Pointed)
  {
    && Pids(k.tasks, k.lastPid)
    && k.counter == Runnable(k.tasks)
    && (forall i :: 0 <= i < |k.tasks| ==> (k.tasks[i].state == Running <==> i == k.current))
    && (forall i :: 0 <= i < |k.tasks| ==> k.tasks[i].state != IdleState)
    && (forall i :: 0 <= i < |k.tasks| ==> (k.tasks[i].state == Terminated <==> k.tasks[i].resume == Nowhere))
    && k.idle.state != Running && k.idle.state != Terminated && k.idle.resume != Nowhere
  }

  /** The kernel's lock counter is the current task's own, and interrupts are off while it is up. */
  predicate Locks(k: Pointed)
  {
    && OthersOwe(k)
    && k.depth == TaskAt(k, k.current).held && 0 <= k.depth && (k.irqOn <==> k.depth == 0)
  }

  /** Every task but the current one owes exactly one unlock_irq. */
  predicate OthersOwe(k: Pointed)
  {
    && (forall i :: 0 <= i < |k.tasks| && i != k.current ==> k.tasks[i].held == 1)
    && (k.current != IDLE ==> k.idle.held == 1)
  }

  /** When each call may be made.  Ordinary task code (every call but those of the timer) needs a
      current task other than the idle one, and follows a rule about the locks of its own: it calls
      block_task (r, 0) inside one lock_irq and block_task (r, 1), sleep_until and task_termination
      outside any.  The timer interrupts only while interrupts are on.  No call says anything about
      the kernel's counter. */
  ghost predicate Enabled(k: Pointed, s: Step)
  {
    match s
    case LockIrq => k.current != IDLE
    case UnlockIrq => k.current != IDLE && 0 < k.tasks[k.current].held
    case BlockTask(reason, lock) =>
      k.current != IDLE && (reason == Blocked || reason == Sleeping) && k.tasks[k.current].held == if lock then 0 else 1
    case SleepUntil(_, _) => k.current != IDLE && k.tasks[k.current].held == 0
    case Terminate => k.current != IDLE && k.tasks[k.current].held == 0
    case CreateTask(state) => k.current != IDLE && state != Running && state != Terminated
    case SoftUnblockTask(i) => i < |k.tasks| && k.tasks[i].state != Terminated
    case ReapTask => k.current != IDLE
    case TimerWake(i, tick) => k.irqOn && i < |k.tasks| && k.tasks[i].state == Sleeping && k.tasks[i].sleepUntil < tick
    case TimerPreempt => k.irqOn
  }

  predicate Dispatches(s: Step)
  {
    s.BlockTask? || s.Terminate? || s.TimerWake? || s.TimerPreempt? || (s.SleepUntil? && s.ticks >= s.tick)
  }

  /** The steps that go through scheduler(). */
  predicate Schedules(s: Step) { Dispatches(s) && !s.TimerWake? }

  /** The state in which such a step enters scheduler(), and where its task will resume. */
  function Entering(k: Pointed, s: Step): Pointed
  {
    match s
    case BlockTask(reason, lock) => Leaving(if lock then Lock(k) else k, reason)
    case SleepUntil(ticks, _) => Leaving(Lock(Put(k, k.current, TaskAt(k, k.current).(sleepUntil := ticks))), Sleeping)
    case Terminate => Leaving(Lock(k), Terminated)
    case _ => Lock(k)
  }

  function ResumeOf(s: Step): Resume
  {
    if s.Terminate? then Nowhere else if s.TimerPreempt? then InTimer else InBlockTask
  }

  /** The state in which a step that switches tasks calls dispatcher. */
  function AtDispatcher(k: Pointed, s: Step): Pointed
    requires Dispatches(s)
    requires s.TimerWake? ==> s.sleeper < |k.tasks|
    requires !s.TimerWake? ==> Searchable(Entering(k, s))
  {
    if s.TimerWake? then Unblocking(k, s.sleeper) else Prepared(Entering(k, s))
  }

  lemma {:induction false} RunnableUpdate(tasks: seq<Task>, i: nat, t: Task)
    requires i < |tasks|
    ensures Runnable(tasks[i := t]) == Runnable(tasks) - Counted(tasks[i]) + Counted(t)
  {
    if i == 0 {
      assert tasks[0 := t][1..] == tasks[1..];
    } else {
      RunnableUpdate(tasks[1..], i - 1, t);
      assert tasks[i := t][1..] == tasks[1..][i - 1 := t];
    }
  }

  lemma {:induction false} RunnableRemove(tasks: seq<Task>, i: nat)
    requires i < |tasks|
    ensures Runnable(Without(tasks, i)) == Runnable(tasks) - Counted(tasks[i])
  {
    if i == 0 {
      assert tasks[..0] + tasks[1..] == tasks[1..];
    } else {
      RunnableRemove(tasks[1..], i - 1);
      assert (tasks[..i] + tasks[i + 1..])[1..] == tasks[1..][..i - 1] + tasks[1..][i..];
    }
  }

  lemma {:induction false} SomeRunnable(tasks: seq<Task>)
    ensures Runnable(tasks) != 0 <==> exists i :: 0 <= i < |tasks| && Counted(tasks[i]) == 1
  {
    if tasks != [] {
      SomeRunnable(tasks[1..]);
      if i :| 0 <= i < |tasks| && Counted(tasks[i]) == 1 {
        assert i == 0 || tasks[1..][i - 1] == tasks[i];
      }
    }
  }

  lemma Change(tasks: seq<Task>, i: nat, t: Task, lastPid: nat)
    requires i < |tasks| && t.pid == tasks[i].pid
    ensures Pids(tasks[i := t], lastPid) <==> Pids(tasks, lastPid)
    ensures Runnable(tasks[i := t]) == Runnable(tasks) - Counted(tasks[i]) + Counted(t)
  {
    PidsKept(tasks, i, t, lastPid);
    RunnableUpdate(tasks, i, t);
  }

  /** The accounting that holds while a call is under way, `next` being the only task marked running
      and `r` where the current task will return to. */
  ghost predicate Between(k: Pointed, next: int, r: Resume)
  {
    && IsIndex(k, next) && Pids(k.tasks, k.lastPid)
    && k.counter == Runnable(k.tasks)
    && (forall i :: 0 <= i < |k.tasks| && k.tasks[i].state == Running ==> i == next)
    && (forall i :: 0 <= i < |k.tasks| ==> k.tasks[i].state != IdleState)
    && (forall i :: 0 <= i < |k.tasks| && i != k.current ==> (k.tasks[i].state == Terminated <==> k.tasks[i].resume == Nowhere))
    && (r == Nowhere <==> TaskAt(k, k.current).state == Terminated)
    && k.idle.state != Running && k.idle.state != Terminated && k.idle.resume != Nowhere
    && OthersOwe(k)
  }

  /** The lock is held once, by the current task. */
  predicate HeldOnce(k: Pointed) { k.depth == 1 && TaskAt(k, k.current).held == 1 }

  /** dispatcher hands the lock over if and only if the outgoing task holds it exactly once; the
      incoming task then goes on with no lock held and interrupts on. */
  lemma SwitchInv(k: Pointed, next: int, r: Resume)
    requires Between(k, next, r) && (next == IDLE || k.tasks[next].state == Running)
    requires next == k.current ==> HeldOnce(k)
    ensures Inv(Switch(k, next, r)) <==> HeldOnce(k)
    ensures HeldOnce(k) ==> Switch(k, next, r).depth == 0
    ensures Switch(k, next, r).current == next
  {
    hide Switch, Books, Locks, Pids, Runnable;
    assert (if next == k.current then r else TaskAt(k, next).resume) != Nowhere;
    SwitchBooks(k, next, r);
    SwitchLocks(k, next, r);
  }

  lemma SwitchBooks(k: Pointed, next: int, r: Resume)
    requires Between(k, next, r) && (next == IDLE || k.tasks[next].state == Running)
    ensures Books(Switch(k, next, r))
  {
    hide Pids, Runnable;
    var saved := Put(k, k.current, TaskAt(k, k.current).(resume := r));
    var switched := saved.(current := next);
    if k.current != IDLE {
      Change(k.tasks, k.current, saved.tasks[k.current], k.lastPid);
    }
    if next != IDLE {
      Change(saved.tasks, next, Unlock(switched).tasks[next], k.lastPid);
    }
  }

  lemma SwitchLocks(k: Pointed, next: int, r: Resume)
    requires OthersOwe(k) && IsIndex(k, next)
    requires next == k.current ==> HeldOnce(k)
    requires (if next == k.current then r else TaskAt(k, next).resume) != Nowhere
    ensures Locks(Switch(k, next, r)) <==> HeldOnce(k)
    ensures HeldOnce(k) ==> Switch(k, next, r).depth == 0
    ensures Switch(k, next, r).current == next
  {
    assert next != k.current ==> TaskAt(Switch(k, next, r), k.current).held == TaskAt(k, k.current).held;
  }

  /** scheduler() entered with exact accounting and the lock held once: its search ends, and it leaves
      every invariant in place for the task it dispatches. */
  lemma ScheduleInv(k: Pointed, r: Resume)
    requires Between(k, k.current, r)
    ensures Searchable(k)
    ensures HeldOnce(k) ==> Inv(Schedule(k, r)) && Schedule(k, r).depth == 0
    ensures k.current != IDLE && Counted(TaskAt(k, k.current)) == 0 ==> (Inv(Schedule(k, r)) <==> HeldOnce(k))
  {
    hide Pids, Runnable, Switch, Prepared, Target, Between, Searchable;
    PreparedBetween(k, r);
    if HeldOnce(k) || Target(k) != k.current {
      SwitchInv(Prepared(k), Target(k), r);
    }
  }

  lemma PreparedBetween(k: Pointed, r: Resume)
    requires Between(k, k.current, r)
    ensures Searchable(k)
    ensures var p, next := Prepared(k), Target(k);
      && Between(p, next, r) && (next == IDLE || p.tasks[next].state == Running)
      && p.current == k.current && (HeldOnce(p) <==> HeldOnce(k))
    ensures k.current != IDLE && Counted(TaskAt(k, k.current)) == 0 ==> Target(k) != k.current
  {
    hide Pids, Runnable, Choose, Yielded;
    if k.counter == 0 {
      SomeRunnable(k.tasks);
    } else {
      YieldedBetween(k, r);
      ChosenBetween(Yielded(k), Choose(Yielded(k)), r);
    }
  }

  lemma ChosenBetween(k: Pointed, next: nat, r: Resume)
    requires Between(k, IDLE, r) && next < |k.tasks| && k.tasks[next].state == Ready
    ensures Between(WithState(k, next, Running), next, r)
  {
    hide Pids, Runnable;
    Change(k.tasks, next, k.tasks[next].(state := Running), k.lastPid);
  }

  lemma YieldedBetween(k: Pointed, r: Resume)
    requires Between(k, k.current, r) && k.counter != 0
    ensures Between(Yielded(k), IDLE, r) && Choose(Yielded(k)) < |k.tasks| == |Yielded(k).tasks|
    ensures Yielded(k).current == k.current && (HeldOnce(Yielded(k)) <==> HeldOnce(k))
    ensures Counted(TaskAt(k, k.current)) == 0 ==> TaskAt(Yielded(k), k.current) == TaskAt(k, k.current)
  {
    hide Pids, Runnable, Choose;
    var k1 := Yielded(k);
    SomeRunnable(k.tasks);
    if k.current != IDLE {
      Change(k.tasks, k.current, k1.tasks[k.current], k.lastPid);
    }
    var i :| 0 <= i < |k.tasks| && Counted(k.tasks[i]) == 1;
    assert k1.tasks[i].state == Ready;
  }

  /** What the entry to scheduler() looks like when the current task is leaving the processor. */
  lemma EnteringShape(k: Pointed, s: Step)
    requires k.current != IDLE && Schedules(s) && !s.TimerPreempt?
    requires s.BlockTask? ==> s.reason == Blocked || s.reason == Sleeping
    ensures var k1 := Entering(k, s); var gone := k1.tasks[k.current];
      && k1 == k.(tasks := k.tasks[k.current := gone], counter := k.counter - 1, depth := k1.depth, irqOn := k1.irqOn)
      && gone.pid == k.tasks[k.current].pid && Leaves(gone, ResumeOf(s))
      && gone.held - k.tasks[k.current].held == k1.depth - k.depth == (if s.BlockTask? && !s.lock then 0 else 1)
      && (k1.irqOn ==> k.irqOn && k1.depth == k.depth)
  {
  }

  predicate Leaves(gone: Task, r: Resume)
  {
    && (gone.state == Blocked || gone.state == Sleeping || gone.state == Terminated)
    && (gone.state == Terminated <==> r == Nowhere)
  }

  /** Counting the current task out and rescheduling keeps every invariant if and only if scheduler()
      is entered with the lock held once. */
  lemma LeavingInv(k: Pointed, k1: Pointed, r: Resume)
    requires Inv(k) && k.current != IDLE && k.current < |k1.tasks|
    requires k1 == k.(tasks := k.tasks[k.current := k1.tasks[k.current]], counter := k.counter - 1,
                      depth := k1.depth, irqOn := k1.irqOn)
    requires k1.tasks[k.current].pid == k.tasks[k.current].pid && Leaves(k1.tasks[k.current], r)
    ensures Searchable(k1) && (Inv(Schedule(k1, r)) <==> HeldOnce(k1))
    ensures HeldOnce(k1) ==> Schedule(k1, r).depth == 0
    ensures k1.counter == Runnable(k1.tasks)
  {
    hide Pids, Runnable, Schedule, Searchable;
    Change(k.tasks, k.current, k1.tasks[k.current], k.lastPid);
    assert Between(k1, k1.current, r);
    ScheduleInv(k1, r);
  }

  /** The rule about a task's own locks is exact: block_task keeps the invariants if and only if the
      task calls it with one lock of its own, or with none if block_task is to take it. */
  lemma BlockExactly(k: Pointed, reason: TaskState, lock: bool)
    requires Inv(k) && k.current != IDLE && (reason == Blocked || reason == Sleeping)
    ensures var k1 := Entering(k, BlockTask(reason, lock));
      && Searchable(k1)
      && (Inv(Schedule(k1, InBlockTask)) <==> k.tasks[k.current].held == if lock then 0 else 1)
  {
    hide Pids, Runnable, Schedule, Searchable, Entering;
    EnteringShape(k, BlockTask(reason, lock));
    LeavingInv(k, Entering(k, BlockTask(reason, lock)), InBlockTask);
  }

  /** Every step that calls scheduler() enters it with the lock held once. */
  lemma EnterInv(k: Pointed, s: Step)
    requires Inv(k) && Enabled(k, s) && Schedules(s)
    ensures var k1 := Entering(k, s);
      && HeldOnce(k1) && !k1.irqOn && Searchable(k1) && k1.counter == Runnable(k1.tasks)
      && Inv(Schedule(k1, ResumeOf(s))) && Schedule(k1, ResumeOf(s)).depth == 0
  {
    hide Pids, Runnable, Schedule, Searchable, Choose;
    if s.TimerPreempt? {
      LockBetween(k);
      ScheduleInv(Lock(k), InTimer);
    } else {
      EnteringShape(k, s);
      LeavingInv(k, Entering(k, s), ResumeOf(s));
    }
  }

  lemma LockBetween(k: Pointed)
    requires Inv(k)
    ensures Between(Lock(k), k.current, InTimer)
  {
    hide Pids, Runnable;
    if k.current != IDLE {
      Change(k.tasks, k.current, Lock(k).tasks[k.current], k.lastPid);
    }
  }

  function Next(k: Pointed, s: Step): Pointed
    requires Inv(k) && Enabled(k, s)
  {
    if Schedules(s) then
      EnterInv(k, s);
      Schedule(Entering(k, s), ResumeOf(s))
    else
      match s
      case LockIrq => Lock(k)
      case UnlockIrq => Unlock(k)
      case CreateTask(state) => Create(k, state)
      case SoftUnblockTask(i) => SoftUnblock(k, i)
      case ReapTask => Reap(k)
      case TimerWake(i, _) => Unblock(k, i)
      case _ => k   // sleep_until a time that has passed
  }

  lemma SleepPast(k: Pointed, ticks: nat, tick: nat)
    requires Inv(k) && Enabled(k, SleepUntil(ticks, tick)) && ticks < tick
    ensures Next(k, SleepUntil(ticks, tick)) == k
  {
  }

  /** sleep_until a time to come is block_task (SLEEPING, 1) with the time noted. */
  lemma SleepIsBlock(k: Pointed, ticks: nat, tick: nat)
    requires Inv(k) && Enabled(k, SleepUntil(ticks, tick)) && ticks >= tick
    ensures var noted := Put(k, k.current, TaskAt(k, k.current).(sleepUntil := ticks));
      && Inv(noted) && Enabled(noted, BlockTask(Sleeping, true))
      && Next(noted, BlockTask(Sleeping, true)) == Next(k, SleepUntil(ticks, tick))
  {
    hide Pids, Runnable, Schedule, Searchable;
    Change(k.tasks, k.current, k.tasks[k.current].(sleepUntil := ticks), k.lastPid);
  }

  lemma SwitchShape(k: Pointed, next: int, r: Resume)
    requires IsIndex(k, next)
    ensures var k' := Switch(k, next, r);
      && k'.current == next && |k'.tasks| == |k.tasks| && k'.idle.state == k.idle.state
      && (forall i :: 0 <= i < |k.tasks| ==> k'.tasks[i].pid == k.tasks[i].pid && k'.tasks[i].state == k.tasks[i].state)
      && (forall i :: 0 <= i < |k.tasks| && i != k.current ==> k'.tasks[i].resume == k.tasks[i].resume)
      && (forall i :: 0 <= i < |k.tasks| && i != k.current && i != next ==> k'.tasks[i] == k.tasks[i])
  {
  }

  lemma SwitchRunnable(k: Pointed, next: int, r: Resume)
    requires IsIndex(k, next)
    ensures Switch(k, next, r).counter == k.counter && Runnable(Switch(k, next, r).tasks) == Runnable(k.tasks)
  {
    hide Runnable;
    var saved := Put(k, k.current, TaskAt(k, k.current).(resume := r));
    if k.current != IDLE {
      RunnableUpdate(k.tasks, k.current, saved.tasks[k.current]);
    }
    if next != IDLE {
      RunnableUpdate(saved.tasks, next, Unlock(saved.(current := next)).tasks[next]);
    }
  }

  lemma UnblockingShape(k: Pointed, i: nat)
    requires i < |k.tasks|
    ensures var u := Unblocking(k, i);
      && u.current == k.current && |u.tasks| == |k.tasks| && u.lastPid == k.lastPid
      && u.counter == k.counter + 1 && u.depth == k.depth + 1 && !u.irqOn
      && TaskAt(u, u.current).held == TaskAt(k, k.current).held + 1
      && (k.current == IDLE ==> u.idle == k.idle.(state := Ready, held := k.idle.held + 1))
      && (k.current != IDLE ==> u.idle == k.idle)
      && (forall j :: 0 <= j < |k.tasks| ==> u.tasks[j] == k.tasks[j].(
            state := if j == i then Running else if j == k.current then Ready else k.tasks[j].state,
            held := if j == k.current then k.tasks[j].held + 1 else k.tasks[j].held))
  {
  }

  /** On the way to dispatcher, unblock_task's counter is right exactly for a task not counted so far. */
  lemma UnblockingCounts(k: Pointed, i: nat)
    requires Books(k) && i < |k.tasks|
    ensures var u := Unblocking(k, i);
      (u.counter == Runnable(u.tasks) <==> Counted(k.tasks[i]) == 0) && Pids(u.tasks, u.lastPid)
  {
    hide Pids, Runnable;
    var k1, u := WithState(Lock(k).(counter := k.counter + 1), k.current, Ready), Unblocking(k, i);
    if k.current != IDLE {
      Change(k.tasks, k.current, k1.tasks[k.current], k.lastPid);
      assert k1.tasks == k.tasks[k.current := k1.tasks[k.current]];
    }
    Change(k1.tasks, i, u.tasks[i], k.lastPid);
  }

  lemma UnblockingBetween(k: Pointed, i: nat)
    requires Inv(k) && i < |k.tasks| && (k.tasks[i].state == Blocked || k.tasks[i].state == Sleeping)
    ensures i != k.current && Between(Unblocking(k, i), i, InUnblockTask)
  {
    hide Pids, Runnable, Unblocking;
    UnblockingShape(k, i);
    UnblockingCounts(k, i);
  }

  /** scheduler() touches nothing but the outgoing and the incoming task. */
  lemma ScheduleShape(k: Pointed, r: Resume)
    requires Searchable(k)
    ensures |Schedule(k, r).tasks| == |k.tasks|
    ensures Schedule(k, r).current == if k.counter == 0 then IDLE else Choose(Yielded(k))
    ensures forall i :: 0 <= i < |k.tasks| ==>
      && Schedule(k, r).tasks[i].pid == k.tasks[i].pid
      && (i != k.current && i != Schedule(k, r).current ==> Schedule(k, r).tasks[i] == k.tasks[i])
      && (k.counter != 0 && i == Schedule(k, r).current ==> Schedule(k, r).tasks[i].state == Running)
      && (i == k.current && i != Schedule(k, r).current ==>
            Schedule(k, r).tasks[i].state == (if k.counter != 0 && k.tasks[i].state == Running then Ready else k.tasks[i].state))
  {
    hide Switch, Choose;
    SwitchShape(Prepared(k), Target(k), r);
  }

  /** unblock_task keeps the invariants exactly for a task that is blocked or asleep, and called with no
      lock held. */
  lemma UnblockInv(k: Pointed, i: nat)
    requires Inv(k) && i < |k.tasks|
    ensures Inv(Unblock(k, i)) <==> k.depth == 0 && (k.tasks[i].state == Blocked || k.tasks[i].state == Sleeping)
    ensures Inv(Unblock(k, i)) ==> HeldOnce(Unblocking(k, i)) && Unblock(k, i).depth == 0
  {
    hide Pids, Runnable, Switch, Unblocking;
    var u := Unblocking(k, i);
    UnblockingShape(k, i);
    UnblockingCounts(k, i);
    if k.tasks[i].state == Blocked || k.tasks[i].state == Sleeping {
      UnblockingBetween(k, i);
      SwitchInv(u, i, InUnblockTask);
    } else {
      SwitchRunnable(u, i, InUnblockTask);
      SwitchShape(u, i, InUnblockTask);
    }
  }

  /** soft_unblock_task keeps the invariants exactly for a task that has not terminated: it would mark
      a terminated one ready, to be dispatched with nowhere to return to. */
  lemma SoftUnblockInv(k: Pointed, i: nat)
    requires Inv(k) && i < |k.tasks|
    ensures Inv(SoftUnblock(k, i)) <==> k.tasks[i].state != Terminated
  {
    hide Pids, Runnable;
    Change(k.tasks, i, k.tasks[i].(state := Ready), k.lastPid);
    if k.tasks[i].state == Terminated {
      assert SoftUnblock(k, i).tasks[i].resume == Nowhere;
    }
  }

  lemma CreateInv(k: Pointed, state: TaskState)
    requires Inv(k) && k.current != IDLE
    ensures Inv(Create(k, state)) <==> state != Running && state != Terminated
  {
    hide Runnable, Pids;
    var k' := Create(k, state);
    if state != IdleState {
      var t := k'.tasks[0];
      assert k'.tasks == [t] + k.tasks;
      Push(t, k.tasks, k.lastPid);
      if state != Running && state != Terminated {
        forall j | 0 <= j < |k'.tasks|
          ensures k'.tasks[j].state == Running <==> j == k'.current
          ensures k'.tasks[j].state != IdleState && (k'.tasks[j].state == Terminated <==> k'.tasks[j].resume == Nowhere)
        {
          assert k'.tasks[j] == if j == 0 then t else k.tasks[j - 1];
        }
      }
    }
  }

  lemma Push(t: Task, tasks: seq<Task>, lastPid: nat)
    requires Pids(tasks, lastPid) && t.pid == lastPid + 1
    ensures Runnable([t] + tasks) == Counted(t) + Runnable(tasks)
    ensures Pids([t] + tasks, lastPid + 1)
  {
    assert ([t] + tasks)[1..] == tasks;
  }

  lemma Unlink(tasks: seq<Task>, i: nat, lastPid: nat)
    requires Pids(tasks, lastPid) && i < |tasks|
    ensures Runnable(Without(tasks, i)) == Runnable(tasks) - Counted(tasks[i])
    ensures Pids(Without(tasks, i), lastPid)
  {
    hide Runnable, Without;
    RunnableRemove(tasks, i);
    var after := Without(tasks, i);
    forall j, l | 0 <= j < l < |after|
      ensures after[j].pid != after[l].pid
    {
      assert after[j] == tasks[if j < i then j else j + 1];
      assert after[l] == tasks[if l < i then l else l + 1];
    }
    forall j | 0 <= j < |after|
      ensures 1 <= after[j].pid <= lastPid
    {
      assert after[j] == tasks[if j < i then j else j + 1];
    }
  }

  lemma ReapInv(k: Pointed)
    requires Inv(k)
    ensures Inv(Reap(k))
  {
    hide Books, Locks, Reap;
    ReapBooks(k);
    ReapLocks(k);
  }

  lemma ReapShape(k: Pointed)
    requires TaskAt(k, k.current).state != Terminated
    ensures var r, k' := FirstTerminated(k.tasks), Reap(k);
      && k' == k.(tasks := k'.tasks, current := k'.current) && k.current != r
      && k'.tasks == (if r < |k.tasks| then Without(k.tasks, r) else k.tasks)
      && k'.current == (if k.current > r then k.current - 1 else k.current)
      && (forall j :: 0 <= j < |k'.tasks| ==> k'.tasks[j] == k.tasks[if j < r then j else j + 1])
  {
    hide Without;
  }

  lemma ReapLocks(k: Pointed)
    requires Books(k) && Locks(k)
    ensures Locks(Reap(k))
  {
    hide Runnable, Pids, Reap, Without;
    ReapShape(k);
  }

  lemma ReapBooks(k: Pointed)
    requires Books(k)
    ensures TaskAt(k, k.current).state != Terminated && Books(Reap(k))
  {
    hide Runnable, Pids, Reap, Without;
    ReapShape(k);
    var r := FirstTerminated(k.tasks);
    if r < |k.tasks| {
      Unlink(k.tasks, r, k.lastPid);
    }
  }

  /** Unlinking another task shifts a task's index by at most one and leaves it alone otherwise. */
  lemma ReapIndex(k: Pointed, pid: nat)
    requires Inv(k) && Find(k.tasks, pid) < |k.tasks| && k.tasks[Find(k.tasks, pid)].state != Terminated
    ensures var i, i', r := Find(k.tasks, pid), Find(Reap(k).tasks, pid), FirstTerminated(k.tasks);
      && |Reap(k).tasks| == (if r < |k.tasks| then |k.tasks| - 1 else |k.tasks|)
      && i' == (if i < r then i else i - 1) && i' < |Reap(k).tasks| && Reap(k).tasks[i'] == k.tasks[i]
      && k.current != r && Reap(k).current == (if k.current > r then k.current - 1 else k.current)
  {
    hide Runnable, Pids, Find, Reap, Locks, Without;
    ReapShape(k);
    var i, r, k' := Find(k.tasks, pid), FirstTerminated(k.tasks), Reap(k);
    if r < |k.tasks| {
      Unlink(k.tasks, r, k.lastPid);
      var i' := if i < r then i else i - 1;
      assert k'.tasks[i'] == k.tasks[i];
      FindFirst(k'.tasks, i', k'.lastPid);
    }
  }

  lemma NextInv(k: Pointed, s: Step)
    requires Inv(k) && Enabled(k, s)
    ensures Inv(Next(k, s))
  {
    hide Pids, Runnable, Schedule, Unblock, SoftUnblock, Create, Reap, Entering;
    if Schedules(s) {
      EnterInv(k, s);
    } else {
      match s
      case LockIrq => LockKeeps(k, 1);
      case UnlockIrq => LockKeeps(k, -1);
      case CreateTask(state) => CreateInv(k, state);
      case SoftUnblockTask(i) => SoftUnblockInv(k, i);
      case ReapTask => ReapInv(k);
      case TimerWake(i, _) => UnblockInv(k, i);
      case _ =>
    }
  }

  lemma LockKeeps(k: Pointed, locks: int)
    requires Inv(k) && k.current != IDLE && (locks == 1 || (locks == -1 && 0 < k.tasks[k.current].held))
    ensures Inv(if locks == 1 then Lock(k) else Unlock(k))
  {
    hide Pids, Runnable;
    Change(k.tasks, k.current, Hold(k, locks).tasks[k.current], k.lastPid);
  }

  // ---------- Whole runs ----------

  /** The state multitask_init leaves: task 1 running, the task terminator ready, nothing locked. */
  ghost predicate Init(k: Pointed)
  {
    && k.tasks == [Task(2, Ready, 0, InTaskEntry, 1), Task(1, Running, 0, InTaskEntry, 0)]
    && k.current == 1 && k.counter == 2 && k.lastPid == 2
    && k.idle == Task(0, IdleState, 0, InTaskEntry, 1)
    && k.depth == 0 && k.irqOn
  }

  lemma InitInv(k: Pointed)
    requires Init(k)
    ensures Inv(k)
  {
    assert k.tasks[1..] == [k.tasks[1]];
    assert Runnable(k.tasks[1..]) == Counted(k.tasks[1]) + Runnable(k.tasks[1..][1..]);
  }

  /** `steps` leads from k to last.  `Inv` is there to make Next applicable; by NextInv it never stops
      a run that starts from it. */
  ghost predicate Run(k: Pointed, steps: seq<Step>, last: Pointed)
    decreases steps
  {
    if steps == [] then k == last
    else Inv(k) && Enabled(k, steps[0]) && Run(Next(k, steps[0]), steps[1..], last)
  }

  lemma {:induction false} RunInv(k: Pointed, steps: seq<Step>, last: Pointed)
    requires Inv(k) && Run(k, steps, last)
    ensures Inv(last)
    decreases steps
  {
    if steps != [] {
      NextInv(k, steps[0]);
      RunInv(Next(k, steps[0]), steps[1..], last);
    }
  }

  /** Lock hand-over, over every run from boot.  The kernel's one counter always equals the number of
      locks the current task's own code holds.  Every call of dispatcher is made at depth 1 with
      interrupts off, and the task it enters, which is never a terminated one, goes on at depth 0 with
      interrupts on. */
  lemma HandOver(boot: Pointed, steps: seq<Step>, k: Pointed, s: Step)
    requires Init(boot) && Run(boot, steps, k) && Enabled(k, s)
    ensures k.depth == TaskAt(k, k.current).held
    ensures Dispatches(s) && !s.TimerWake? ==> Searchable(Entering(k, s))
    ensures Dispatches(s) ==> AtDispatcher(k, s).depth == 1 && !AtDispatcher(k, s).irqOn
    ensures Inv(k)
    ensures Dispatches(s) ==> var k' := Next(k, s);
      k'.depth == 0 && k'.irqOn && TaskAt(k', k'.current).held == 0 && TaskAt(k', k'.current).resume != Nowhere
  {
    hide Pids, Runnable, Schedule, Run, Entering;
    InitInv(boot);
    RunInv(boot, steps, k);
    NextInv(k, s);
    if Schedules(s) {
      EnterInv(k, s);
    } else if s.TimerWake? {
      UnblockInv(k, s.sleeper);
    }
  }

  /** Scheduler accounting over every run from boot: the counter is exact, pids are distinct, the only
      task marked running is the current one (none while the idle task runs), the lock is held exactly
      while interrupts are off, and the scheduler's search would end. */
  lemma Accounting(k: Pointed, steps: seq<Step>, last: Pointed)
    requires Init(k) && Run(k, steps, last)
    ensures last.counter == Runnable(last.tasks)
    ensures forall i, j :: 0 <= i < j < |last.tasks| ==> last.tasks[i].pid != last.tasks[j].pid
    ensures forall i :: 0 <= i < |last.tasks| ==> (last.tasks[i].state == Running <==> i == last.current)
    ensures last.irqOn <==> last.depth == 0
    ensures last.depth == 0 ==> Searchable(Lock(last))
  {
    hide Runnable, Run;
    InitInv(k);
    RunInv(k, steps, last);
    if last.depth == 0 {
      LockBetween(last);
      ScheduleInv(Lock(last), InTimer);
    }
  }
}
