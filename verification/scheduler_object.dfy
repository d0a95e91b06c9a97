/** The scheduler as the kernel runs it: global variables updated in place, proved to follow the
    kernel calls of module Scheduler.  A method that switches tasks returns in the incoming task,
    after that task has released the lock. */
module SchedulerObject {
  import opened Scheduler

  class Multitask {
    var tasks: seq<Task>        // head, and the next_task links
    var idleTask: Task
    var currentTask: int
    var readyToRunCounter: int
    var lastPid: nat
    var lockIrqCounter: int
    var interruptsOn: bool

    ghost function Raw(): Kernel
      reads this
    {
      Kernel(tasks, idleTask, currentTask, readyToRunCounter, lastPid, lockIrqCounter, interruptsOn)
    }

    ghost predicate Valid()
      reads this
    {
      IDLE <= currentTask < |tasks|
    }

    ghost function Value(): Pointed
      reads this
      requires Valid()
    {
      Raw()
    }

    /** multitask_init. */
    constructor ()
      ensures Valid() && Init(Value())
    {
      idleTask := Task(0, IdleState, 0, InTaskEntry, 1);
      tasks := [Task(2, Ready, 0, InTaskEntry, 1), Task(1, Running, 0, InTaskEntry, 0)];
      currentTask, readyToRunCounter, lastPid := 1, 2, 2;
      lockIrqCounter, interruptsOn := 0, true;
    }

    /** Sets the field of the TCB that `i` points to. */
    method SetTask(i: int, t: Task)
      requires Valid() && IDLE <= i < |tasks|
      modifies this`tasks, this`idleTask
      ensures Valid() && Value() == Put(old(Value()), i, t)
    {
      if i == IDLE {
        idleTask := t;
      } else {
        tasks := tasks[i := t];
      }
    }

    method GetTask(i: int) returns (t: Task)
      requires Valid() && IDLE <= i < |tasks|
      ensures t == TaskAt(Value(), i)
    {
      t := if i == IDLE then idleTask else tasks[i];
    }

    /** lock_irq.  The note in `held` stands for where the caller's code has got to; the kernel keeps no
        such field. */
    method LockIrq()
      requires Valid()
      modifies this`tasks, this`idleTask, this`lockIrqCounter, this`interruptsOn
      ensures Valid() && Value() == Lock(old(Value()))
    {
      interruptsOn := false;
      lockIrqCounter := lockIrqCounter + 1;
      var caller := GetTask(currentTask);
      SetTask(currentTask, caller.(held := caller.held + 1));
    }

    method UnlockIrq()
      requires Valid()
      modifies this`tasks, this`idleTask, this`lockIrqCounter, this`interruptsOn
      ensures Valid() && Value() == Unlock(old(Value()))
    {
      lockIrqCounter := lockIrqCounter - 1;
      if lockIrqCounter == 0 {
        interruptsOn := true;
      }
      var caller := GetTask(currentTask);
      SetTask(currentTask, caller.(held := caller.held - 1));
    }

    /** dispatcher in dispatcher.asm: save the outgoing stack, make `next` current, return on its stack.
        It is always reached with the lock held exactly once. */
    method Dispatcher(next: int, r: Resume)
      requires Valid() && IDLE <= next < |tasks|
      requires lockIrqCounter == 1
      modifies this
      ensures Valid() && Value() == Switch(old(Value()), next, r)
    {
      var outgoing := GetTask(currentTask);
      SetTask(currentTask, outgoing.(resume := r));
      currentTask := next;
      var incoming := GetTask(next);
      match incoming.resume {
        case InTaskEntry => UnlockIrq();
        case InBlockTask => UnlockIrq();
        case InUnblockTask => UnlockIrq();
        case InTimer => UnlockIrq();
        case Nowhere =>
      }
    }

    /** The search loop of scheduler(), which has no bound of its own.  What ends it is that some task
        is ready: the distance still to walk shrinks, once past the end of the list at most. */
    method NextReady() returns (next: nat)
      requires Valid() && Choose(Value()) < |tasks|
      ensures next == Choose(Value())
    {
      hide FirstReady;
      var i := if currentTask == IDLE then |tasks| else currentTask + 1;
      ghost var wrapped := currentTask == IDLE;
      while true
        invariant 0 <= i <= |tasks|
        invariant !wrapped ==> currentTask < i && FirstReady(tasks, currentTask + 1) == FirstReady(tasks, i)
        invariant wrapped ==> currentTask == IDLE || FirstReady(tasks, currentTask + 1) == |tasks|
        invariant wrapped ==> FirstReady(tasks, 0) == FirstReady(tasks, if i == |tasks| then 0 else i) < |tasks|
        invariant wrapped && i == |tasks| ==> currentTask == IDLE
        decreases if wrapped then 0 else 1, if wrapped && i == |tasks| then |tasks| + 1 else |tasks| - i
      {
        if i == |tasks| {
          i := 0;
          wrapped := true;
        }
        FirstReadyStep(tasks, i);
        if tasks[i].state != Ready {
          i := i + 1;
        } else {
          break;
        }
      }
      next := i;
    }

    /** scheduler(). */
    method Reschedule(r: Resume)
      requires Valid() && Searchable(Value()) && lockIrqCounter == 1
      modifies this
      ensures Valid() && Value() == Schedule(old(Value()), r)
    {
      if readyToRunCounter == 0 {
        Dispatcher(IDLE, r);
        return;
      }
      var current := GetTask(currentTask);
      if current.state == Running {
        SetTask(currentTask, current.(state := Ready));
      }
      var next := NextReady();
      SetTask(next, tasks[next].(state := Running));
      Dispatcher(next, r);
    }

    method BlockTask(reason: TaskState, lock: bool)
      requires Valid() && Inv(Value()) && Enabled(Value(), Step.BlockTask(reason, lock))
      modifies this
      ensures Valid() && Value() == Next(old(Value()), Step.BlockTask(reason, lock))
    {
      hide Inv, Schedule, Searchable;
      EnterInv(Value(), Step.BlockTask(reason, lock));
      if lock {
        LockIrq();
      }
      readyToRunCounter := readyToRunCounter - 1;
      SetTask(currentTask, tasks[currentTask].(state := reason));
      Reschedule(InBlockTask);
    }

    method SleepUntil(ticks: nat, tick: nat)
      requires Valid() && Inv(Value()) && Enabled(Value(), Step.SleepUntil(ticks, tick))
      modifies this
      ensures Valid() && Value() == Next(old(Value()), Step.SleepUntil(ticks, tick))
    {
      hide Inv, Next, Enabled;
      if ticks < tick {
        SleepPast(Value(), ticks, tick);
        return;
      }
      SleepIsBlock(Value(), ticks, tick);
      var caller := GetTask(currentTask);
      SetTask(currentTask, caller.(sleepUntil := ticks));
      BlockTask(Sleeping, true);
    }

    /** task_termination never returns; the value is the one its successor runs in. */
    method TaskTermination()
      requires Valid() && Inv(Value()) && Enabled(Value(), Terminate)
      modifies this
      ensures Valid() && Value() == Next(old(Value()), Terminate)
    {
      hide Inv, Schedule, Searchable;
      EnterInv(Value(), Terminate);
      LockIrq();
      readyToRunCounter := readyToRunCounter - 1;
      SetTask(currentTask, tasks[currentTask].(state := Terminated));
      Reschedule(Nowhere);
    }

    method SearchTask(pid: nat) returns (i: nat)
      ensures i == Find(tasks, pid)
    {
      i := 0;
      while i < |tasks|
        invariant i <= |tasks|
        invariant forall j :: 0 <= j < i ==> tasks[j].pid != pid
      {
        if tasks[i].pid == pid {
          return;
        }
        i := i + 1;
      }
    }

    method UnblockTask(pid: nat)
      requires Valid() && Find(tasks, pid) < |tasks| && lockIrqCounter == 0
      modifies this
      ensures Valid() && Value() == Unblock(old(Value()), Find(old(tasks), pid))
    {
      hide Switch, Find;
      ghost var k := Value();
      LockIrq();
      readyToRunCounter := readyToRunCounter + 1;
      FindSame(k.tasks, tasks, pid);
      var i := SearchTask(pid);
      var current := GetTask(currentTask);
      SetTask(currentTask, current.(state := Ready));
      var woken := GetTask(i);
      SetTask(i, woken.(state := Running));
      assert Value() == Unblocking(k, Find(k.tasks, pid));
      Dispatcher(i, InUnblockTask);
    }

    method SoftUnblockTask(pid: nat)
      requires Valid() && Find(tasks, pid) < |tasks|
      modifies this
      ensures Valid() && Value() == SoftUnblock(old(Value()), Find(old(tasks), pid))
    {
      var i := SearchTask(pid);
      if tasks[i].state == Ready || tasks[i].state == Running {
        return;
      }
      readyToRunCounter := readyToRunCounter + 1;
      SetTask(i, tasks[i].(state := Ready));
    }

    method CreateTask(state: TaskState)
      requires Valid()
      modifies this
      ensures Valid() && Value() == Create(old(Value()), state)
    {
      if state == IdleState {
        idleTask := Task(0, IdleState, 0, InTaskEntry, 1);
        return;
      }
      lastPid := lastPid + 1;
      if state == Ready {
        readyToRunCounter := readyToRunCounter + 1;
      }
      tasks := [Task(lastPid, state, 0, InTaskEntry, 1)] + tasks;
      if currentTask != IDLE {
        currentTask := currentTask + 1;
      }
    }

    /** One round of task_terminator: walk the list with the previous node at hand, unlink the first
        terminated one. */
    method ReapTerminated() returns (found: bool)
      requires Valid() && TaskAt(Value(), currentTask).state != Terminated
      modifies this
      ensures Valid() && Value() == Reap(old(Value()))
      ensures found <==> exists i :: 0 <= i < |old(tasks)| && old(tasks)[i].state == Terminated
    {
      found := false;
      var i := 0;
      while i < |tasks|
        invariant 0 <= i <= |tasks| && !found && unchanged(this)
        invariant forall j :: 0 <= j < i ==> tasks[j].state != Terminated
      {
        if tasks[i].state == Terminated {
          found := true;
          tasks := tasks[..i] + tasks[i + 1..];
          if currentTask > i {
            currentTask := currentTask - 1;
          }
          break;
        }
        i := i + 1;
      }
    }

    /** The preemption that ends pit_callback. */
    method TimerPreemption()
      requires Valid() && Inv(Value()) && interruptsOn
      modifies this
      ensures Valid() && Value() == Next(old(Value()), TimerPreempt)
    {
      EnterInv(Value(), TimerPreempt);
      LockIrq();
      Reschedule(InTimer);
    }
  }
}
