/** What each kernel call does to the tasks, told without the functions of module Scheduler that
    compute it: who ends up in which state, who gets the processor, and that nobody else is touched. */
module SchedulerEffects {
  import opened Scheduler
  import opened SchedulerFairness

  // ---------- Leaving the processor ----------

  /** The calls with which a task gives up the processor. */
  predicate GivesUp(s: Step) { s.BlockTask? || s.Terminate? || (s.SleepUntil? && s.ticks >= s.tick) }

  lemma EnteringStates(k: Pointed, s: Step)
    requires Inv(k) && Enabled(k, s) && Schedules(s)
    ensures var k1, c := Entering(k, s), k.current;
      && k1.current == c && |k1.tasks| == |k.tasks|
      && (GivesUp(s) ==> 0 <= c && k1.tasks[c].state !in {Ready, Running})
      && (s.TimerPreempt? && 0 <= c ==> k1.tasks[c].state == k.tasks[c].state)
      && (s.BlockTask? ==> k1.tasks[c].state == s.reason && k1.tasks[c].sleepUntil == k.tasks[c].sleepUntil)
      && (s.SleepUntil? ==> k1.tasks[c].state == Sleeping && k1.tasks[c].sleepUntil == s.ticks)
      && (s.Terminate? ==> k1.tasks[c].state == Terminated)
  {
    hide Pids, Runnable;
  }

  /** The caller is left in the state it asked for, with the time it asked for if it sleeps, and without
      the processor; the task that gets it is running; every other task is as it was. */
  lemma CallerLeaves(k: Pointed, s: Step)
    requires Inv(k) && Enabled(k, s) && GivesUp(s)
    ensures var k', c := Next(k, s), k.current;
      && 0 <= c < |k.tasks| == |k'.tasks| && k'.current != c
      && k'.tasks[c].pid == k.tasks[c].pid
      && (s.BlockTask? ==> k'.tasks[c].state == s.reason && k'.tasks[c].sleepUntil == k.tasks[c].sleepUntil)
      && (s.SleepUntil? ==> k'.tasks[c].state == Sleeping && k'.tasks[c].sleepUntil == s.ticks)
      && (s.Terminate? ==> k'.tasks[c].state == Terminated)
      && (k'.current != IDLE ==> k'.tasks[k'.current].state == Running && k.tasks[k'.current].state == Ready)
      && (forall i :: 0 <= i < |k.tasks| && i != c && i != k'.current ==> k'.tasks[i] == k.tasks[i])
  {
    hide Pids, Runnable, Schedule, Searchable, Entering, Choose;
    EnterInv(k, s);
    EnteringStates(k, s);
    EnteringTasks(k, s);
    ScheduleShape(Entering(k, s), ResumeOf(s));
    ScheduleOutgoing(Entering(k, s), ResumeOf(s));
  }

  /** scheduler() leaves the outgoing task's time to wake alone, and dispatches a ready task. */
  lemma ScheduleOutgoing(k: Pointed, r: Resume)
    requires Searchable(k) && k.current != IDLE
    ensures Schedule(k, r).tasks[k.current].sleepUntil == k.tasks[k.current].sleepUntil
    ensures k.counter != 0 ==> k.tasks[Schedule(k, r).current].state in {Ready, Running}
    ensures k.counter != 0 && k.tasks[Schedule(k, r).current].state == Running ==> Schedule(k, r).current == k.current
  {
    hide Choose;
  }

  /** The processor idles after a call of scheduler() only if nobody wants it. */
  lemma NoIdling(k: Pointed, s: Step)
    requires Inv(k) && Enabled(k, s) && Schedules(s)
    ensures Next(k, s).current == IDLE <==>
      forall i :: 0 <= i < |k.tasks| && (i != k.current || s.TimerPreempt?) ==> k.tasks[i].state !in {Ready, Running}
  {
    hide Pids, Runnable, Schedule, Searchable, Choose, Entering;
    var k1 := Entering(k, s);
    EnterInv(k, s);
    EnteringStates(k, s);
    ScheduleShape(k1, ResumeOf(s));
    SomeRunnable(k1.tasks);
    EnteringTasks(k, s);
    if k1.counter != 0 {
      var i :| 0 <= i < |k1.tasks| && Counted(k1.tasks[i]) == 1;
      assert i == k.current ==> s.TimerPreempt?;
    }
    if i :| 0 <= i < |k.tasks| && (i != k.current || s.TimerPreempt?) && k.tasks[i].state in {Ready, Running} {
      assert Counted(k1.tasks[i]) == 1;
    }
  }

  /** A preempted task stays ready, unless it is its turn again. */
  lemma PreemptedStaysReady(k: Pointed)
    requires Inv(k) && Enabled(k, TimerPreempt) && k.current != IDLE
    ensures var k', c := Next(k, TimerPreempt), k.current;
      |k'.tasks| == |k.tasks| && k'.tasks[c].state == (if k'.current == c then Running else Ready)
  {
    hide Pids, Runnable, Schedule, Searchable, Choose;
    EnterInv(k, TimerPreempt);
    ScheduleShape(Lock(k), InTimer);
    SomeRunnable(k.tasks);
    assert Counted(k.tasks[k.current]) == 1;
  }

  // ---------- Waking ----------

  /** unblock_task gives the processor to the woken task; the one that had it stays ready. */
  lemma WakeDispatches(k: Pointed, i: nat, tick: nat)
    requires Inv(k) && Enabled(k, TimerWake(i, tick))
    ensures var k' := Next(k, TimerWake(i, tick));
      && |k'.tasks| == |k.tasks| && k'.current == i && i != k.current && k'.tasks[i].state == Running
      && (if k.current == IDLE then k'.idle.state == Ready else k'.tasks[k.current].state == Ready)
      && (forall j :: 0 <= j < |k.tasks| && j != i && j != k.current ==> k'.tasks[j] == k.tasks[j])
  {
    hide Pids, Runnable, Switch, Unblocking;
    UnblockingShape(k, i);
    SwitchShape(Unblocking(k, i), i, InUnblockTask);
  }

  /** A task that went to sleep can be woken by the timer exactly when its time has passed, and then gets
      the processor at once. */
  lemma SleeperWakes(k: Pointed, ticks: nat, tick: nat, later: nat)
    requires Inv(k) && Enabled(k, SleepUntil(ticks, tick)) && ticks >= tick
    ensures var k', c := Next(k, SleepUntil(ticks, tick)), k.current;
      && 0 <= c && Inv(k')
      && (Enabled(k', TimerWake(c, later)) <==> ticks < later)
      && (ticks < later ==> Next(k', TimerWake(c, later)).current == c)
  {
    hide Pids, Runnable, Schedule, Next;
    var s := SleepUntil(ticks, tick);
    CallerLeaves(k, s);
    NextInv(k, s);
    assert Next(k, s).depth == 0 by { DispatchedAtZero(k, s); }
    if ticks < later {
      WakeDispatches(Next(k, s), k.current, later);
    }
  }

  lemma DispatchedAtZero(k: Pointed, s: Step)
    requires Inv(k) && Enabled(k, s) && Schedules(s)
    ensures Next(k, s).depth == 0
  {
    hide Pids, Runnable, Schedule;
    EnterInv(k, s);
  }

  /** soft_unblock_task makes its task ready, whether it was blocked or asleep, unless it was ready or
      running already; no other task is touched, and neither is the processor. */
  lemma SoftUnblockWakes(k: Pointed, i: nat)
    requires Inv(k) && i < |k.tasks| && k.tasks[i].state != Terminated
    ensures var k' := SoftUnblock(k, i);
      && |k'.tasks| == |k.tasks| && k'.current == k.current && k'.depth == k.depth && k'.irqOn == k.irqOn
      && k'.tasks[i] == k.tasks[i].(state := if i == k.current then Running else Ready)
      && (forall j :: 0 <= j < |k.tasks| && j != i ==> k'.tasks[j] == k.tasks[j])
      && k'.counter == (if k.tasks[i].state in {Ready, Running} then k.counter else k.counter + 1)
  {
    hide Pids, Runnable;
  }

  /** So a woken task waits for the processor, and BoundedWaiting says how long. */
  lemma WokenWaits(k: Pointed, i: nat)
    requires Inv(k) && i < |k.tasks| && i != k.current && k.tasks[i].state != Terminated
    ensures Inv(SoftUnblock(k, i)) && Waiting(SoftUnblock(k, i), k.tasks[i].pid)
  {
    hide Runnable;
    SoftUnblockInv(k, i);
    SoftUnblockWakes(k, i);
    FindFirst(SoftUnblock(k, i).tasks, i, k.lastPid);
  }

  // ---------- Coming and going ----------

  /** create_task puts one new task at the head of the list, under a pid nobody has, in the state asked
      for, and touches no other; a ready one waits for the processor. */
  lemma CreatedWaits(k: Pointed, state: TaskState)
    requires Inv(k) && Enabled(k, CreateTask(state)) && state != IdleState
    ensures var k' := Create(k, state);
      && |k'.tasks| == |k.tasks| + 1 && k'.tasks[1..] == k.tasks && k'.current == k.current + 1
      && k'.tasks[0].state == state && k'.tasks[0].resume == InTaskEntry
      && (forall i :: 0 <= i < |k.tasks| ==> k.tasks[i].pid != k'.tasks[0].pid)
      && (state == Ready ==> Waiting(k', k'.tasks[0].pid))
  {
    hide Runnable;
    FindFirst(Create(k, state).tasks, 0, k.lastPid + 1) by { CreateInv(k, state); }
  }

  /** A new idle task replaces the idle task and nothing else. */
  lemma CreatedIdle(k: Pointed)
    ensures Create(k, IdleState) == k.(idle := Create(k, IdleState).idle)
    ensures Create(k, IdleState).idle.state == IdleState && Create(k, IdleState).idle.resume == InTaskEntry
  {
  }

  /** A round of the reaper unlinks a terminated task if there is one, and touches no other. */
  lemma ReapedOne(k: Pointed)
    requires Inv(k)
    ensures var k' := Reap(k);
      if exists i :: 0 <= i < |k.tasks| && k.tasks[i].state == Terminated then
        exists r :: 0 <= r < |k.tasks| && k.tasks[r].state == Terminated && k'.tasks == k.tasks[..r] + k.tasks[r + 1..]
          && TaskAt(k', k'.current) == TaskAt(k, k.current)
      else k' == k
  {
    hide Runnable, Pids;
    ReapShape(k);
  }
}
