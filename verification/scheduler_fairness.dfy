/** How long a ready task waits: the scheduler's search goes round the list, so between one dispatch
    and the next every ready task is passed at most once. */
module SchedulerFairness {
  import opened Scheduler

  /** Tasks strictly between index c and index i when walking forward from c; c may be IDLE. */
  function Distance(n: nat, c: int, i: nat): nat
    requires IDLE <= c < n && i < n
  {
    if c < i then i - c - 1 else i - c - 1 + n
  }

  predicate Waiting(k: Pointed, pid: nat)
  {
    Find(k.tasks, pid) < |k.tasks| && k.tasks[Find(k.tasks, pid)].state == Ready
  }

  function Ahead(k: Pointed, pid: nat): (d: nat)
    requires Waiting(k, pid)
    ensures d < |k.tasks|
  {
    Distance(|k.tasks|, k.current, Find(k.tasks, pid))
  }

  /** The search settles on the nearest ready task. */
  lemma ChooseNearest(k: Pointed, i: nat)
    requires i < |k.tasks| && k.tasks[i].state == Ready
    ensures Choose(k) < |k.tasks|
    ensures Distance(|k.tasks|, k.current, Choose(k)) <= Distance(|k.tasks|, k.current, i)
  {
  }

  /** Each scheduler() call that leaves a task waiting brings its turn nearer. */
  lemma ScheduleAdvances(k: Pointed, r: Resume, pid: nat)
    requires Searchable(k) && k.counter != 0
    requires Waiting(k, pid) && Waiting(Schedule(k, r), pid)
    ensures Ahead(Schedule(k, r), pid) < Ahead(k, pid)
  {
    hide Schedule, Choose;
    ScheduleShape(k, r);
    FindSame(k.tasks, Schedule(k, r).tasks, pid);
    ChooseNearest(Yielded(k), Find(k.tasks, pid));
  }

  /** The scheduler() calls a step makes. */
  function Calls(s: Step): nat { if Schedules(s) then 1 else 0 }

  function Creations(s: Step): nat { if s.CreateTask? then 1 else 0 }

  /** The direct dispatches by unblock_task. */
  function Wakes(s: Step): nat { if s.TimerWake? then 1 else 0 }

  lemma StepAdvances(k: Pointed, s: Step, pid: nat)
    requires Inv(k) && Enabled(k, s) && !s.TimerWake?
    requires Waiting(k, pid) && Waiting(Next(k, s), pid)
    ensures Ahead(Next(k, s), pid) + Calls(s) <= Ahead(k, pid) + Creations(s)
  {
    hide Pids, Runnable, Schedule, Create, Reap, Entering, SoftUnblock, Ahead;
    if Schedules(s) {
      EnterInv(k, s);
      EnteringKeepsAhead(k, s, pid);
      ScheduleAdvances(Entering(k, s), ResumeOf(s), pid);
    } else {
      match s
      case LockIrq => SameTasksAhead(k, Lock(k), pid);
      case UnlockIrq => SameTasksAhead(k, Unlock(k), pid);
      case CreateTask(state) => CreateAdvances(k, state, pid);
      case SoftUnblockTask(j) => SoftUnblockKeepsAhead(k, j, pid);
      case ReapTask => ReapAdvances(k, pid);
      case _ =>
    }
  }

  /** The list grows only when a task is created. */
  lemma ListGrows(k: Pointed, s: Step)
    requires Inv(k) && Enabled(k, s)
    ensures |Next(k, s).tasks| <= |k.tasks| + Creations(s)
  {
    hide Pids, Runnable, Schedule, Switch;
    if Schedules(s) {
      EnterInv(k, s);
      ScheduleShape(Entering(k, s), ResumeOf(s));
    } else if s.TimerWake? {
      SwitchShape(Unblocking(k, s.sleeper), s.sleeper, InUnblockTask);
    }
  }

  lemma SameTasksAhead(k: Pointed, k': Pointed, pid: nat)
    requires k'.current == k.current && |k'.tasks| == |k.tasks|
    requires forall i :: 0 <= i < |k.tasks| ==> k'.tasks[i].pid == k.tasks[i].pid
    requires Waiting(k, pid)
    ensures Find(k'.tasks, pid) == Find(k.tasks, pid)
    ensures Waiting(k', pid) ==> Ahead(k', pid) == Ahead(k, pid)
  {
    FindSame(k.tasks, k'.tasks, pid);
  }

  lemma SoftUnblockKeepsAhead(k: Pointed, j: nat, pid: nat)
    requires j < |k.tasks| && Waiting(k, pid) && Waiting(SoftUnblock(k, j), pid)
    ensures Ahead(SoftUnblock(k, j), pid) == Ahead(k, pid)
  {
    SameTasksAhead(k, SoftUnblock(k, j), pid);
  }

  /** What a step does before scheduler() does not touch the waiting task, and leaves it counted. */
  lemma EnteringKeepsAhead(k: Pointed, s: Step, pid: nat)
    requires Inv(k) && Enabled(k, s) && Schedules(s) && Waiting(k, pid)
    ensures var k1 := Entering(k, s);
      |k1.tasks| == |k.tasks| && k1.counter != 0 && Waiting(k1, pid) && Ahead(k1, pid) == Ahead(k, pid)
  {
    hide Pids, Runnable, Ahead, Entering, Searchable, Schedule, Find;
    var k1, i := Entering(k, s), Find(k.tasks, pid);
    EnterInv(k, s);
    EnteringTasks(k, s);
    SameTasksAhead(k, k1, pid);
    assert k1.tasks[i].state == Ready;
    SomeRunnable(k1.tasks);
    assert Counted(k1.tasks[i]) == 1;
  }

  lemma EnteringTasks(k: Pointed, s: Step)
    requires Inv(k) && Enabled(k, s) && Schedules(s)
    ensures var k1 := Entering(k, s);
      && k1.current == k.current && |k1.tasks| == |k.tasks|
      && (forall i :: 0 <= i < |k.tasks| ==> k1.tasks[i].pid == k.tasks[i].pid)
      && (forall i :: 0 <= i < |k.tasks| && i != k.current ==> k1.tasks[i] == k.tasks[i])
  {
    hide Pids, Runnable;
  }

  lemma CreateAdvances(k: Pointed, state: TaskState, pid: nat)
    requires Inv(k) && Waiting(k, pid) && Waiting(Create(k, state), pid)
    ensures Ahead(Create(k, state), pid) <= Ahead(k, pid) + 1
  {
    if state != IdleState {
      var t := Create(k, state).tasks[0];
      assert Create(k, state).tasks[1..] == k.tasks;
      assert t.pid != pid;
    }
  }

  lemma ReapAdvances(k: Pointed, pid: nat)
    requires Inv(k) && k.current != IDLE && Waiting(k, pid) && Waiting(Reap(k), pid)
    ensures Ahead(Reap(k), pid) <= Ahead(k, pid)
  {
    hide Runnable, Pids, Find;
    ReapIndex(k, pid);
  }

  // ---------- Whole runs ----------

  /** The task is ready in every state of the run. */
  ghost predicate WaitsThroughout(k: Pointed, steps: seq<Step>, pid: nat)
    decreases steps
  {
    Waiting(k, pid) &&
    (steps != [] ==> Inv(k) && Enabled(k, steps[0]) && WaitsThroughout(Next(k, steps[0]), steps[1..], pid))
  }

  function TotalCalls(steps: seq<Step>): nat
  {
    if steps == [] then 0 else Calls(steps[0]) + TotalCalls(steps[1..])
  }

  function TotalCreations(steps: seq<Step>): nat
  {
    if steps == [] then 0 else Creations(steps[0]) + TotalCreations(steps[1..])
  }

  function TotalWakes(steps: seq<Step>): nat
  {
    if steps == [] then 0 else Wakes(steps[0]) + TotalWakes(steps[1..])
  }

  lemma {:induction false} WaitShrinks(k: Pointed, steps: seq<Step>, last: Pointed, pid: nat)
    requires Inv(k) && Run(k, steps, last) && WaitsThroughout(k, steps, pid)
    ensures TotalCalls(steps) <= Ahead(k, pid) + TotalCreations(steps)
                                 + TotalWakes(steps) * (|k.tasks| + TotalCreations(steps) - 1)
    decreases steps
  {
    hide Inv, Enabled, Next, Ahead, Waiting;
    if steps != [] {
      var k', rest := Next(k, steps[0]), steps[1..];
      NextInv(k, steps[0]);
      ListGrows(k, steps[0]);
      WaitShrinks(k', rest, last, pid);
      var round := |k.tasks| + TotalCreations(steps) - 1;
      ShorterRound(TotalWakes(rest), |k'.tasks| + TotalCreations(rest) - 1, round);
      if steps[0].TimerWake? {
        OneMore(TotalWakes(rest), round);
      } else {
        StepAdvances(k, steps[0], pid);
      }
    }
  }

  lemma ShorterRound(wakes: nat, round': int, round: int)
    requires round' <= round
    ensures wakes * round' <= wakes * round
  {
  }

  lemma OneMore(wakes: nat, round: int)
    ensures (wakes + 1) * round == wakes * round + round
  {
  }

  /** Bounded waiting: with n tasks listed, a task that stays ready is dispatched within n calls of
      scheduler(), plus one for each task created meanwhile.  Each direct dispatch by unblock_task moves
      the search's starting point and can cost one more such round. */
  lemma BoundedWaiting(k: Pointed, steps: seq<Step>, last: Pointed, pid: nat)
    requires Inv(k) && Run(k, steps, last) && WaitsThroughout(k, steps, pid)
    ensures TotalCalls(steps) < (|k.tasks| + TotalCreations(steps)) * (TotalWakes(steps) + 1)
  {
    hide Inv, Run, WaitsThroughout, TotalCalls, TotalCreations, TotalWakes;
    assert Waiting(k, pid) by { WaitsNow(k, steps, pid); }
    WaitShrinks(k, steps, last, pid);
    Rounds(TotalWakes(steps), |k.tasks| + TotalCreations(steps));
  }

  lemma WaitsNow(k: Pointed, steps: seq<Step>, pid: nat)
    requires WaitsThroughout(k, steps, pid)
    ensures Waiting(k, pid)
  {
  }

  lemma Rounds(wakes: nat, n: nat)
    ensures n * (wakes + 1) == wakes * (n - 1) + wakes + n
  {
  }
}
