/** The sender task of TcpSystem is a task of the kernel: its falling asleep, its waking by the timer and
    its waking by an enqueue are sleep_until, unblock_task and soft_unblock_task on its TCB. */
module TcpSenderTask {
  import opened Scheduler
  import opened SchedulerEffects
  import Bitmap
  import TcpSender
  import Tcp = TcpSystem

  /** The sender task is asleep until a time, or runs or is ready to. */
  predicate Follows(task: Tcp.SenderTask, t: Task)
  {
    if task.Asleep? then t.state == Sleeping && t.sleepUntil == task.until else t.state in {Running, Ready}
  }

  /** tcp_sender_enqueue wakes the sender with soft_unblock_task. */
  lemma EnqueueFollows(s: Tcp.System, data: seq<Bitmap.byte>, k: Pointed, i: nat)
    requires Tcp.Inv(s) && Tcp.Enabled(s, Tcp.Enqueue(data))
    requires Inv(k) && i < |k.tasks| && Follows(s.task, k.tasks[i])
    ensures Inv(SoftUnblock(k, i)) && |SoftUnblock(k, i).tasks| == |k.tasks|
    ensures !Tcp.Next(s, Tcp.Enqueue(data)).task.Asleep?
    ensures Follows(Tcp.Next(s, Tcp.Enqueue(data)).task, SoftUnblock(k, i).tasks[i])
  {
    SoftUnblockWakes(k, i);
    SoftUnblockInv(k, i);
    assert TcpSender.FirstFree(s.queue) == 0;
  }

  /** The end of a round of tcp_sender_task is sleep_until (min_tick). */
  lemma FallAsleepFollows(s: Tcp.System, k: Pointed)
    requires s.window.Valid() && s.task.GoingToSleep? && Inv(k) && Enabled(k, SleepUntil(s.task.until, s.clock))
    ensures var k' := Next(k, SleepUntil(s.task.until, s.clock));
      |k'.tasks| == |k.tasks| && Follows(Tcp.Next(s, Tcp.FallAsleep).task, k'.tasks[k.current])
  {
    hide Runnable, Pids;
    if s.task.until >= s.clock {
      CallerLeaves(k, SleepUntil(s.task.until, s.clock));
    }
  }

  /** The timer can wake the sender in the kernel exactly when it can in the system. */
  lemma WakeFollows(s: Tcp.System, k: Pointed, i: nat)
    requires s.window.Valid() && s.task.Asleep? && Inv(k) && k.irqOn && i < |k.tasks| && Follows(s.task, k.tasks[i])
    ensures Enabled(k, TimerWake(i, s.clock)) <==> Tcp.Enabled(s, Tcp.Wake)
    ensures Enabled(k, TimerWake(i, s.clock)) ==>
      var k' := Next(k, TimerWake(i, s.clock));
      |k'.tasks| == |k.tasks| && Follows(Tcp.Next(s, Tcp.Wake).task, k'.tasks[i])
  {
    hide Runnable, Pids;
    if Enabled(k, TimerWake(i, s.clock)) {
      WakeDispatches(k, i, s.clock);
    }
  }
}
