/** No lost wake-up and bounded waiting together: frames in a queue are not only never forgotten, their
    handler gets the processor within a bounded number of scheduler() calls. */
module HandlerService {
  import opened Scheduler
  import opened SchedulerFairness
  import opened Wakeup

  /** In every state of the run frames are queued, no sender is about to wake the handler, and the
      handler does not have the processor. */
  ghost predicate Unserved(s: System, events: seq<Event>)
    decreases events
  {
    && s.queue != [] && !s.publishing && !Current(s)
    && (events != [] ==> Wakeup.Inv(s) && Wakeup.Enabled(s, events[0]) && Unserved(Wakeup.Next(s, events[0]), events[1..]))
  }

  /** The kernel calls of a run. */
  function KernelSteps(events: seq<Event>): seq<Step>
  {
    if events == [] then []
    else (if events[0].KernelCall? then [events[0].step] else []) + KernelSteps(events[1..])
  }

  /** A handler with frames queued that does not have the processor is waiting for it. */
  lemma FramesMeanWaiting(s: System)
    requires Wakeup.Inv(s) && s.queue != [] && !s.publishing && !Current(s)
    ensures Waiting(s.kernel, s.handler)
  {
    hide Pids, Runnable;
  }

  /** While it waits, no event but the kernel's own calls changes the kernel. */
  lemma OnlyKernelCalls(s: System, e: Event)
    requires Wakeup.Inv(s) && Wakeup.Enabled(s, e)
    requires s.queue != [] && !s.publishing && !Current(s)
    ensures e.KernelCall? ==> Scheduler.Enabled(s.kernel, e.step)
    ensures e.KernelCall? ==> Wakeup.Next(s, e).kernel == Scheduler.Next(s.kernel, e.step)
    ensures !e.KernelCall? ==> Wakeup.Next(s, e).kernel == s.kernel
    ensures Wakeup.Next(s, e).handler == s.handler
  {
    hide Scheduler.Inv, Scheduler.Next, Scheduler.Enabled;
    FramesMeanWaiting(s);
  }

  lemma {:induction false} WaitsInRun(s: System, events: seq<Event>, last: System)
    requires Wakeup.Inv(s) && Wakeup.Run(s, events, last) && Unserved(s, events)
    ensures Scheduler.Run(s.kernel, KernelSteps(events), last.kernel)
    ensures WaitsThroughout(s.kernel, KernelSteps(events), s.handler)
    decreases events
  {
    hide Wakeup.Next, Wakeup.Enabled, Scheduler.Next, Scheduler.Enabled, Scheduler.Inv, Waiting, Current;
    FramesMeanWaiting(s);
    if events != [] {
      var e, rest := events[0], events[1..];
      StepInv(s, e);
      OnlyKernelCalls(s, e);
      WaitsInRun(Wakeup.Next(s, e), rest, last);
      if e.KernelCall? {
        var steps := KernelSteps(events);
        assert steps == [e.step] + KernelSteps(rest);
        assert steps[1..] == KernelSteps(rest);
      } else {
        assert KernelSteps(events) == KernelSteps(rest);
      }
    }
  }

  /** A handler with frames queued is dispatched within as many scheduler() calls as there are tasks, plus
      one for each task created meanwhile, and as many again for each task the timer wakes directly. */
  lemma ServedInTime(s: System, events: seq<Event>, last: System)
    requires Wakeup.Inv(s) && Wakeup.Run(s, events, last) && Unserved(s, events)
    ensures TotalCalls(KernelSteps(events)) <
      (|s.kernel.tasks| + TotalCreations(KernelSteps(events))) * (TotalWakes(KernelSteps(events)) + 1)
  {
    hide Wakeup.Run, Unserved, Scheduler.Run, WaitsThroughout, TotalCalls, TotalCreations, TotalWakes;
    WaitsInRun(s, events, last);
    BoundedWaiting(s.kernel, KernelSteps(events), last.kernel, s.handler);
  }
}
