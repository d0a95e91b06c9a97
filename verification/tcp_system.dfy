/** End to end: the sending application, the sender task with its queue and send window, the network,
    and the peer's receive window.

    The network may lose, duplicate, reorder and delay data segments at will: `flight` is every
    segment ever put on the wire and any of them may arrive at any time.  `acks` is likewise every
    acknowledgment ever sent; any of them may arrive that is `Harmless`, and tcp_acks.dfy proves
    that this cannot be weakened.  The sending application hands over a new segment only when the queue is
    empty, stamps it with the send window's mark as entry() in src/kcore/kernel_main.c does, and keeps
    it within the window.  Position 1 is the first stream byte: both ends open with sequence number 0.

    A sweep happens only when the sender task is awake.  Between the end of a sweep and sleep_until the
    task holds no lock, so that anything else can happen there. */
module TcpSystem {
  import opened Bitmap
  import opened TcpWindow
  import opened TcpStream
  import opened TcpSender

  const PORT: nat := 5555

  /** `until` is min_tick. */
  datatype SenderTask = Awake | GoingToSleep(until: nat) | Asleep(until: nat)

  datatype System = System(
    stream: seq<byte>,     // every byte the sending application has enqueued
    queue: Queue,
    task: SenderTask,
    clock: nat,            // tick
    sender: SendWindow,
    flight: set<Segment>,
    acks: set<nat>,
    window: Window,        // the peer's receive window
    delivered: seq<byte>)  // every byte the peer's tcp_read has returned

  datatype Step =
    | Enqueue(data: seq<byte>)
    | Sweep
    | FallAsleep
    | Tick
    | Wake
    | DataArrives(segment: Segment)
    | AckArrives(number: nat)
    | PeerReads(size: nat)

  ghost predicate Idle(q: Queue) { forall i :: 0 <= i < |q| ==> q[i].None? }

  /** No queued segment reaches past the send window: the sweep splits none. */
  ghost predicate AllFit(q: Queue, window: SendWindow)
  {
    forall i :: 0 <= i < |q| && q[i].Some? ==> Fits(q[i].value, window)
  }

  /** An acknowledgment that would leave every queued segment inside the send window and, if nothing is
      queued, the mark where it is. */
  ghost predicate Harmless(s: System, number: nat)
  {
    AllFit(s.queue, s.sender.(acked := number)) && (Idle(s.queue) ==> number == s.sender.acked)
  }

  ghost predicate Enabled(s: System, step: Step)
  {
    match step
    case Enqueue(data) => Idle(s.queue) && 0 < |data| <= s.sender.size && |s.stream| + |data| + 2 * WINDOW_SIZE < U32_LIMIT
    case Sweep => s.task.Awake?
    case FallAsleep => s.task.GoingToSleep?
    case Tick => s.clock + 1 + RETRY_TICKS < FOREVER
    case Wake => s.task.Asleep? && s.task.until < s.clock
    case DataArrives(segment) => segment in s.flight
    case AckArrives(number) => number in s.acks && Harmless(s, number)
    case PeerReads(size) => size < U32_LIMIT - |s.stream| - 1
  }

  ghost function Next(s: System, step: Step): System
    requires s.window.Valid()
  {
    match step
    case Enqueue(data) =>
      s.(stream := s.stream + data,
         queue := Enqueued(s.queue, Entry(PORT, Segment(s.sender.acked, data), 0)),
         task := if s.task.Asleep? && FirstFree(s.queue) < |s.queue| then Awake else s.task)
    case Sweep =>
      var windows := map[PORT := s.sender];
      var sent := Emitted(s.queue, windows, s.clock);
      s.(queue := Swept(s.queue, windows, s.clock),
         flight := s.flight + (set x | x in sent),
         task := GoingToSleep(if sent == [] then FOREVER else RETRY_TICKS + s.clock))
    case FallAsleep =>
      s.(task := if s.task.GoingToSleep? && s.task.until >= s.clock then Asleep(s.task.until) else Awake)
    case Tick => s.(clock := s.clock + 1)
    case Wake => s.(task := Awake)
    case DataArrives(segment) =>
      s.(window := Deliver(s.window, segment),
         acks := s.acks + match Reply(s.window, segment) case Some(number) => {number} case None => {})
    case AckArrives(number) => s.(sender := s.sender.(acked := number))
    case PeerReads(size) =>
      s.(window := AfterRead(s.window, size), delivered := s.delivered + ReadBytes(s.window, size))
  }

  /** Both ends just connected; the send window's size is the peer's window, cut down by
      tcp_init_window.  entry() sleeps before it sends anything, so the clock has ticked. */
  ghost predicate Init(s: System)
  {
    && s.stream == [] == s.delivered && s.flight == {} && s.acks == {}
    && |s.queue| == MAX_QUEUE && Idle(s.queue)
    && s.task == Awake && 0 < s.clock && s.clock + RETRY_TICKS < FOREVER
    && s.sender.acked == 1 && s.sender.size <= WINDOW_SIZE
    && s.window.first == s.window.acked == 1
    && |s.window.ring| == WINDOW_SIZE && s.window.bits == seq(WINDOW_SIZE, _ => false)
  }

  /** A queued entry is the unacknowledged tail of the stream. */
  ghost predicate Outstanding(s: System, e: Entry)
  {
    && e.port == PORT && SliceOf(e.segment, s.stream, 1)
    && 0 < |e.segment.data| <= s.sender.size && End(e.segment) == 1 + |s.stream|
    && e.segment.seqNo <= s.window.acked && Fits(e, s.sender)
  }

  /** Only the first slot is ever used. */
  ghost predicate Single(q: Queue)
  {
    |q| == MAX_QUEUE && forall i :: 0 < i < |q| ==> q[i].None?
  }

  /** The sender task sleeps until its segment's deadline, unless it missed the segment altogether. */
  predicate OnTime(slot: Option<Entry>, task: SenderTask, clock: nat)
  {
    match slot
    case None => task.Awake? || task.until == FOREVER
    case Some(e) =>
      && e.tick <= clock + RETRY_TICKS
      && if task.Awake? then e.tick < clock else task.until == e.tick || (task.until == FOREVER && e.tick == 0)
  }

  ghost predicate Inv(s: System)
  {
    && s.window.Valid() && Holds(s.window, s.stream, 1)
    && s.delivered == s.stream[..s.window.first - 1]
    && s.sender.size <= WINDOW_SIZE && (s.sender.size == 0 ==> s.stream == [])
    && 1 <= s.sender.acked <= s.window.acked && (s.sender.acked == 1 || s.sender.acked in s.acks)
    && |s.stream| + 2 * WINDOW_SIZE < U32_LIMIT
    && (forall number :: number in s.acks ==> 1 <= number <= s.window.acked)
    && (forall x :: x in s.flight ==> SliceOf(x, s.stream, 1) && x.seqNo <= s.window.acked && 0 < |x.data|)
    && Single(s.queue)
    && (s.queue[0].Some? ==> Outstanding(s, s.queue[0].value))
    && (s.queue[0].None? ==> s.sender.acked == 1 + |s.stream|)
    && 0 < s.clock && s.clock + RETRY_TICKS < FOREVER && OnTime(s.queue[0], s.task, s.clock)
  }

  lemma InitInv(s: System)
    requires Init(s)
    ensures Inv(s)
  {
  }

  lemma SliceGrows(x: Segment, stream: seq<byte>, data: seq<byte>)
    requires SliceOf(x, stream, 1)
    ensures SliceOf(x, stream + data, 1)
  {
    assert (stream + data)[..|stream|] == stream;
    assert stream[x.seqNo - 1..End(x) - 1] == (stream + data)[x.seqNo - 1..End(x) - 1];
  }

  lemma EnqueuedSlice(stream: seq<byte>, data: seq<byte>)
    ensures SliceOf(Segment(1 + |stream|, data), stream + data, 1)
  {
  }

  lemma EnqueueInv(s: System, data: seq<byte>)
    requires Inv(s) && Enabled(s, Enqueue(data))
    ensures Inv(Next(s, Enqueue(data)))
  {
    hide Holds, SliceOf;
    var s' := Next(s, Enqueue(data));
    HoldsGrows(s.window, s.stream, data, 1);
    HoldsBounds(s.window, s.stream, 1);
    EnqueuedSlice(s.stream, data);
    forall x | x in s.flight
      ensures SliceOf(x, s'.stream, 1)
    {
      SliceGrows(x, s.stream, data);
    }
    assert FirstFree(s.queue) == 0;
    assert s.stream[..s.window.first - 1] == s'.stream[..s.window.first - 1];
  }

  /** A sweep of a queue with at most one segment: not due, it stays; acknowledged, it goes; otherwise
      it is on the wire, and the task is about to sleep until its new deadline. */
  lemma SweepShape(s: System)
    requires s.window.Valid() && Single(s.queue)
    ensures var s', slot, windows := Next(s, Sweep), s.queue[0], map[PORT := s.sender];
      && Single(s'.queue) && s'.queue[0] == SweptSlot(slot, windows, s.clock)
      && (Resent(slot, windows, s.clock) ==>
            s'.task == GoingToSleep(RETRY_TICKS + s.clock) && s'.flight == s.flight + {slot.value.segment})
      && (!Resent(slot, windows, s.clock) ==> s'.task == GoingToSleep(FOREVER) && s'.flight == s.flight)
  {
    var s', slot, windows := Next(s, Sweep), s.queue[0], map[PORT := s.sender];
    EmittedNone(s.queue, windows, s.clock);
    forall x
      ensures x in Emitted(s.queue, windows, s.clock) <==> Resent(slot, windows, s.clock) && slot.value.segment == x
    {
      EmittedExactly(s.queue, windows, s.clock, x);
    }
    assert forall i :: 0 <= i < |s.queue| ==> s'.queue[i] == SweptSlot(s.queue[i], windows, s.clock);
  }

  lemma SweepInv(s: System)
    requires Inv(s) && Enabled(s, Sweep)
    ensures Inv(Next(s, Sweep))
  {
    hide Next, Holds, SliceOf;
    SweepShape(s);
    HoldsBounds(s.window, s.stream, 1);
    assert Next(s, Sweep) == s.(queue := Next(s, Sweep).queue, flight := Next(s, Sweep).flight, task := Next(s, Sweep).task)
    by { SweepFrame(s); }
  }

  lemma SweepFrame(s: System)
    requires s.window.Valid()
    ensures var s' := Next(s, Sweep); s' == s.(queue := s'.queue, flight := s'.flight, task := s'.task)
  {
  }

  lemma DataArrivesInv(s: System, x: Segment)
    requires Inv(s) && Enabled(s, DataArrives(x))
    ensures Inv(Next(s, DataArrives(x)))
  {
    DeliverHolds(s.window, x, s.stream, 1);
    DeliverValid(s.window, x);
  }

  lemma PeerReadsInv(s: System, size: nat)
    requires Inv(s) && Enabled(s, PeerReads(size))
    ensures Inv(Next(s, PeerReads(size)))
  {
    hide Holds, SliceOf, AfterRead, ReadBytes;
    ReadHolds(s.window, size, s.stream, 1);
    HoldsBounds(s.window, s.stream, 1);
    HoldsBounds(AfterRead(s.window, size), s.stream, 1);
    AfterReadValid(s.window, size);
    var w' := AfterRead(s.window, size);
    assert s.stream[..w'.first - 1] == s.stream[..s.window.first - 1] + s.stream[s.window.first - 1..w'.first - 1];
  }

  lemma AckInv(s: System, number: nat)
    requires Inv(s) && Enabled(s, AckArrives(number))
    ensures Inv(Next(s, AckArrives(number)))
  {
    assert s.queue[0].None? ==> Idle(s.queue);
  }

  /** Acknowledgments in non-decreasing order are always harmless. */
  lemma InOrderHarmless(s: System, number: nat)
    requires Inv(s) && number in s.acks && s.sender.acked <= number
    ensures Harmless(s, number)
  {
    hide SliceOf;
    HoldsBounds(s.window, s.stream, 1);
  }

  lemma NextInv(s: System, step: Step)
    requires Inv(s) && Enabled(s, step)
    ensures Inv(Next(s, step))
  {
    match step
    case Enqueue(data) => EnqueueInv(s, data);
    case Sweep => SweepInv(s);
    case FallAsleep =>
    case Tick =>
    case Wake =>
    case DataArrives(segment) => DataArrivesInv(s, segment);
    case AckArrives(number) => AckInv(s, number);
    case PeerReads(size) => PeerReadsInv(s, size);
  }

  // ---------- Whole runs ----------

  ghost predicate Run(s: System, steps: seq<Step>, last: System)
    decreases steps
  {
    if steps == [] then s == last
    else s.window.Valid() && Enabled(s, steps[0]) && Run(Next(s, steps[0]), steps[1..], last)
  }

  lemma {:induction false} RunInv(s: System, steps: seq<Step>, last: System)
    requires Inv(s) && Run(s, steps, last)
    ensures Inv(last)
    decreases steps
  {
    hide Inv, Enabled, Next;
    if steps != [] {
      NextInv(s, steps[0]);
      RunInv(Next(s, steps[0]), steps[1..], last);
    }
  }

  /** The sender task is awake, and its next sweep takes the branch that splits a segment. */
  ghost predicate SplitsNext(s: System)
  {
    && s.task.Awake?
    && (exists i :: 0 <= i < |s.queue| && Resent(s.queue[i], map[PORT := s.sender], s.clock) &&
                    !Fits(s.queue[i].value, s.sender))
  }

  /** What the peer has read is a prefix of what was enqueued, and no segment is about to be split. */
  ghost predicate Intact(s: System)
  {
    s.delivered <= s.stream && !SplitsNext(s)
  }

  ghost predicate Safe(s: System)
  {
    forall steps, last :: Run(s, steps, last) ==> Intact(last)
  }

  lemma InvIntact(s: System)
    requires Inv(s)
    ensures Intact(s)
  {
    hide Holds, SliceOf;
    HoldsBounds(s.window, s.stream, 1);
  }

  lemma InvSafe(s: System)
    requires Inv(s)
    ensures Safe(s)
  {
    hide Inv, Intact, Run;
    forall steps, last | Run(s, steps, last)
      ensures Intact(last)
    {
      RunInv(s, steps, last);
      InvIntact(last);
    }
  }

  /** End-to-end safety, for every run from a fresh connection: what the peer has read is a prefix of
      what was enqueued; no queued segment ever reaches past the send window, so none is ever split;
      and every segment that can arrive starts at or below the peer's mark, so no gap ever opens. */
  lemma StreamSafety(s: System, steps: seq<Step>, last: System)
    requires Init(s) && Run(s, steps, last)
    ensures last.delivered <= last.stream
    ensures forall i :: 0 <= i < |last.queue| && last.queue[i].Some? ==> Fits(last.queue[i].value, last.sender)
    ensures forall x :: x in last.flight ==> x.seqNo <= last.window.acked && SliceOf(x, last.stream, 1)
  {
    hide Run, SliceOf;
    InitInv(s);
    RunInv(s, steps, last);
  }

  /** Every step of every run meets the demands of the kernel method that carries it out. */
  lemma DemandsMet(s: System, step: Step)
    requires Inv(s) && Enabled(s, step)
    ensures step.DataArrives? ==>
      1 <= End(step.segment) < U32_LIMIT && s.window.first + WINDOW_SIZE < U32_LIMIT
    ensures step.PeerReads? ==> 1 <= s.window.first + step.size <= U32_LIMIT
    ensures step.Sweep? ==> s.clock + RETRY_TICKS < U32_LIMIT
    ensures step.Sweep? ==> !SplitsNext(s) && forall i :: 0 <= i < |s.queue| && s.queue[i].Some? ==>
      s.queue[i].value.port == PORT && Fits(s.queue[i].value, s.sender)
  {
  }

  // ---------- Building runs ----------

  lemma {:induction false} RunJoin(s: System, steps: seq<Step>, mid: System, step: Step)
    requires Run(s, steps, mid) && mid.window.Valid() && Enabled(mid, step)
    ensures Run(s, steps + [step], Next(mid, step))
    decreases steps
  {
    hide Enabled, Next;
    if steps == [] {
      assert steps + [step] == [step];
      assert Run(Next(s, step), [], Next(s, step));
      assert [step][1..] == [];
    } else {
      RunJoin(Next(s, steps[0]), steps[1..], mid, step);
      assert (steps + [step])[1..] == steps[1..] + [step];
    }
  }

  lemma {:induction false} RunConcat(s: System, before: seq<Step>, mid: System, after: seq<Step>, last: System)
    requires Run(s, before, mid) && Run(mid, after, last)
    ensures Run(s, before + after, last)
    decreases before
  {
    hide Enabled, Next;
    if before == [] {
      assert before + after == after;
    } else {
      RunConcat(Next(s, before[0]), before[1..], mid, after, last);
      assert (before + after)[1..] == before[1..] + after;
    }
  }

  lemma RunNothing(s: System)
    ensures Run(s, [], s)
  {
  }

  lemma {:induction false} PassTime(s: System, steps: seq<Step>, mid: System, until: nat)
    returns (steps': seq<Step>, last: System)
    requires Run(s, steps, mid) && mid.window.Valid()
    requires mid.clock <= until && until + RETRY_TICKS < FOREVER
    ensures Run(s, steps', last) && last == mid.(clock := until)
    decreases until - mid.clock
  {
    hide Run;
    steps', last := steps, mid;
    if mid.clock < until {
      RunJoin(s, steps, mid, Tick);
      steps', last := PassTime(s, steps + [Tick], Next(mid, Tick), until);
    }
  }

  /** The sender task is awake again as soon as its deadline has passed. */
  lemma Rouse(s: System, steps: seq<Step>, mid: System) returns (steps': seq<Step>, last: System)
    requires Run(s, steps, mid) && mid.window.Valid()
    requires mid.clock + RETRY_TICKS < FOREVER
    requires mid.task.Awake? || mid.task.until + 1 + RETRY_TICKS < FOREVER
    ensures Run(s, steps', last) && last == mid.(task := Awake, clock := last.clock)
    ensures last.clock == mid.clock || (!mid.task.Awake? && mid.clock < last.clock == mid.task.until + 1)
    ensures mid.task.Awake? || mid.task.until < last.clock
  {
    hide Run;
    steps', last := steps, mid;
    if last.task.GoingToSleep? {
      RunJoin(s, steps', last, FallAsleep);
      steps', last := steps' + [FallAsleep], Next(last, FallAsleep);
    }
    if last.task.Asleep? {
      steps', last := PassTime(s, steps', last, Max(last.clock, last.task.until + 1));
      RunJoin(s, steps', last, Wake);
      steps', last := steps' + [Wake], Next(last, Wake);
    }
  }

  /** A task with nothing to do goes to sleep for good. */
  lemma Settle(s: System, steps: seq<Step>, mid: System) returns (steps': seq<Step>, last: System)
    requires Run(s, steps, mid) && mid.window.Valid() && mid.clock < FOREVER
    requires mid.task.GoingToSleep? ==> mid.task.until == FOREVER
    ensures Run(s, steps', last) && last == mid.(task := last.task)
    ensures last.task == if mid.task.GoingToSleep? then Asleep(FOREVER) else mid.task
  {
    hide Run;
    steps', last := steps, mid;
    if last.task.GoingToSleep? {
      RunJoin(s, steps', last, FallAsleep);
      steps', last := steps' + [FallAsleep], Next(last, FallAsleep);
    }
  }

  /** A reading of the whole window leaves it empty. */
  lemma ReadAll(s: System, steps: seq<Step>, mid: System) returns (steps': seq<Step>, last: System)
    requires Run(s, steps, mid) && Inv(mid)
    ensures Run(s, steps', last) && Inv(last)
    ensures last == mid.(window := last.window, delivered := last.delivered)
    ensures last.window.first == last.window.acked == mid.window.acked
  {
    hide Run, Holds;
    var step := PeerReads(WINDOW_SIZE + 2);
    RunJoin(s, steps, mid, step);
    NextInv(mid, step);
    steps', last := steps + [step], Next(mid, step);
  }

  // ---------- When everything can still be delivered ----------

  /** The sender task sleeps, or is about to, until a time that never comes, with a segment queued. */
  ghost predicate Wedged(s: System)
  {
    !Idle(s.queue) && !s.task.Awake? && s.task.until == FOREVER
  }

  /** A segment that ends the stream, and the peer has room for, is taken and acknowledged in full. */
  lemma TailAcknowledged(s: System, x: Segment)
    requires Inv(s) && x in s.flight && End(x) == 1 + |s.stream| && End(x) <= s.window.first + WINDOW_SIZE
    ensures Next(s, DataArrives(x)).window.acked == End(x)
    ensures End(x) in Next(s, DataArrives(x)).acks
  {
    hide Holds, SliceOf, Deliver, Reply;
    HoldsBounds(s.window, s.stream, 1);
    DeliverExactly(s.window, x);
    ReplyExactly(s.window, x);
  }

  /** A sweep by an awake task frees the queued segment or puts it on the wire. */
  lemma SweepAll(s: System, steps: seq<Step>, mid: System) returns (steps': seq<Step>, last: System)
    requires Run(s, steps, mid) && Inv(mid) && mid.task.Awake?
    ensures Run(s, steps', last) && Inv(last)
    ensures last == mid.(queue := last.queue, flight := last.flight, task := last.task) && last.task.GoingToSleep?
    ensures mid.sender.acked == 1 + |mid.stream| ==> Idle(last.queue)
    ensures Idle(last.queue) ==> last.task.until == FOREVER
    ensures !Idle(last.queue) ==> last.queue[0].Some? && last.queue[0].value.segment in last.flight
    ensures !Idle(last.queue) ==> last.task.until == mid.clock + RETRY_TICKS
  {
    hide Run, Holds, SliceOf, Next;
    RunJoin(s, steps, mid, Sweep);
    NextInv(mid, Sweep);
    SweepShape(mid);
    SweepFrame(mid);
    steps', last := steps + [Sweep], Next(mid, Sweep);
  }

  /** A segment that ends the stream and has reached the wire arrives, and its acknowledgment too. */
  lemma TailArrives(s: System, steps: seq<Step>, mid: System, x: Segment) returns (steps': seq<Step>, last: System)
    requires Run(s, steps, mid) && Inv(mid) && x in mid.flight && mid.window.first == mid.window.acked
    requires End(x) == 1 + |mid.stream| && |x.data| <= WINDOW_SIZE && !Idle(mid.queue)
    ensures Run(s, steps', last) && Inv(last)
    ensures last == mid.(sender := last.sender, window := last.window, acks := last.acks)
    ensures last.sender.size == mid.sender.size && last.sender.acked == last.window.acked == 1 + |mid.stream|
  {
    hide Holds, Run, Deliver, Reply;
    HoldsBounds(mid.window, mid.stream, 1);
    TailAcknowledged(mid, x);
    RunJoin(s, steps, mid, DataArrives(x));
    NextInv(mid, DataArrives(x));
    var arrived := Next(mid, DataArrives(x));
    InOrderHarmless(arrived, End(x));
    RunJoin(s, steps + [DataArrives(x)], arrived, AckArrives(End(x)));
    NextInv(arrived, AckArrives(End(x)));
    steps', last := steps + [DataArrives(x)] + [AckArrives(End(x))], Next(arrived, AckArrives(End(x)));
  }

  /** Unless wedged, the system can deliver the whole stream and empty the queue, and the sender task is
      then not on its way to sleep. */
  lemma Finish(s: System) returns (steps: seq<Step>, last: System)
    requires Inv(s) && !Wedged(s) && s.clock + 4 * RETRY_TICKS < FOREVER
    ensures Run(s, steps, last) && Inv(last)
    ensures last.delivered == last.stream == s.stream && Idle(last.queue)
    ensures last.sender.size == s.sender.size && !last.task.GoingToSleep? && last.clock <= s.clock + 3 * RETRY_TICKS
  {
    hide Run, Holds, SliceOf;
    RunNothing(s);
    steps, last := ReadAll(s, [], s);
    if !Idle(last.queue) {
      steps, last := RouseInv(s, steps, last);
      steps, last := SweepAll(s, steps, last);
    }
    if !Idle(last.queue) {
      steps, last := TailArrives(s, steps, last, last.queue[0].value.segment);
      steps, last := ReadAll(s, steps, last);
      steps, last := RouseInv(s, steps, last);
      steps, last := SweepAll(s, steps, last);
    }
    assert last.queue[0].None?;
    steps, last := Settle(s, steps, last);
    RunInv(s, steps, last);
    AllRead(last);
  }

  lemma RouseInv(s: System, steps: seq<Step>, mid: System) returns (steps': seq<Step>, last: System)
    requires Inv(s) && Run(s, steps, mid) && Inv(mid) && !Idle(mid.queue) && !Wedged(mid)
    requires mid.clock + 2 * RETRY_TICKS + 1 < FOREVER
    ensures Run(s, steps', last) && Inv(last) && last == mid.(task := Awake, clock := last.clock)
    ensures last.clock <= mid.clock + RETRY_TICKS + 1
  {
    hide Run, Holds, SliceOf;
    steps', last := Rouse(s, steps, mid);
    RunInv(s, steps', last);
  }

  lemma AllRead(s: System)
    requires Inv(s) && Idle(s.queue) && s.window.first == s.window.acked
    ensures s.delivered == s.stream
  {
  }

  /** The only way to get wedged is an enqueue that falls between the end of a sweep that found nothing
      to send and the sleep_until that follows it; and there is no way out. */
  lemma WedgeExactly(s: System, step: Step)
    requires Inv(s) && Enabled(s, step)
    ensures Wedged(Next(s, step)) <==> Wedged(s) || (step.Enqueue? && s.task.GoingToSleep?)
    ensures Wedged(s) ==> Next(s, step).queue == s.queue && Next(s, step).flight == s.flight
    ensures Wedged(s) ==> Next(s, step).stream == s.stream
  {
    hide Holds, SliceOf, Emitted, Swept, Deliver, AfterRead;
    if step.Sweep? {
      SweepShape(s);
    } else if step.Enqueue? {
      assert FirstFree(s.queue) == 0;
      assert Next(s, step).queue[0].Some?;
    } else {
      assert Next(s, step).queue == s.queue;
    }
  }

  lemma {:induction false} WedgedForever(s: System, steps: seq<Step>, last: System)
    requires Inv(s) && Wedged(s) && Run(s, steps, last)
    ensures Wedged(last) && last.queue == s.queue && last.flight == s.flight && last.stream == s.stream
    decreases steps
  {
    hide Inv, Enabled, Next, Wedged;
    if steps != [] {
      NextInv(s, steps[0]);
      WedgeExactly(s, steps[0]);
      WedgedForever(Next(s, steps[0]), steps[1..], last);
    }
  }

  /** Somewhere in the run a segment was enqueued between a sweep and the sleep_until after it. */
  ghost predicate Missed(s: System, steps: seq<Step>, last: System)
    requires Run(s, steps, last)
    decreases steps
  {
    steps != [] &&
    ((steps[0].Enqueue? && s.task.GoingToSleep?) || Missed(Next(s, steps[0]), steps[1..], last))
  }

  lemma {:induction false} WedgedIfMissed(s: System, steps: seq<Step>, last: System)
    requires Inv(s) && Run(s, steps, last)
    ensures Wedged(last) <==> Wedged(s) || Missed(s, steps, last)
    decreases steps
  {
    hide Inv, Enabled, Next, Wedged;
    if steps != [] {
      NextInv(s, steps[0]);
      WedgeExactly(s, steps[0]);
      WedgedIfMissed(Next(s, steps[0]), steps[1..], last);
    }
  }

  ghost predicate Finished(s: System) { s.delivered == s.stream && Idle(s.queue) }

  lemma CanFinishFrom(s: System)
    requires Inv(s) && s.clock + 4 * RETRY_TICKS < FOREVER
    ensures (exists steps, last :: Run(s, steps, last) && last.stream == s.stream && Finished(last)) <==> !Wedged(s)
  {
    hide Inv, Run;
    if Wedged(s) {
      forall steps, last | Run(s, steps, last)
        ensures !Finished(last)
      {
        WedgedForever(s, steps, last);
      }
    } else {
      var steps, last := Finish(s);
    }
  }

  /** After any run from a fresh connection, however much was lost, duplicated or taken in part, what has
      been enqueued can still be delivered and the queue emptied if and only if no segment was enqueued
      between the end of a sweep and the sleep_until that follows it. */
  lemma CanFinish(s: System, steps: seq<Step>, mid: System)
    requires Init(s) && Run(s, steps, mid) && mid.clock + 4 * RETRY_TICKS < FOREVER
    ensures (exists more, last :: Run(mid, more, last) && last.stream == mid.stream && Finished(last))
            <==> !Missed(s, steps, mid)
  {
    hide Inv, Run, Finished;
    InitInv(s);
    RunInv(s, steps, mid);
    assert !Wedged(s);
    WedgedIfMissed(s, steps, mid);
    CanFinishFrom(mid);
  }

  lemma NothingToSend(s: System)
    requires s.window.Valid() && Single(s.queue) && Idle(s.queue)
    ensures Idle(Next(s, Sweep).queue) && Single(Next(s, Sweep).queue)
    ensures Next(s, Sweep).task == GoingToSleep(FOREVER) && Next(s, Sweep).flight == s.flight
  {
    SweepShape(s);
  }

  /** It does happen, on a fresh connection: a sweep that finds nothing, an enqueue, and only then
      sleep_until.  By WedgedForever the segment never reaches the wire. */
  lemma WedgedRun(s: System, data: seq<byte>) returns (last: System)
    requires Init(s) && 0 < |data| <= s.sender.size
    ensures Run(s, [Sweep] + [Enqueue(data)] + [FallAsleep], last)
    ensures Inv(last) && Wedged(last) && last.stream == data && last.flight == {}
  {
    hide Run, Inv, Holds, SliceOf, Emitted, Swept, SweptSlot, Resent, Deliver, AfterRead;
    InitInv(s);
    RunNothing(s);
    RunJoin(s, [], s, Sweep);
    assert [] + [Sweep] == [Sweep];
    NothingToSend(s);
    SweepFrame(s);
    var swept := Next(s, Sweep);
    RunJoin(s, [Sweep], swept, Enqueue(data));
    var queued := Next(swept, Enqueue(data));
    RunJoin(s, [Sweep] + [Enqueue(data)], queued, FallAsleep);
    last := Next(queued, FallAsleep);
    RunInv(s, [Sweep] + [Enqueue(data)] + [FallAsleep], last);
    assert FirstFree(swept.queue) == 0;
    assert last.queue[0].Some?;
  }
}
