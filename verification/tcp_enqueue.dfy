/** Which enqueues are safe.  entry() stamps a segment with the send window's mark and never looks at what
    is still queued.  What matters is not that the queue is empty but that the mark stands at the end of
    the stream.  Here a segment may be enqueued whenever it does and a slot is free, and any acknowledgment
    may arrive that leaves the queued segments inside the send window, whether something is queued or
    not.  Every run of TcpSystem is one of these. */
module TcpEnqueue {
  import opened Bitmap
  import opened TcpWindow
  import TcpStream
  import opened TcpSender
  import Base = TcpSystem
  import opened TcpSystem
  import TcpAcks

  predicate AtEnd(s: System) { s.sender.acked == 1 + |s.stream| }

  /** What an enqueue asks for besides. */
  predicate Fitting(s: System, data: seq<byte>)
  {
    0 < |data| <= s.sender.size && |s.stream| + |data| + 2 * WINDOW_SIZE < U32_LIMIT
  }

  ghost predicate Enabled(s: System, step: Step)
  {
    match step
    case Enqueue(data) => AtEnd(s) && FirstFree(s.queue) < |s.queue| && Fitting(s, data)
    case AckArrives(number) => number in s.acks && AllFit(s.queue, s.sender.(acked := number))
    case _ => Base.Enabled(s, step)
  }

  /** The queue holds segments of the stream that fit, and the last one while the peer lacks part of it. */
  ghost predicate Queued(s: System)
  {
    && |s.queue| == MAX_QUEUE && AllFit(s.queue, s.sender)
    && (forall i :: 0 <= i < |s.queue| && s.queue[i].Some? ==> Carried(s, s.queue[i].value))
    && (s.window.acked < 1 + |s.stream| ==> exists i :: 0 <= i < |s.queue| && IsTail(s, s.queue[i]))
  }

  ghost predicate Carried(s: System, e: Entry)
  {
    && e.port == PORT && TcpStream.SliceOf(e.segment, s.stream, 1)
    && 0 < |e.segment.data| && e.segment.seqNo <= s.window.acked
  }

  predicate IsTail(s: System, slot: Option<Entry>) { slot.Some? && End(slot.value.segment) == 1 + |s.stream| }

  /** The peer's side, and the clocks. */
  ghost predicate Received(s: System)
  {
    && s.window.Valid() && TcpStream.Holds(s.window, s.stream, 1)
    && s.delivered == s.stream[..s.window.first - 1]
    && s.sender.size <= WINDOW_SIZE && |s.stream| + 2 * WINDOW_SIZE < U32_LIMIT
    && 1 <= s.sender.acked <= s.window.acked
    && (forall number :: number in s.acks ==> 1 <= number <= s.window.acked)
    && (forall x :: x in s.flight ==> TcpStream.SliceOf(x, s.stream, 1) && x.seqNo <= s.window.acked && 0 < |x.data|)
    && 0 < s.clock && s.clock + RETRY_TICKS < FOREVER
    && (s.task.Awake? || s.task.until == FOREVER || s.task.until <= s.clock + RETRY_TICKS)
  }

  ghost predicate Inv(s: System) { Received(s) && Queued(s) }

  lemma SweepQueue(s: System)
    requires Inv(s)
    ensures var s', windows := Next(s, Sweep), map[PORT := s.sender];
      && s' == s.(queue := s'.queue, flight := s'.flight, task := s'.task) && |s'.queue| == |s.queue|
      && (forall i :: 0 <= i < |s.queue| ==> s'.queue[i] == SweptSlot(s.queue[i], windows, s.clock))
      && (forall x :: x in s'.flight && x !in s.flight ==>
            exists i :: 0 <= i < |s.queue| && Resent(s.queue[i], windows, s.clock) && s.queue[i].value.segment == x)
      && (forall i :: 0 <= i < |s.queue| && Resent(s.queue[i], windows, s.clock) ==> s.queue[i].value.segment in s'.flight)
      && s'.task.GoingToSleep? && (s'.task.until == FOREVER || s'.task.until == RETRY_TICKS + s.clock)
  {
    hide SweptSlot;
    var windows := map[PORT := s.sender];
    forall x
      ensures x in Emitted(s.queue, windows, s.clock) <==>
        exists i :: 0 <= i < |s.queue| && Resent(s.queue[i], windows, s.clock) && s.queue[i].value.segment == x
    {
      EmittedExactly(s.queue, windows, s.clock, x);
    }
  }

  lemma SweepInv(s: System)
    requires Inv(s)
    ensures Inv(Next(s, Sweep))
  {
    hide Next, TcpStream.Holds, TcpStream.SliceOf;
    SweepQueue(s);
    var s', windows := Next(s, Sweep), map[PORT := s.sender];
    if s.window.acked < 1 + |s.stream| {
      var i :| 0 <= i < |s.queue| && IsTail(s, s.queue[i]);
      assert IsTail(s', s'.queue[i]);
    }
  }

  lemma EnqueueInv(s: System, data: seq<byte>)
    requires Inv(s) && Enabled(s, Enqueue(data))
    ensures Inv(Next(s, Enqueue(data)))
  {
    hide TcpStream.Holds, TcpStream.SliceOf;
    var s' := Next(s, Enqueue(data));
    TcpStream.HoldsGrows(s.window, s.stream, data, 1);
    TcpStream.HoldsBounds(s.window, s.stream, 1);
    EnqueuedSlice(s.stream, data);
    forall x | TcpStream.SliceOf(x, s.stream, 1)
      ensures TcpStream.SliceOf(x, s'.stream, 1)
    {
      SliceGrows(x, s.stream, data);
    }
    assert IsTail(s', s'.queue[FirstFree(s.queue)]);
    assert s.stream[..s.window.first - 1] == s'.stream[..s.window.first - 1];
  }

  lemma ArrivesInv(s: System, x: Segment)
    requires Inv(s) && x in s.flight
    ensures Inv(Next(s, DataArrives(x)))
  {
    hide TcpStream.Holds, TcpStream.SliceOf, Deliver, Queued;
    TcpStream.DeliverHolds(s.window, x, s.stream, 1);
    DeliverValid(s.window, x);
    RepliesKnown(s.window, x);
    AllFitNow(s);
    QueuedStays(s, Next(s, DataArrives(x)));
  }

  /** The queue's part of the invariant survives any step that leaves the queue alone. */
  lemma QueuedStays(s: System, s': System)
    requires Queued(s) && s'.stream == s.stream && s'.queue == s.queue && s.window.acked <= s'.window.acked
    requires AllFit(s.queue, s'.sender)
    ensures Queued(s')
  {
    hide TcpStream.SliceOf;
    assert forall i :: 0 <= i < |s.queue| && s.queue[i].Some? ==> Carried(s, s.queue[i].value);
    if s'.window.acked < 1 + |s.stream| {
      var i :| 0 <= i < |s.queue| && IsTail(s, s.queue[i]);
      assert IsTail(s', s'.queue[i]);
    }
  }

  lemma NextInv(s: System, step: Step)
    requires Inv(s) && Enabled(s, step)
    ensures Inv(Next(s, step))
  {
    hide TcpStream.Holds, TcpStream.SliceOf, Deliver, AfterRead, ReadBytes, Emitted, Swept, Queued, AllFit, Carried, IsTail;
    assert AllFit(s.queue, s.sender) by { AllFitNow(s); }
    match step
    case Enqueue(data) => EnqueueInv(s, data);
    case Sweep => SweepInv(s);
    case DataArrives(x) => ArrivesInv(s, x);
    case PeerReads(size) =>
      PeerReadsReceived(s, size);
      QueuedStays(s, Next(s, step));
    case _ => QueuedStays(s, Next(s, step));
  }

  lemma AllFitNow(s: System)
    requires Queued(s)
    ensures AllFit(s.queue, s.sender)
  {
  }

  lemma RepliesKnown(w: Window, x: Segment)
    requires w.Valid() && 1 <= w.acked
    ensures Reply(w, x).Some? ==> 1 <= Reply(w, x).value <= Deliver(w, x).acked
  {
  }

  lemma PeerReadsReceived(s: System, size: nat)
    requires Received(s)
    ensures Received(Next(s, PeerReads(size))) && Next(s, PeerReads(size)).window.acked == s.window.acked
  {
    hide TcpStream.Holds, TcpStream.SliceOf, AfterRead, ReadBytes;
    TcpStream.ReadHolds(s.window, size, s.stream, 1);
    AfterReadValid(s.window, size);
    var w' := AfterRead(s.window, size);
    TcpStream.HoldsBounds(s.window, s.stream, 1);
    TcpStream.HoldsBounds(w', s.stream, 1);
    assert s.stream[..w'.first - 1] == s.stream[..s.window.first - 1] + s.stream[s.window.first - 1..w'.first - 1];
  }

  // ---------- Whole runs ----------

  ghost predicate Run(s: System, steps: seq<Step>, last: System)
    decreases steps
  {
    if steps == [] then s == last
    else s.window.Valid() && Enabled(s, steps[0]) && Run(Next(s, steps[0]), steps[1..], last)
  }

  lemma {:induction false} RunInv(s: System, steps: seq<Step>, last: System)
    requires Inv(s) && Run(s, steps, last)
    ensures Inv(last)
    decreases steps
  {
    hide Inv, Enabled, Next;
    if steps != [] {
      NextInv(s, steps[0]);
      RunInv(Next(s, steps[0]), steps[1..], last);
    }
  }

  ghost predicate Safe(s: System)
  {
    forall steps, last :: Run(s, steps, last) ==> Intact(last)
  }

  lemma InvSafe(s: System)
    requires Inv(s)
    ensures Safe(s)
  {
    hide TcpStream.SliceOf;
    forall steps, last | Run(s, steps, last)
      ensures Intact(last)
    {
      RunInv(s, steps, last);
    }
  }

  lemma InitInv(s: System)
    requires Init(s)
    ensures Inv(s)
  {
  }

  /** End-to-end safety, for every run from a fresh connection in which segments are enqueued only while
      the send window's mark stands at the end of the stream. */
  lemma StreamSafety(s: System, steps: seq<Step>, last: System)
    requires Init(s) && Run(s, steps, last)
    ensures last.delivered <= last.stream
    ensures AllFit(last.queue, last.sender)
    ensures forall x :: x in last.flight ==> x.seqNo <= last.window.acked && TcpStream.SliceOf(x, last.stream, 1)
  {
    hide TcpStream.SliceOf;
    InitInv(s);
    RunInv(s, steps, last);
  }

  /** An idle sender's mark stands at the end of the stream, so that every run of TcpSystem is a run here. */
  lemma {:induction false} CoversIdleRule(s: System, steps: seq<Step>, last: System)
    requires Base.Inv(s) && Base.Run(s, steps, last)
    ensures Run(s, steps, last)
    decreases steps
  {
    hide TcpStream.Holds, TcpStream.SliceOf, Next;
    if steps != [] {
      Base.NextInv(s, steps[0]);
      if steps[0].Enqueue? {
        assert FirstFree(s.queue) == 0;
      }
      CoversIdleRule(Next(s, steps[0]), steps[1..], last);
    }
  }

  // ---------- What a misplaced stamp costs ----------

  lemma {:induction false} StreamGrows(s: System, steps: seq<Step>, last: System)
    requires Base.Run(s, steps, last)
    ensures |s.stream| <= |last.stream|
    decreases steps
  {
    if steps != [] {
      StreamGrows(Next(s, steps[0]), steps[1..], last);
    }
  }

  /** A run of TcpSystem that enqueues nothing is a run here, from any state. */
  lemma {:induction false} NothingEnqueued(s: System, steps: seq<Step>, last: System)
    requires Base.Run(s, steps, last) && last.stream == s.stream
    ensures Run(s, steps, last)
    decreases steps
  {
    if steps != [] {
      StreamGrows(Next(s, steps[0]), steps[1..], last);
      NothingEnqueued(Next(s, steps[0]), steps[1..], last);
    }
  }

  lemma HoldsPrefix(w: Window, stream: seq<byte>)
    requires TcpStream.Holds(w, stream, 1)
    ensures 1 <= w.acked <= 1 + |stream| && TcpStream.Holds(w, stream[..w.acked - 1], 1)
  {
  }

  /** Of a segment that reaches one position past its mark the peer takes the last byte only. */
  lemma LastByteTaken(w: Window, x: Segment)
    requires w.Valid() && w.first == w.acked && x.seqNo <= w.acked && End(x) == w.acked + 1
    ensures Deliver(w, x) == Deliver(w, Segment(w.acked, [x.data[|x.data| - 1]]))
  {
    var y := Segment(w.acked, [x.data[|x.data| - 1]]);
    assert From(w, x) == From(w, y) == w.acked && To(w, x) == To(w, y) == w.acked + 1;
    assert Deliver(w, x).ring == Deliver(w, y).ring;
  }

  /** The bytes to enqueue for harm: filler the peer drops, and one byte that is not the stream's. */
  function Wrong(s: System): seq<byte>
    requires 1 <= s.sender.acked <= s.window.acked <= 1 + |s.stream|
  {
    var z := if s.window.acked <= |s.stream| && s.stream[s.window.acked - 1] != 0 then 0 else 1;
    seq(s.window.acked - s.sender.acked, _ => 0) + [z]
  }

  /** The misplaced segment is put on the wire, and the peer's window is empty. */
  lemma MisplacedSent(s: System) returns (steps: seq<Step>, last: System)
    requires Inv(s) && FirstFree(s.queue) < |s.queue| && s.task != GoingToSleep(FOREVER)
    requires 1 <= s.window.acked <= 1 + |s.stream| && |s.stream| + 3 * WINDOW_SIZE < U32_LIMIT
    requires s.window.acked - s.sender.acked < s.sender.size && s.clock + 3 * RETRY_TICKS < FOREVER
    ensures var start := Next(s, Enqueue(Wrong(s)));
      && Base.Run(start, steps, last) && last.stream == start.stream
      && last.window == AfterRead(s.window, WINDOW_SIZE + 2)
      && last.delivered == s.delivered + ReadBytes(s.window, WINDOW_SIZE + 2)
      && Segment(s.sender.acked, Wrong(s)) in last.flight
  {
    hide Base.Run, TcpStream.Holds, TcpStream.SliceOf, AfterRead, ReadBytes, Emitted, Swept, Wrong;
    var slot, data, start := FirstFree(s.queue), Wrong(s), Next(s, Enqueue(Wrong(s)));
    var x := Segment(s.sender.acked, data);
    assert 0 < |data| <= WINDOW_SIZE + 1 by { WrongSize(s); }
    assert start.queue[slot] == Some(Entry(PORT, x, 0));
    var read := PeerReads(WINDOW_SIZE + 2);
    RunNothing(start);
    RunJoin(start, [], start, read);
    AfterReadValid(s.window, WINDOW_SIZE + 2);
    steps, last := Rouse(start, [] + [read], Next(start, read));
    RunJoin(start, steps, last, Sweep);
    SweepFrame(last);
    assert Resent(last.queue[slot], map[PORT := last.sender], last.clock);
    EmittedExactly(last.queue, map[PORT := last.sender], last.clock, x);
    steps, last := steps + [Sweep], Next(last, Sweep);
  }

  lemma WrongSize(s: System)
    requires 1 <= s.sender.acked <= s.window.acked <= 1 + |s.stream|
    ensures |Wrong(s)| == s.window.acked - s.sender.acked + 1
    ensures (s.stream + Wrong(s))[s.window.acked - 1] != Wrong(s)[|Wrong(s)| - 1] ||
            s.sender.acked == s.window.acked == 1 + |s.stream|
  {
  }

  /** A segment stamped below the end of the stream, when the peer would still take its last byte. */
  lemma MisplacedCorrupts(s: System) returns (steps: seq<Step>, last: System)
    requires Inv(s) && !AtEnd(s) && FirstFree(s.queue) < |s.queue| && s.task != GoingToSleep(FOREVER)
    requires s.window.acked - s.sender.acked < s.sender.size
    requires |s.stream| + 3 * WINDOW_SIZE < U32_LIMIT && s.clock + 3 * RETRY_TICKS < FOREVER
    ensures 1 <= s.sender.acked <= s.window.acked <= 1 + |s.stream|
    ensures Base.Run(Next(s, Enqueue(Wrong(s))), steps, last)
    ensures last.stream == s.stream + Wrong(s) && !(last.delivered <= last.stream)
  {
    hide Base.Run, TcpStream.Holds, TcpStream.SliceOf, Deliver, AfterRead, ReadBytes, Emitted, Swept, Queued, Wrong;
    TcpStream.HoldsBounds(s.window, s.stream, 1);
    var data, at := Wrong(s), s.window.acked - 1;
    WrongSize(s);
    var z, x, start := data[|data| - 1], Segment(s.sender.acked, data), Next(s, Enqueue(data));
    var read := PeerReads(WINDOW_SIZE + 2);
    steps, last := MisplacedSent(s);
    PeerReadsReceived(s, WINDOW_SIZE + 2);
    TcpAcks.EmptiesWindow(s.window);
    HoldsPrefix(last.window, s.stream);
    LastByteTaken(last.window, x);
    TcpAcks.Misread(last.window, s.stream[..at], z);
    RunJoin(start, steps, last, DataArrives(x));
    steps, last := steps + [DataArrives(x)], Next(last, DataArrives(x));
    RunJoin(start, steps, last, read);
    steps, last := steps + [read], Next(last, read);
    assert last.delivered[at] == z;
  }

  /** A sender that sleeps for good, with part of the stream that the peer will never get. */
  ghost predicate Adrift(s: System, sent: seq<byte>)
  {
    && sent < s.stream && !s.task.Awake? && s.task.until == FOREVER && s.clock < FOREVER
    && s.window.Valid() && TcpStream.Holds(s.window, sent, 1) && s.delivered == sent[..s.window.first - 1]
    && s.sender.acked <= s.window.acked
    && (forall number :: number in s.acks ==> number <= s.window.acked)
    && (forall x :: x in s.flight ==> TcpStream.SliceOf(x, sent, 1) && x.seqNo <= s.window.acked)
  }

  lemma {:induction false} AdriftSafe(s: System, sent: seq<byte>, steps: seq<Step>, last: System)
    requires Adrift(s, sent) && Run(s, steps, last)
    ensures Intact(last)
    decreases steps
  {
    hide Enabled, Next;
    if steps != [] {
      AdriftStep(s, sent, steps[0]);
      AdriftSafe(Next(s, steps[0]), sent, steps[1..], last);
    }
  }

  lemma AdriftStep(s: System, sent: seq<byte>, step: Step)
    requires Adrift(s, sent) && Enabled(s, step)
    ensures Adrift(Next(s, step), sent)
  {
    hide TcpStream.Holds, TcpStream.SliceOf, Deliver, AfterRead, ReadBytes, Emitted, Swept;
    TcpStream.HoldsBounds(s.window, sent, 1);
    match step
    case DataArrives(x) =>
      TcpStream.DeliverHolds(s.window, x, sent, 1);
      DeliverValid(s.window, x);
      ReplyBound(s.window, x);
    case PeerReads(size) => ReadsOn(s, sent, size);
    case _ =>
  }

  lemma ReplyBound(w: Window, x: Segment)
    requires w.Valid()
    ensures Reply(w, x).Some? ==> Reply(w, x).value <= Deliver(w, x).acked
  {
  }

  lemma ReadsOn(s: System, sent: seq<byte>, size: nat)
    requires s.window.Valid() && TcpStream.Holds(s.window, sent, 1) && 1 <= s.window.first <= 1 + |sent|
    requires s.delivered == sent[..s.window.first - 1]
    ensures var s' := Next(s, PeerReads(size));
      && s'.window.Valid() && TcpStream.Holds(s'.window, sent, 1) && s'.window.acked == s.window.acked
      && 1 <= s'.window.first <= 1 + |sent| && s'.delivered == sent[..s'.window.first - 1]
  {
    hide TcpStream.Holds, TcpStream.SliceOf, AfterRead, ReadBytes;
    TcpStream.ReadHolds(s.window, size, sent, 1);
    AfterReadValid(s.window, size);
    var w' := AfterRead(s.window, size);
    TcpStream.HoldsBounds(w', sent, 1);
    assert sent[..w'.first - 1] == sent[..s.window.first - 1] + sent[s.window.first - 1..w'.first - 1];
  }

  /** A peer that has all it was sent, and a sender all of whose segments lie below the peer's mark. */
  ghost predicate Spent(s: System, sent: seq<byte>)
  {
    && sent < s.stream
    && s.window.Valid() && TcpStream.Holds(s.window, sent, 1) && s.delivered == sent[..s.window.first - 1]
    && s.sender.acked <= s.window.acked == 1 + |sent|
    && (forall number :: number in s.acks ==> number <= s.window.acked)
    && AllFit(s.queue, s.sender)
    && (forall i :: 0 <= i < |s.queue| && s.queue[i].Some? ==> Below(s, s.queue[i].value.segment))
    && (forall x :: x in s.flight ==> Below(s, x))
  }

  predicate Below(s: System, x: Segment) { 0 < |x.data| && End(x) <= s.window.acked }

  lemma SpentStep(s: System, sent: seq<byte>, step: Step)
    requires Spent(s, sent) && Enabled(s, step)
    ensures Spent(Next(s, step), sent)
  {
    hide TcpStream.Holds, TcpStream.SliceOf, Deliver, AfterRead, ReadBytes;
    TcpStream.HoldsBounds(s.window, sent, 1);
    match step
    case Sweep => SpentSweep(s, sent);
    case DataArrives(x) =>
      TcpStream.DeliverMark(s.window, x);
      ReplyBound(s.window, x);
    case PeerReads(size) => ReadsOn(s, sent, size);
    case _ =>
  }

  lemma SpentSweep(s: System, sent: seq<byte>)
    requires Spent(s, sent)
    ensures Spent(Next(s, Sweep), sent)
  {
    hide TcpStream.Holds;
    var s', windows := Next(s, Sweep), map[PORT := s.sender];
    forall x | x in Emitted(s.queue, windows, s.clock)
      ensures Below(s, x)
    {
      EmittedExactly(s.queue, windows, s.clock, x);
    }
    assert forall i :: 0 <= i < |s.queue| ==> s'.queue[i] == SweptSlot(s.queue[i], windows, s.clock);
  }

  lemma {:induction false} SpentSafe(s: System, sent: seq<byte>, steps: seq<Step>, last: System)
    requires Spent(s, sent) && Run(s, steps, last)
    ensures Intact(last)
    decreases steps
  {
    hide Enabled, Next, TcpStream.Holds;
    TcpStream.HoldsBounds(s.window, sent, 1);
    if steps != [] {
      SpentStep(s, sent, steps[0]);
      SpentSafe(Next(s, steps[0]), sent, steps[1..], last);
    }
  }

  /** While the peer lacks something, the end of the stream lies inside the send window. */
  lemma TailInside(s: System)
    requires Queued(s) && s.window.acked < 1 + |s.stream|
    ensures 1 + |s.stream| <= s.sender.acked + s.sender.size
  {
    var i :| 0 <= i < |s.queue| && IsTail(s, s.queue[i]);
  }

  /** Where the bytes are not misread: the sender sleeps for good, or they all lie below the peer's mark. */
  lemma MisplacedHarmless(s: System, data: seq<byte>)
    requires Inv(s) && FirstFree(s.queue) < |s.queue| && Fitting(s, data)
    requires s.task == GoingToSleep(FOREVER) || s.window.acked - s.sender.acked >= s.sender.size
    ensures Safe(Next(s, Enqueue(data)))
  {
    hide TcpStream.Holds, Run, Intact;
    TcpStream.HoldsBounds(s.window, s.stream, 1);
    var after := Next(s, Enqueue(data));
    forall steps, last | Run(after, steps, last)
      ensures Intact(last)
    {
      if s.task == GoingToSleep(FOREVER) {
        AdriftSafe(after, s.stream, steps, last);
      } else {
        if s.window.acked < 1 + |s.stream| {
          TailInside(s);
        }
        assert forall i :: 0 <= i < |s.queue| && s.queue[i].Some? ==> Carried(s, s.queue[i].value);
        SpentSafe(after, s.stream, steps, last);
      }
    }
  }

  /** The rule on stamps is exact.  Whatever fitting data is enqueued, every later run is safe, if and only
      if the mark stands at the end of the stream; or the sender is about to sleep for good; or the peer's
      mark is so far ahead that it has everything the new segment's numbers can reach, and drops it. */
  lemma EnqueueExactly(s: System)
    requires Inv(s) && FirstFree(s.queue) < |s.queue|
    requires |s.stream| + 3 * WINDOW_SIZE < U32_LIMIT && s.clock + 3 * RETRY_TICKS < FOREVER
    ensures (forall data :: Fitting(s, data) ==> Safe(Next(s, Enqueue(data)))) <==>
      AtEnd(s) || s.task == GoingToSleep(FOREVER) || s.window.acked - s.sender.acked >= s.sender.size
  {
    hide TcpStream.Holds, TcpStream.SliceOf, Run;
    if AtEnd(s) || s.task == GoingToSleep(FOREVER) || s.window.acked - s.sender.acked >= s.sender.size {
      forall data | Fitting(s, data)
        ensures Safe(Next(s, Enqueue(data)))
      {
        if AtEnd(s) {
          NextInv(s, Enqueue(data));
          InvSafe(Next(s, Enqueue(data)));
        } else {
          MisplacedHarmless(s, data);
        }
      }
    } else {
      var steps, last := MisplacedCorrupts(s);
      NothingEnqueued(Next(s, Enqueue(Wrong(s))), steps, last);
      assert Fitting(s, Wrong(s)) && !Intact(last);
    }
  }
}
