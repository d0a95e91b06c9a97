/** Which acknowledgments are safe.  An acknowledgment overwrites the send mark unconditionally, so a
    late one can move it back.  Here is exactly when that does harm: when it makes a queued segment
    reach past the send window and a sweep is still to come, which then takes the splitting branch; or
    when nothing is queued, and the next bytes are sent under numbers the peer already has. */
module TcpAcks {
  import opened Bitmap
  import opened TcpWindow
  import TcpStream
  import opened TcpSender
  import opened TcpSystem

  /** An idle sender that takes an older acknowledgment stamps its next segment with sequence numbers
      the peer already has, and puts it on the wire. */
  lemma StaleSegmentSent(s: System, number: nat, data: seq<byte>) returns (steps: seq<Step>, last: System)
    requires Inv(s) && Idle(s.queue) && number in s.acks && 0 < |data| && Enabled(s, Enqueue(data))
    ensures var x, start := Segment(number, data), Next(s, AckArrives(number));
      && Run(start, steps, last) && x in last.flight
      && last == start.(stream := s.stream + data, queue := last.queue, flight := last.flight,
                        task := GoingToSleep(RETRY_TICKS + s.clock))
      && Single(last.queue) && last.queue[0] == Some(Entry(PORT, x, RETRY_TICKS + s.clock))
  {
    hide Run, TcpStream.Holds, TcpStream.SliceOf;
    var start := Next(s, AckArrives(number));
    RunNothing(start);
    assert s.queue[0].None?;
    steps, last := Settle(start, [], start);
    RunJoin(start, steps, last, Enqueue(data));
    assert FirstFree(s.queue) == 0;
    steps, last := steps + [Enqueue(data)], Next(last, Enqueue(data));
    assert last.queue[0] == Some(Entry(PORT, Segment(number, data), 0));
    RunJoin(start, steps, last, Sweep);
    SweepShape(last);
    SweepFrame(last);
    steps, last := steps + [Sweep], Next(last, Sweep);
  }

  /** There is then a run in which the peer acknowledges that segment without storing it and the sender
      drops it: the bytes are in no queue and no window, so they are lost. */
  lemma StaleAckLosesBytes(s: System, number: nat, data: seq<byte>) returns (steps: seq<Step>, last: System)
    requires Inv(s) && Idle(s.queue) && number in s.acks && Enabled(s, Enqueue(data))
    requires 0 < |data| <= s.window.acked - number
    requires s.clock + 3 * RETRY_TICKS < FOREVER
    ensures Run(Next(s, AckArrives(number)), steps, last)
    ensures last.stream == s.stream + data && Single(last.queue) && Idle(last.queue)
    ensures last.window == s.window && last.delivered == s.delivered
    ensures last.sender == SendWindow(s.window.acked, s.sender.size) && s.window.acked == 1 + |s.stream|
    ensures last.task == GoingToSleep(FOREVER) && 0 < last.clock <= s.clock + 2 * RETRY_TICKS
  {
    hide Run, TcpStream.Holds, TcpStream.SliceOf, Deliver;
    TcpStream.HoldsBounds(s.window, s.stream, 1);
    assert s.queue[0].None?;
    var x, start := Segment(number, data), Next(s, AckArrives(number));
    steps, last := StaleSegmentSent(s, number, data);
    assert Classify(s.window, x) == Duplicate;
    RunJoin(start, steps, last, DataArrives(x));
    DuplicateIgnored(last, x);
    steps, last := steps + [DataArrives(x)], Next(last, DataArrives(x));
    RunJoin(start, steps, last, AckArrives(s.window.acked));
    steps, last := steps + [AckArrives(s.window.acked)], Next(last, AckArrives(s.window.acked));
    steps, last := Rouse(start, steps, last);
    RunJoin(start, steps, last, Sweep);
    SweepShape(last);
    SweepFrame(last);
    steps, last := steps + [Sweep], Next(last, Sweep);
  }

  lemma DuplicateIgnored(s: System, x: Segment)
    requires s.window.Valid() && Classify(s.window, x) == Duplicate
    ensures Next(s, DataArrives(x)) == s.(acks := s.acks + {s.window.acked})
  {
  }

  /** The peer takes a byte that continues what it has received, whatever the sender meant by it. */
  lemma Misread(w: Window, received: seq<byte>, b: byte)
    requires TcpStream.Holds(w, received, 1) && w.first == w.acked == 1 + |received|
    ensures var w' := Deliver(w, Segment(w.acked, [b])); w'.Valid() && ReadBytes(w', WINDOW_SIZE + 2) == [b]
  {
    hide TcpStream.Holds, ReadBytes;
    var x, stream := Segment(w.acked, [b]), received + [b];
    TcpStream.HoldsGrows(w, received, [b], 1);
    TcpStream.HoldsBounds(w, received, 1);
    assert TcpStream.SliceOf(x, stream, 1);
    TcpStream.DeliverHolds(w, x, stream, 1);
    TcpStream.HoldsBounds(Deliver(w, x), stream, 1);
    TcpStream.ReadHolds(Deliver(w, x), WINDOW_SIZE + 2, stream, 1);
  }

  /** A sender that has lost a byte sends the one after it in its place; the peer reads it as such. */
  lemma LostByteCorrupts(s: System, received: seq<byte>, lost: byte, b: byte) returns (steps: seq<Step>, last: System)
    requires TcpStream.Holds(s.window, received, 1) && s.window.first == s.window.acked == 1 + |received|
    requires s.stream == received + [lost] && s.delivered == received && lost != b
    requires Single(s.queue) && Idle(s.queue) && s.task == GoingToSleep(FOREVER) && 0 < s.clock < FOREVER
    requires s.sender.acked == s.window.acked && 0 < s.sender.size && |s.stream| + 1 + 2 * WINDOW_SIZE < U32_LIMIT
    ensures Run(s, steps, last) && !(last.delivered <= last.stream)
  {
    hide Run, TcpStream.Holds, TcpStream.SliceOf, Deliver, ReadBytes, AfterRead;
    TcpStream.HoldsBounds(s.window, received, 1);
    RunNothing(s);
    steps, last := Settle(s, [], s);
    RunJoin(s, steps, last, Enqueue([b]));
    assert FirstFree(s.queue) == 0;
    steps, last := steps + [Enqueue([b])], Next(last, Enqueue([b]));
    var x := Segment(s.window.acked, [b]);
    assert last.queue[0] == Some(Entry(PORT, x, 0));
    RunJoin(s, steps, last, Sweep);
    SweepShape(last);
    SweepFrame(last);
    steps, last := steps + [Sweep], Next(last, Sweep);
    RunJoin(s, steps, last, DataArrives(x));
    steps, last := steps + [DataArrives(x)], Next(last, DataArrives(x));
    Misread(s.window, received, b);
    var read := PeerReads(WINDOW_SIZE + 2);
    RunJoin(s, steps, last, read);
    steps, last := steps + [read], Next(last, read);
    assert last.delivered[|received|] == b && last.stream[|received|] == lost;
  }

  /** So a stale acknowledgment to an idle sender can make the peer read what was never sent. */
  lemma StaleAckCorrupts(s: System, number: nat) returns (steps: seq<Step>, last: System)
    requires Inv(s) && Idle(s.queue) && number in s.acks && number != s.sender.acked
    requires |s.stream| + 2 + 2 * WINDOW_SIZE < U32_LIMIT && s.clock + 3 * RETRY_TICKS < FOREVER
    ensures Run(Next(s, AckArrives(number)), steps, last) && !(last.delivered <= last.stream)
  {
    hide Run, TcpStream.Holds, TcpStream.SliceOf, Deliver, ReadBytes, AfterRead;
    TcpStream.HoldsBounds(s.window, s.stream, 1);
    assert s.queue[0].None?;
    var start, read := Next(s, AckArrives(number)), PeerReads(WINDOW_SIZE + 2);
    var emptied := Next(s, read);
    NextInv(s, read);
    EmptiesWindow(s.window);
    AllRead(emptied);
    RunNothing(start);
    RunJoin(start, [], start, read);
    var lostSteps, lost := StaleAckLosesBytes(emptied, number, [0]);
    assert Next(start, read) == Next(emptied, AckArrives(number));
    RunConcat(start, [] + [read], Next(start, read), lostSteps, lost);
    var moreSteps;
    moreSteps, last := LostByteCorrupts(lost, s.stream, 0, 1);
    RunConcat(start, [] + [read] + lostSteps, lost, moreSteps, last);
    steps := [] + [read] + lostSteps + moreSteps;
  }

  lemma EmptiesWindow(w: Window)
    requires w.Valid()
    ensures AfterRead(w, WINDOW_SIZE + 2).first == AfterRead(w, WINDOW_SIZE + 2).acked == w.acked
  {
  }

  /** An acknowledgment that leaves a queued segment reaching past the send window makes a sweep split
      it, at the latest when the segment's deadline has passed, unless the sender sleeps for good. */
  lemma StaleAckSplits(s: System, number: nat) returns (steps: seq<Step>, last: System)
    requires Inv(s) && number in s.acks && !AllFit(s.queue, s.sender.(acked := number)) && !Wedged(s)
    requires s.clock + 3 * RETRY_TICKS < FOREVER
    ensures Run(Next(s, AckArrives(number)), steps, last) && SplitsNext(last)
  {
    hide Run, TcpStream.Holds, TcpStream.SliceOf;
    var after := Next(s, AckArrives(number));
    RunNothing(after);
    steps, last := Rouse(after, [], after);
    assert Resent(last.queue[0], map[PORT := last.sender], last.clock) && !Fits(last.queue[0].value, last.sender);
  }

  /** What stays true of a sender that sleeps for good, wherever its mark is. */
  ghost predicate Stuck(s: System)
  {
    && Wedged(s) && s.clock < FOREVER
    && s.window.Valid() && TcpStream.Holds(s.window, s.stream, 1)
    && s.delivered == s.stream[..s.window.first - 1]
    && forall x :: x in s.flight ==> TcpStream.SliceOf(x, s.stream, 1) && x.seqNo <= s.window.acked
  }

  lemma StuckStep(s: System, step: Step)
    requires Stuck(s) && Enabled(s, step)
    ensures Stuck(Next(s, step))
  {
    hide TcpStream.Holds, TcpStream.SliceOf, Deliver, AfterRead, ReadBytes, Emitted, Swept;
    TcpStream.HoldsBounds(s.window, s.stream, 1);
    match step
    case DataArrives(x) =>
      TcpStream.DeliverHolds(s.window, x, s.stream, 1);
      DeliverValid(s.window, x);
    case PeerReads(size) =>
      TcpStream.ReadHolds(s.window, size, s.stream, 1);
      AfterReadValid(s.window, size);
      var w' := AfterRead(s.window, size);
      TcpStream.HoldsBounds(w', s.stream, 1);
      assert s.stream[..w'.first - 1] == s.stream[..s.window.first - 1] + s.stream[s.window.first - 1..w'.first - 1];
    case _ =>
  }

  lemma {:induction false} StuckSafe(s: System, steps: seq<Step>, last: System)
    requires Stuck(s) && Run(s, steps, last)
    ensures Intact(last)
    decreases steps
  {
    hide Enabled, Next;
    if steps != [] {
      StuckStep(s, steps[0]);
      StuckSafe(Next(s, steps[0]), steps[1..], last);
    }
  }

  /** The condition is exact.  Taking an acknowledgment leaves every later run safe, the peer reading the
      stream and no sweep splitting a segment, if and only if it leaves every queued segment inside the
      send window and does not move the mark of an idle sender, or the sender sleeps for good anyway. */
  lemma AckExactly(s: System, number: nat)
    requires Inv(s) && number in s.acks
    requires |s.stream| + 2 + 2 * WINDOW_SIZE < U32_LIMIT && s.clock + 3 * RETRY_TICKS < FOREVER
    ensures Safe(Next(s, AckArrives(number))) <==> Harmless(s, number) || Wedged(s)
  {
    hide Run, TcpStream.Holds, TcpStream.SliceOf;
    var after := Next(s, AckArrives(number));
    if Harmless(s, number) {
      NextInv(s, AckArrives(number));
      InvSafe(after);
    } else if Wedged(s) {
      assert Stuck(after);
      forall steps, last | Run(after, steps, last)
        ensures Intact(last)
      {
        StuckSafe(after, steps, last);
      }
    } else if AllFit(s.queue, s.sender.(acked := number)) {
      var steps, last := StaleAckCorrupts(s, number);
      assert !Intact(last);
    } else {
      var steps, last := StaleAckSplits(s, number);
      assert !Intact(last);
    }
  }

  // ---------- Both kinds of harm can be reached ----------

  lemma {:induction false} AcksKept(s: System, steps: seq<Step>, last: System)
    requires Run(s, steps, last)
    ensures s.acks <= last.acks
    decreases steps
  {
    if steps != [] {
      AcksKept(Next(s, steps[0]), steps[1..], last);
    }
  }

  /** From a state at rest, one more byte is enqueued, delivered and acknowledged. */
  lemma OneByte(s: System) returns (steps: seq<Step>, last: System)
    requires Inv(s) && Idle(s.queue) && !s.task.GoingToSleep? && 0 < s.sender.size
    requires |s.stream| + 1 + 2 * WINDOW_SIZE < U32_LIMIT && s.clock + 4 * RETRY_TICKS < FOREVER
    ensures Run(s, steps, last) && Inv(last) && Idle(last.queue) && !last.task.GoingToSleep?
    ensures last.sender == SendWindow(2 + |s.stream|, s.sender.size) && s.acks + {2 + |s.stream|} <= last.acks
    ensures |last.stream| == |s.stream| + 1 && last.clock <= s.clock + 3 * RETRY_TICKS
  {
    hide Run, TcpStream.Holds, TcpStream.SliceOf;
    assert s.queue[0].None?;
    RunNothing(s);
    RunJoin(s, [], s, Enqueue([0]));
    NextInv(s, Enqueue([0]));
    var queued := Next(s, Enqueue([0]));
    assert FirstFree(s.queue) == 0;
    WedgeExactly(s, Enqueue([0]));
    var more;
    more, last := Finish(queued);
    RunConcat(s, [] + [Enqueue([0])], queued, more, last);
    AcksKept(queued, more, last);
    steps := [] + [Enqueue([0])] + more;
    assert last.queue[0].None?;
  }

  /** Two bytes sent one after the other leave an idle sender with a stale acknowledgment about. */
  lemma StaleAckReachable(s: System) returns (steps: seq<Step>, last: System)
    requires Init(s) && 0 < s.sender.size && s.clock + 8 * RETRY_TICKS < FOREVER
    ensures Run(s, steps, last) && Inv(last) && Idle(last.queue) && 2 in last.acks
    ensures last.sender == SendWindow(3, s.sender.size) && !last.task.GoingToSleep? && |last.stream| == 2
    ensures last.clock + RETRY_TICKS < FOREVER
    ensures !Harmless(last, 2)
  {
    hide Run, Inv;
    InitInv(s);
    var more;
    steps, last := OneByte(s);
    var first := last;
    more, last := OneByte(first);
    RunConcat(s, steps, first, more, last);
    steps := steps + more;
  }

  /** With a full window queued next, the other kind of harm is at hand. */
  lemma SplitReachable(s: System, data: seq<byte>) returns (steps: seq<Step>, last: System)
    requires Init(s) && 0 < |data| == s.sender.size && s.clock + 8 * RETRY_TICKS < FOREVER
    ensures Run(s, steps, last) && Inv(last) && 2 in last.acks
    ensures !AllFit(last.queue, last.sender.(acked := 2)) && !Wedged(last)
  {
    hide Run, TcpStream.Holds, TcpStream.SliceOf;
    var idle;
    steps, idle := StaleAckReachable(s);
    RunJoin(s, steps, idle, Enqueue(data));
    NextInv(idle, Enqueue(data));
    steps, last := steps + [Enqueue(data)], Next(idle, Enqueue(data));
    assert FirstFree(idle.queue) == 0;
    assert last.queue[0] == Some(Entry(PORT, Segment(3, data), 0));
    assert !Fits(last.queue[0].value, last.sender.(acked := 2));
  }
}
