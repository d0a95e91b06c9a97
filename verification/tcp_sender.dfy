/** The retransmission queue of src/kernel_tasks/tcp_sender.c: tcp_sender_enqueue and one sweep of
    tcp_sender_task.

    A segment stays queued until the send window says it is acknowledged, and is sent again each
    time its deadline passes.  The branch that splits an oversized segment is not modelled: the sweep
    demands that no due segment reaches past the send window, and tcp_system.dfy proves that none
    ever does. */
module TcpSender {
  import opened Bitmap
  import opened TcpWindow

  const MAX_QUEUE: nat := 1024
  const FOREVER: nat := 0xffff_ffff
  const RETRY_TICKS: nat := 100

  datatype SendWindow = SendWindow(acked: nat, size: nat)

  datatype Entry = Entry(port: nat, segment: Segment, tick: nat)

  type Queue = seq<Option<Entry>>

  /** The slot tcp_sender_enqueue uses: the first free one, or |q| if there is none. */
  function FirstFree(q: Queue): (i: nat)
    ensures i <= |q|
    ensures forall j :: 0 <= j < i ==> q[j].Some?
    ensures i < |q| ==> q[i].None?
  {
    if q == [] || q[0].None? then 0 else 1 + FirstFree(q[1..])
  }

  /** With no free slot the segment is dropped. */
  function Enqueued(q: Queue, e: Entry): Queue
  {
    if FirstFree(q) < |q| then q[FirstFree(q) := Some(e)] else q
  }

  function End(s: Segment): nat { s.seqNo + |s.data| }

  predicate Due(e: Entry, now: nat) { e.tick < now }

  predicate Acknowledged(e: Entry, window: SendWindow) { window.acked >= End(e.segment) }

  /** The segment does not reach past the send window, so it is not split. */
  predicate Fits(e: Entry, window: SendWindow) { End(e.segment) <= window.acked + window.size }

  predicate Resent(slot: Option<Entry>, windows: map<nat, SendWindow>, now: nat)
  {
    slot.Some? && Due(slot.value, now) &&
    slot.value.port in windows && !Acknowledged(slot.value, windows[slot.value.port])
  }

  /** What one sweep makes of one slot. */
  function SweptSlot(slot: Option<Entry>, windows: map<nat, SendWindow>, now: nat): Option<Entry>
  {
    if slot.None? || !Due(slot.value, now) then slot
    else if Resent(slot, windows, now) then Some(slot.value.(tick := RETRY_TICKS + now))
    else None
  }

  function Swept(q: Queue, windows: map<nat, SendWindow>, now: nat): (q': Queue)
    ensures |q'| == |q|
  {
    seq(|q|, i requires 0 <= i < |q| => SweptSlot(q[i], windows, now))
  }

  function SentFrom(slot: Option<Entry>, windows: map<nat, SendWindow>, now: nat): seq<Segment>
  {
    if Resent(slot, windows, now) then [slot.value.segment] else []
  }

  /** The segments a sweep puts on the wire, in slot order. */
  function Emitted(q: Queue, windows: map<nat, SendWindow>, now: nat): seq<Segment>
  {
    if q == [] then []
    else SentFrom(q[0], windows, now) + Emitted(q[1..], windows, now)
  }

  lemma {:induction false} EmittedAppend(q: Queue, slot: Option<Entry>, windows: map<nat, SendWindow>, now: nat)
    ensures Emitted(q + [slot], windows, now) ==
      Emitted(q, windows, now) + SentFrom(slot, windows, now)
  {
    hide SentFrom;
    if q == [] {
      assert q + [slot] == [slot];
    } else {
      EmittedAppend(q[1..], slot, windows, now);
      assert (q + [slot])[1..] == q[1..] + [slot];
    }
  }

  lemma EmittedNone(q: Queue, windows: map<nat, SendWindow>, now: nat)
    ensures Emitted(q, windows, now) == [] <==> forall i :: 0 <= i < |q| ==> !Resent(q[i], windows, now)
  {
    if Emitted(q, windows, now) != [] {
      EmittedExactly(q, windows, now, Emitted(q, windows, now)[0]);
    }
    if i :| 0 <= i < |q| && Resent(q[i], windows, now) {
      EmittedExactly(q, windows, now, q[i].value.segment);
    }
  }

  /** A segment is on the wire after a sweep exactly when some slot held it, due and unacknowledged. */
  lemma {:induction false} EmittedExactly(q: Queue, windows: map<nat, SendWindow>, now: nat, s: Segment)
    ensures s in Emitted(q, windows, now) <==>
      exists i :: 0 <= i < |q| && Resent(q[i], windows, now) && q[i].value.segment == s
  {
    if q != [] {
      EmittedExactly(q[1..], windows, now, s);
      if i :| 0 <= i < |q| && Resent(q[i], windows, now) && q[i].value.segment == s {
        assert i == 0 || q[1..][i - 1] == q[i];
      }
    }
  }

  /** An enqueued segment takes the first free slot and leaves the others alone. */
  lemma EnqueuedExactly(q: Queue, e: Entry)
    ensures |Enqueued(q, e)| == |q|
    ensures forall i :: 0 <= i < |q| ==>
      Enqueued(q, e)[i] == if q[i].None? && forall j :: 0 <= j < i ==> q[j].Some? then Some(e) else q[i]
  {
  }

  /** What a sweep at tick `now` makes of each slot: one not due stays, one whose last byte is below the
      mark goes, and any other is sent and due again 100 ticks later. */
  lemma SweptExactly(q: Queue, windows: map<nat, SendWindow>, now: nat, i: nat)
    requires i < |q| && (q[i].Some? ==> q[i].value.port in windows)
    ensures var slot, after, sent := q[i], Swept(q, windows, now)[i], Emitted([q[i]], windows, now);
      match slot
      case None => after == None && sent == []
      case Some(Entry(port, segment, tick)) =>
        if now <= tick then after == slot && sent == []
        else if segment.seqNo + |segment.data| <= windows[port].acked then after == None && sent == []
        else after == Some(Entry(port, segment, now + 100)) && sent == [segment]
  {
    assert Emitted([q[i]][1..], windows, now) == [];
  }

  /** Segments go on the wire in the order of their slots. */
  lemma {:induction false} EmittedInOrder(a: Queue, b: Queue, windows: map<nat, SendWindow>, now: nat)
    ensures Emitted(a + b, windows, now) == Emitted(a, windows, now) + Emitted(b, windows, now)
  {
    hide SentFrom;
    if a == [] {
      assert a + b == b;
    } else {
      EmittedInOrder(a[1..], b, windows, now);
      assert (a + b)[1..] == a[1..] + b && (a + b)[0] == a[0];
    }
  }

  class SegmentQueue {
    const slots: array<Option<Entry>>

    constructor ()
      ensures fresh(slots) && slots.Length == MAX_QUEUE
      ensures forall i :: 0 <= i < slots.Length ==> slots[i].None?
    {
      slots := new Option<Entry>[MAX_QUEUE](_ => None);
    }

    /** tcp_sender_enqueue; `wakes` tells whether it goes on to wake the sender task. */
    method Enqueue(port: nat, segment: Segment) returns (wakes: bool)
      modifies slots
      ensures slots[..] == Enqueued(old(slots[..]), Entry(port, segment, 0))
      ensures wakes <==> exists i :: 0 <= i < slots.Length && old(slots[i]).None?
    {
      var i := 0;
      while i < slots.Length
        invariant 0 <= i <= FirstFree(slots[..])
      {
        if slots[i].None? {
          slots[i] := Some(Entry(port, segment, 0));
          return true;
        }
        i := i + 1;
      }
      return false;
    }

    /** One pass of tcp_sender_task over the queue at time `now`.  `minTick` is the deadline the task
        then sleeps until.  The demands are the ones the 32-bit sums of the pass need, a send window
        for the port of every due segment, and that none it is to send reaches past that window. */
    method Sweep(windows: map<nat, SendWindow>, now: nat) returns (sent: seq<Segment>, minTick: nat)
      requires now + RETRY_TICKS < U32_LIMIT
      requires forall i :: 0 <= i < slots.Length && slots[i].Some? && Due(slots[i].value, now) ==> slots[i].value.port in windows
      requires forall i :: 0 <= i < slots.Length && Resent(slots[i], windows, now) ==>
        Fits(slots[i].value, windows[slots[i].value.port])
      modifies slots
      ensures slots[..] == Swept(old(slots[..]), windows, now)
      ensures sent == Emitted(old(slots[..]), windows, now)
      ensures minTick == if sent == [] then 0xffff_ffff else 100 + now
    {
      ghost var before := slots[..];
      minTick := FOREVER;
      sent := [];
      var dataRemainder := 0;
      var i := 0;
      while i < slots.Length
        invariant 0 <= i <= slots.Length
        invariant forall j :: 0 <= j < i ==> slots[j] == SweptSlot(before[j], windows, now)
        invariant forall j :: i <= j < slots.Length ==> slots[j] == before[j]
        invariant sent == Emitted(before[..i], windows, now)
        invariant minTick == if sent == [] then FOREVER else RETRY_TICKS + now
        invariant dataRemainder == 0
      {
        EmittedAppend(before[..i], before[i], windows, now);
        assert before[..i] + [before[i]] == before[..i + 1];
        if slots[i].Some? && slots[i].value.tick < now {
          var entry := slots[i].value;
          var window := windows[entry.port];
          if window.acked >= entry.segment.seqNo + |entry.segment.data| {
            slots[i] := None;
          } else {
            var lastPossible := window.acked + window.size;
            var lastData := entry.segment.seqNo + |entry.segment.data|;
            if lastData > lastPossible {
              dataRemainder := lastData - lastPossible;
            }
            var toSend := entry.segment.data[..|entry.segment.data| - dataRemainder];
            var resent := Entry(entry.port, Segment(entry.segment.seqNo, toSend), RETRY_TICKS + now);
            assert toSend == entry.segment.data;
            slots[i] := Some(resent);
            sent := sent + [resent.segment];
            minTick := Min(minTick, resent.tick);
          }
        }
        i := i + 1;
      }
      assert before[..slots.Length] == before;
    }
  }
}
