/** The receive window against the peer's byte stream: which stream bytes the ring holds, and what
    the application has read, over every run of arrivals and reads.

    Stream byte i has position base + i, base being the first position after the peer's SYN. */
module TcpStream {
  import opened Bitmap
  import opened TcpWindow

  ghost predicate SliceOf(s: Segment, stream: seq<byte>, base: nat)
  {
    && base <= s.seqNo && s.seqNo + |s.data| <= base + |stream|
    && s.data == stream[s.seqNo - base..s.seqNo - base + |s.data|]
  }

  /** A bit is set exactly when its byte has been received and not yet read. */
  ghost predicate BitsExact(w: Window)
    requires w.Valid()
  {
    forall k :: 0 <= k < WINDOW_SIZE ==> (w.bits[k] <==> Position(w.first, k) < w.acked)
  }

  /** The ring holds the stream bytes of positions [first, acked) and nothing else is marked. */
  ghost predicate Holds(w: Window, stream: seq<byte>, base: nat)
  {
    && w.Valid() && BitsExact(w)
    && base <= w.first && w.acked <= base + |stream|
    && forall k :: 0 <= k < WINDOW_SIZE && Position(w.first, k) < w.acked ==>
         w.ring[k] == stream[Position(w.first, k) - base]
  }

  lemma HoldsBounds(w: Window, stream: seq<byte>, base: nat)
    requires Holds(w, stream, base)
    ensures w.Valid() && base <= w.first <= w.acked <= base + |stream|
  {
  }

  /** The peer's writing more does not disturb the window. */
  lemma HoldsGrows(w: Window, stream: seq<byte>, data: seq<byte>, base: nat)
    requires Holds(w, stream, base)
    ensures Holds(w, stream + data, base)
  {
  }

  predicate LeavesGap(w: Window, s: Segment)
  {
    w.acked < s.seqNo <= w.first + WINDOW_SIZE - 1
  }

  /** The receive loop tests whether a byte was already received; under Valid it never was. */
  lemma GuardNeverFires(w: Window, s: Segment, p: nat)
    requires w.Valid() && From(w, s) <= p < To(w, s)
    ensures !w.bits[Slot(p)]
  {
    PositionSlot(w.first, p);
  }

  lemma DeliverHolds(w: Window, s: Segment, stream: seq<byte>, base: nat)
    requires Holds(w, stream, base) && SliceOf(s, stream, base) && !LeavesGap(w, s)
    ensures Holds(Deliver(w, s), stream, base)
  {
    hide Deliver, Position;
    if Classify(w, s) == Stored {
      var w' := Deliver(w, s);
      DeliverValid(w, s);
      DeliverMark(w, s);
      forall k | 0 <= k < WINDOW_SIZE
        ensures w'.bits[k] <==> Position(w.first, k) < w'.acked
        ensures Position(w.first, k) < w'.acked ==> w'.ring[k] == stream[Position(w.first, k) - base]
      {
        DeliverSlot(w, s, stream, base, k);
      }
    } else {
      DeliverMark(w, s);
    }
  }

  lemma DeliverMark(w: Window, s: Segment)
    requires w.Valid()
    ensures Deliver(w, s).acked == if Classify(w, s) == Stored then To(w, s) else w.acked
    ensures Classify(w, s) != Stored ==> Deliver(w, s) == w
  {
  }

  lemma DeliverSlot(w: Window, s: Segment, stream: seq<byte>, base: nat, k: nat)
    requires Holds(w, stream, base) && SliceOf(s, stream, base) && !LeavesGap(w, s)
    requires k < WINDOW_SIZE && Classify(w, s) == Stored
    ensures var w', p := Deliver(w, s), Position(w.first, k);
      (w'.bits[k] <==> p < w'.acked) && (p < w'.acked ==> w'.ring[k] == stream[p - base])
  {
    hide Position;
    var p := Position(w.first, k);
    if From(w, s) <= p < To(w, s) {
      assert s.data[p - s.seqNo] == stream[p - base];
    }
  }

  /** The code moves the mark past bytes it never got exactly when the segment leaves a gap inside the
      window: an in-window segment with w.acked < seqNo, an empty one included. */
  lemma GapExact(w: Window, s: Segment)
    requires w.Valid() && BitsExact(w)
    ensures BitsExact(Deliver(w, s)) <==> !LeavesGap(w, s)
  {
    if LeavesGap(w, s) {
      PositionSlot(w.first, w.acked);
      assert !Deliver(w, s).bits[Slot(w.acked)];
    }
  }

  /** For a slice of the stream the refinement survives exactly when no gap is left. */
  lemma DeliverHoldsExactly(w: Window, s: Segment, stream: seq<byte>, base: nat)
    requires Holds(w, stream, base) && SliceOf(s, stream, base)
    ensures Holds(Deliver(w, s), stream, base) <==> !LeavesGap(w, s)
  {
    if LeavesGap(w, s) {
      GapExact(w, s);
    } else {
      DeliverHolds(w, s, stream, base);
    }
  }

  lemma ReadHolds(w: Window, size: nat, stream: seq<byte>, base: nat)
    requires Holds(w, stream, base)
    ensures Holds(AfterRead(w, size), stream, base)
    ensures ReadBytes(w, size) == stream[w.first - base..AfterRead(w, size).first - base]
  {
    hide Position, Slot;
    var w' := AfterRead(w, size);
    AfterReadValid(w, size);
    forall k | 0 <= k < WINDOW_SIZE
      ensures w'.bits[k] <==> Position(w'.first, k) < w'.acked
      ensures Position(w'.first, k) < w'.acked ==> w'.ring[k] == stream[Position(w'.first, k) - base]
    {
      PositionMoves(w.first, w'.first, k);
    }
    forall i | 0 <= i < ReadCount(w, size)
      ensures ReadBytes(w, size)[i] == stream[w.first - base + i]
    {
      PositionSlot(w.first, w.first + i);
    }
  }

  // ---------- Runs of one endpoint ----------

  datatype Event = Arrive(segment: Segment) | AppRead(size: nat)

  function After(w: Window, e: Event): Window
    requires w.Valid()
  {
    match e
    case Arrive(s) => Deliver(w, s)
    case AppRead(size) => AfterRead(w, size)
  }

  function Output(w: Window, e: Event): seq<byte>
    requires w.Valid()
  {
    if e.AppRead? then ReadBytes(w, e.size) else []
  }

  lemma AfterValid(w: Window, e: Event)
    requires w.Valid()
    ensures After(w, e).Valid()
    ensures w.first <= After(w, e).first && w.acked <= After(w, e).acked
  {
    match e
    case Arrive(s) => DeliverValid(w, s);
    case AppRead(size) => AfterReadValid(w, size);
  }

  /** The state after a run and everything the application read during it. */
  ghost function Run(w: Window, es: seq<Event>): (r: (Window, seq<byte>))
    requires w.Valid()
    decreases es
  {
    if es == [] then (w, [])
    else
      AfterValid(w, es[0]);
      var r := Run(After(w, es[0]), es[1..]);
      (r.0, Output(w, es[0]) + r.1)
  }

  /** Every segment that arrives is a slice of the stream and leaves no gap when it arrives. */
  ghost predicate FromStream(w: Window, es: seq<Event>, stream: seq<byte>, base: nat)
    requires w.Valid()
    decreases es
  {
    es == [] ||
    (AfterValid(w, es[0]);
     && (es[0].Arrive? ==> SliceOf(es[0].segment, stream, base) && !LeavesGap(w, es[0].segment))
     && FromStream(After(w, es[0]), es[1..], stream, base))
  }

  /** Any segments at all, gaps and empty ones included: the marks stay within one window of each
      other, never go back, and no unreceived position is marked. */
  lemma {:induction false} RunKeepsMarks(w: Window, es: seq<Event>)
    requires w.Valid()
    ensures Run(w, es).0.Valid()
    ensures w.first <= Run(w, es).0.first && w.acked <= Run(w, es).0.acked
    decreases es
  {
    if es != [] {
      AfterValid(w, es[0]);
      RunKeepsMarks(After(w, es[0]), es[1..]);
    }
  }

  /** Receive-window refinement: the ring always holds the unread received part of the stream, and
      the reads, put together, are the stream from the first position to the last, each byte once. */
  lemma {:induction false} RunRefinesStream(w: Window, es: seq<Event>, stream: seq<byte>, base: nat)
    requires Holds(w, stream, base) && FromStream(w, es, stream, base)
    ensures Holds(Run(w, es).0, stream, base)
    ensures w.first <= Run(w, es).0.first
    ensures Run(w, es).1 == stream[w.first - base..Run(w, es).0.first - base]
    decreases es
  {
    hide Holds, SliceOf, After, Output;
    HoldsBounds(w, stream, base);
    if es != [] {
      AfterValid(w, es[0]);
      var w', last := After(w, es[0]), Run(w, es).0.first;
      StepRefines(w, es[0], stream, base);
      RunRefinesStream(w', es[1..], stream, base);
      HoldsBounds(Run(w, es).0, stream, base);
      assert stream[w.first - base..last - base] == stream[w.first - base..w'.first - base] + stream[w'.first - base..last - base];
    }
  }

  lemma StepRefines(w: Window, e: Event, stream: seq<byte>, base: nat)
    requires Holds(w, stream, base)
    requires e.Arrive? ==> SliceOf(e.segment, stream, base) && !LeavesGap(w, e.segment)
    ensures Holds(After(w, e), stream, base)
    ensures Output(w, e) == stream[w.first - base..After(w, e).first - base]
  {
    AfterValid(w, e);
    match e
    case Arrive(s) => DeliverHolds(w, s, stream, base);
    case AppRead(size) => ReadHolds(w, size, stream, base);
  }
}
