/** The receive sliding window of src/network/tcp.c.

    `Window` is the state as a value, `Deliver` and `Read` say what a data segment and a tcp_read do
    to it, and `RecvWindow` is the object the kernel updates in place, proved to follow them.  Byte
    positions are stream positions: position p lives in ring slot p % 1024.  The marks are 32-bit in
    the kernel; positions are unbounded here and the methods demand that nothing wraps. */
module TcpWindow {
  import opened Bitmap

  const WINDOW_SIZE: nat := 1024
  const U32_LIMIT: nat := 0x1_0000_0000

  datatype Segment = Segment(seqNo: nat, data: seq<byte>)

  /** `first` is first_window_byte.  `acked` is last_acked_byte: the next byte expected, in fact. */
  datatype Window = Window(first: nat, acked: nat, bits: seq<bool>, ring: seq<byte>) {
    /** What every reachable window satisfies, whatever the peer sends. */
    ghost predicate Valid()
    {
      && |bits| == |ring| == WINDOW_SIZE
      && first <= acked <= first + WINDOW_SIZE
      && forall k :: 0 <= k < WINDOW_SIZE && acked <= Position(first, k) ==> !bits[k]
    }
  }

  function Min(x: int, y: int): int { if x < y then x else y }

  function Max(x: int, y: int): int { if x > y then x else y }

  function Slot(p: nat): (k: nat)
    ensures k < WINDOW_SIZE
  {
    p % WINDOW_SIZE
  }

  /** The position of the window starting at `first` that slot k stands for. */
  function Position(first: nat, k: nat): (p: nat)
    requires k < WINDOW_SIZE
    ensures first <= p < first + WINDOW_SIZE
  {
    first + (k - first) % WINDOW_SIZE
  }

  /** Within one window, slots and positions correspond one to one. */
  lemma SlotPosition(first: nat, k: nat)
    requires k < WINDOW_SIZE
    ensures Slot(Position(first, k)) == k
  {
  }

  lemma PositionSlot(first: nat, p: nat)
    requires first <= p < first + WINDOW_SIZE
    ensures Position(first, Slot(p)) == p
  {
  }

  /** Moving the window up past p <= first leaves the slots of later positions alone. */
  lemma PositionMoves(first: nat, first': nat, k: nat)
    requires k < WINDOW_SIZE && first <= first' <= first + WINDOW_SIZE
    ensures Position(first', k) == if Position(first, k) < first' then Position(first, k) + WINDOW_SIZE else Position(first, k)
  {
  }

  datatype Outcome = BeyondWindow | Duplicate | Stored

  function Classify(w: Window, s: Segment): Outcome
  {
    if s.seqNo > w.first + WINDOW_SIZE - 1 then BeyondWindow
    else if s.seqNo + |s.data| - 1 < w.acked then Duplicate
    else Stored
  }

  /** The positions a stored segment writes are [From, To). */
  function From(w: Window, s: Segment): nat { Max(w.acked, s.seqNo) }

  function To(w: Window, s: Segment): nat
  {
    Max(From(w, s), Min(w.first + WINDOW_SIZE, s.seqNo + |s.data|))
  }

  /** tcp_state_connected_handler on a PSH-ACK segment. */
  function Deliver(w: Window, s: Segment): (w': Window)
    requires w.Valid()
  {
    if Classify(w, s) != Stored then w
    else
      Window(
        w.first,
        To(w, s),
        seq(WINDOW_SIZE, k requires 0 <= k < WINDOW_SIZE => w.bits[k] || From(w, s) <= Position(w.first, k) < To(w, s)),
        seq(WINDOW_SIZE, k requires 0 <= k < WINDOW_SIZE =>
          var p := Position(w.first, k);
          if From(w, s) <= p < To(w, s) then s.data[p - s.seqNo] else w.ring[k]))
  }

  /** The acknowledgment number sent back, if any. */
  function Reply(w: Window, s: Segment): Option<nat>
  {
    match Classify(w, s)
    case BeyondWindow => None
    case Duplicate => Some(w.acked)
    case Stored => if w.acked < To(w, s) then Some(To(w, s)) else None
  }

  /** How many bytes tcp_read copies out: never the `size` asked for, but at most size - 1. */
  function ReadCount(w: Window, size: nat): nat
    requires w.Valid()
  {
    Max(0, Min(size - 1, w.acked - w.first))
  }

  function ReadBytes(w: Window, size: nat): (bytes: seq<byte>)
    requires w.Valid()
  {
    seq(ReadCount(w, size), i requires 0 <= i < ReadCount(w, size) => w.ring[Slot(w.first + i)])
  }

  function AfterRead(w: Window, size: nat): (w': Window)
    requires w.Valid()
  {
    var first' := w.first + ReadCount(w, size);
    Window(first', w.acked,
           seq(WINDOW_SIZE, k requires 0 <= k < WINDOW_SIZE => w.bits[k] && first' <= Position(w.first, k)),
           w.ring)
  }

  function FreshWindow(sequenceNumber: nat): Window
  {
    Window(sequenceNumber + 1, sequenceNumber + 1, seq(WINDOW_SIZE, _ => false), seq(WINDOW_SIZE, _ => 0))
  }

  // ---------- The object updated in place ----------

  class RecvWindow {
    var lastAckedByte: nat
    var firstWindowByte: nat
    const bitmap: array<byte>
    const buffer: array<byte>

    ghost function Value(): Window
      reads this, bitmap, buffer
    {
      Window(firstWindowByte, lastAckedByte, View(bitmap[..]), buffer[..])
    }

    ghost predicate Valid()
      reads this, bitmap, buffer
    {
      && bitmap != buffer
      && bitmap.Length == 128 && buffer.Length == WINDOW_SIZE
      && Value().Valid()
    }

    /** tcp_init_window, receive half.  It does not clear the memory it allocates: `bits` and `bytes` are
        what that memory held, and the window is in order if and only if no bit was set. */
    constructor (sequenceNumber: nat, bits: seq<byte>, bytes: seq<byte>)
      requires |bits| == 128 && |bytes| == WINDOW_SIZE
      ensures fresh(bitmap) && fresh(buffer)
      ensures Value() == Window(sequenceNumber + 1, sequenceNumber + 1, View(bits), bytes)
      ensures Valid() <==> forall k :: 0 <= k < WINDOW_SIZE ==> !View(bits)[k]
    {
      lastAckedByte, firstWindowByte := sequenceNumber + 1, sequenceNumber + 1;
      bitmap := new byte[128](i requires 0 <= i < 128 => bits[i]);
      buffer := new byte[WINDOW_SIZE](i requires 0 <= i < WINDOW_SIZE => bytes[i]);
      new;
      assert bitmap[..] == bits && buffer[..] == bytes;
    }

    /** The data branch of tcp_state_connected_handler.  The demands are that the segment's last
        position, first + size - 1, and the window's last position fit in 32 bits. */
    method Receive(s: Segment) returns (ack: Option<nat>)
      requires Valid()
      requires 1 <= s.seqNo + |s.data| < U32_LIMIT && firstWindowByte + WINDOW_SIZE < U32_LIMIT
      modifies this, bitmap, buffer
      ensures Valid()
      ensures Value() == Deliver(old(Value()), s)
      ensures ack == Reply(old(Value()), s)
    {
      hide View, Slot, Position, Written;
      ghost var w := Value();
      var lastReceived := s.seqNo + |s.data| - 1;
      var lastAcked := lastAckedByte;
      var lastPossible := firstWindowByte + WINDOW_SIZE - 1;
      if s.seqNo > lastPossible {
        return None;
      }
      if lastReceived < lastAcked {
        return Some(lastAcked);
      }
      var current := Max(lastAcked, s.seqNo);
      var last := Min(lastPossible, lastReceived);
      WrittenNothing(w, s);
      while current <= last
        invariant From(w, s) <= current <= To(w, s)
        invariant firstWindowByte == w.first && lastAckedByte == w.acked
        invariant Written(w, s, current, View(bitmap[..]), buffer[..])
      {
        WrittenStep(w, s, current, View(bitmap[..]), buffer[..]);
        var taken := Read(bitmap, Slot(current));
        if !taken {
          Set(bitmap, Slot(current));
          buffer[Slot(current)] := s.data[current - s.seqNo];
        }
        current := current + 1;
      }
      WrittenAll(w, s, View(bitmap[..]), buffer[..]);
      if lastAcked < current {
        lastAckedByte := current;
        ack := Some(current);
      } else {
        ack := None;
      }
      DeliverValid(w, s);
    }

    /** tcp_read.  The demand is that first + size - 1 neither underflows nor wraps. */
    method ReadInto(size: nat) returns (bytes: seq<byte>)
      requires Valid()
      requires 1 <= firstWindowByte + size <= U32_LIMIT
      modifies this, bitmap
      ensures Valid()
      ensures Value() == AfterRead(old(Value()), size)
      ensures bytes == ReadBytes(old(Value()), size)
    {
      hide View, Slot, Position;
      ghost var w := Value();
      var lastAcked, current := lastAckedByte, firstWindowByte;
      var last := Min(current + size - 1, lastAcked);
      bytes := [];
      while current < last
        invariant w.first <= current <= Max(w.first, last)
        invariant firstWindowByte == current && lastAckedByte == w.acked
        invariant buffer[..] == w.ring
        invariant |bytes| == current - w.first
        invariant forall i :: 0 <= i < |bytes| ==> bytes[i] == w.ring[Slot(w.first + i)]
        invariant forall k :: 0 <= k < WINDOW_SIZE ==>
          View(bitmap[..])[k] == (w.bits[k] && current <= Position(w.first, k))
      {
        PositionSlot(w.first, current);
        OthersApart(w.first, current);
        bytes := bytes + [buffer[Slot(current)]];
        Clear(bitmap, Slot(current));
        firstWindowByte := firstWindowByte + 1;
        current := current + 1;
      }
      assert bytes == ReadBytes(w, size);
      assert Value().bits == AfterRead(w, size).bits;
      AfterReadValid(w, size);
    }
  }

  /** The receive loop has stored the positions [From, current) and nothing else. */
  ghost predicate Written(w: Window, s: Segment, current: nat, bits: seq<bool>, ring: seq<byte>)
    requires w.Valid() && From(w, s) <= current <= To(w, s)
  {
    && |bits| == |ring| == WINDOW_SIZE
    && forall k :: 0 <= k < WINDOW_SIZE ==>
      var p := Position(w.first, k);
      && bits[k] == (w.bits[k] || From(w, s) <= p < current)
      && ring[k] == if From(w, s) <= p < current then s.data[p - s.seqNo] else w.ring[k]
  }

  lemma WrittenNothing(w: Window, s: Segment)
    requires w.Valid()
    ensures Written(w, s, From(w, s), w.bits, w.ring)
  {
  }

  /** One turn of the loop; the slot it is about to use is never marked as taken. */
  lemma WrittenStep(w: Window, s: Segment, current: nat, bits: seq<bool>, ring: seq<byte>)
    requires w.Valid() && From(w, s) <= current < To(w, s)
    requires Written(w, s, current, bits, ring)
    ensures |bits| == |ring| == WINDOW_SIZE && !bits[Slot(current)]
    ensures Written(w, s, current + 1, bits[Slot(current) := true], ring[Slot(current) := s.data[current - s.seqNo]])
  {
    hide Slot, Position;
    PositionSlot(w.first, current);
    OthersApart(w.first, current);
  }

  lemma WrittenAll(w: Window, s: Segment, bits: seq<bool>, ring: seq<byte>)
    requires w.Valid() && Classify(w, s) == Stored
    requires Written(w, s, To(w, s), bits, ring)
    ensures bits == Deliver(w, s).bits && ring == Deliver(w, s).ring
  {
    hide Position;
  }

  lemma OthersApart(first: nat, p: nat)
    requires first <= p < first + WINDOW_SIZE
    ensures forall k :: 0 <= k < WINDOW_SIZE && k != Slot(p) ==> Position(first, k) != p
  {
    forall k | 0 <= k < WINDOW_SIZE && k != Slot(p)
      ensures Position(first, k) != p
    {
      SlotPosition(first, k);
    }
  }

  // ---------- What a segment and a read do, in numbers ----------

  /** Everything of a segment that fits is taken: the mark moves to the end of the segment or of the
      window, each position it passes that the segment covers gets the segment's byte, and no other slot
      changes. */
  lemma DeliverExactly(w: Window, s: Segment)
    requires w.Valid()
    ensures var w' := Deliver(w, s);
      && |w'.bits| == |w'.ring| == 1024 && w'.first == w.first
      && w'.acked == (if w.first + 1024 <= s.seqNo then w.acked else Max(w.acked, Min(w.first + 1024, s.seqNo + |s.data|)))
      && (forall p: nat :: w.acked <= p < w'.acked && s.seqNo <= p ==>
            p - s.seqNo < |s.data| && w'.bits[p % 1024] && w'.ring[p % 1024] == s.data[p - s.seqNo])
      && (forall p: nat :: w.first <= p < w.first + 1024 && !(w.acked <= p < w'.acked && s.seqNo <= p) ==>
            w'.bits[p % 1024] == w.bits[p % 1024] && w'.ring[p % 1024] == w.ring[p % 1024])
  {
    hide Position;
    forall p: nat | w.first <= p < w.first + 1024
      ensures Position(w.first, p % 1024) == p
    {
      PositionSlot(w.first, p);
    }
  }

  /** A segment beyond the window is not answered, one that brings nothing new is answered with the mark,
      and any other with the new mark if it moved. */
  lemma ReplyExactly(w: Window, s: Segment)
    requires w.Valid()
    ensures Reply(w, s) ==
      if w.first + 1024 <= s.seqNo then None
      else if s.seqNo + |s.data| <= w.acked then Some(w.acked)
      else if w.acked < Deliver(w, s).acked then Some(Deliver(w, s).acked) else None
  {
  }

  /** A read takes what it may and no more: at most size - 1 bytes, the oldest ones, in order. */
  lemma ReadExactly(w: Window, size: nat)
    requires w.Valid()
    ensures var bytes, w' := ReadBytes(w, size), AfterRead(w, size);
      && |bytes| == Max(0, Min(size - 1, w.acked - w.first))
      && (forall i :: 0 <= i < |bytes| ==> bytes[i] == w.ring[(w.first + i) % 1024])
      && w'.first == w.first + |bytes| && w'.acked == w.acked && w'.ring == w.ring && |w'.bits| == 1024
      && (forall p: nat :: w.first <= p < w.first + 1024 ==> w'.bits[p % 1024] == (w.bits[p % 1024] && w'.first <= p))
  {
    hide Position;
    assert forall i :: 0 <= i < ReadCount(w, size) ==> ReadBytes(w, size)[i] == w.ring[Slot(w.first + i)];
    forall p: nat | w.first <= p < w.first + 1024
      ensures Position(w.first, p % 1024) == p
    {
      PositionSlot(w.first, p);
    }
  }

  /** A window just opened expects the byte after the SYN's number and holds nothing. */
  lemma FreshExactly(sequenceNumber: nat)
    ensures var w := FreshWindow(sequenceNumber);
      w.Valid() && w.first == w.acked == sequenceNumber + 1 && forall k :: 0 <= k < 1024 ==> !w.bits[k]
  {
  }

  // ---------- What every run keeps ----------

  lemma DeliverValid(w: Window, s: Segment)
    requires w.Valid()
    ensures Deliver(w, s).Valid()
    ensures Deliver(w, s).first == w.first && w.acked <= Deliver(w, s).acked
  {
  }

  lemma AfterReadValid(w: Window, size: nat)
    requires w.Valid()
    ensures AfterRead(w, size).Valid()
    ensures w.first <= AfterRead(w, size).first && AfterRead(w, size).acked == w.acked
  {
    var w' := AfterRead(w, size);
    forall k | 0 <= k < WINDOW_SIZE && w'.acked <= Position(w'.first, k)
      ensures !w'.bits[k]
    {
      PositionMoves(w.first, w'.first, k);
    }
  }
}
