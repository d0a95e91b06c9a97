/** The connection state machine of tcp_recv_segment in src/network/tcp.c, for one port.

    Compare section 3.3.2 of RFC 9293; the states are the kernel's. */
module TcpConnection {
  import opened Bitmap
  import opened TcpWindow
  import opened TcpSender

  datatype State =
    | WaitingSyn | WaitingSynAck | WaitingAck | Connected
    | FinWait1 | FinWait2 | Closing | TimeWait | CloseWait | LastAck | Closed

  /** The constants of src/include/tcp.h. */
  function StateNumber(s: State): nat
  {
    match s
    case WaitingSyn => 0 case WaitingSynAck => 1 case WaitingAck => 2 case Connected => 3
    case FinWait1 => 4 case FinWait2 => 5 case Closing => 6 case TimeWait => 7
    case CloseWait => 8 case LastAck => 9 case Closed => 10
  }

  datatype Flags = Flags(ecn: bool, cwr: bool, ece: bool, urg: bool, ack: bool, psh: bool, rst: bool, syn: bool, fin: bool)

  datatype Message = Message(flags: Flags, segment: Segment, ackNumber: nat, windowSize: nat)

  /** The five classifiers: exactly these flags set and no other. */
  predicate Only(f: Flags, ack: bool, psh: bool, syn: bool, fin: bool)
  {
    !f.ecn && !f.cwr && !f.ece && !f.urg && f.ack == ack && f.psh == psh && !f.rst && f.syn == syn && f.fin == fin
  }

  predicate IsSyn(m: Message) { Only(m.flags, false, false, true, false) }

  predicate IsSynAck(m: Message) { Only(m.flags, true, false, true, false) }

  predicate IsAck(m: Message) { Only(m.flags, true, false, false, false) }

  predicate IsPshAck(m: Message) { Only(m.flags, true, true, false, false) }

  predicate IsFinAck(m: Message) { Only(m.flags, true, false, false, true) }

  /** One entry of tcp_port_table. */
  datatype PortEntry = PortEntry(state: State, established: bool, recv: Option<Window>, send: Option<SendWindow>)

  /** After tcp_listen, and after tcp_connect has set the state, on a cleared entry. */
  const LISTENING: PortEntry := PortEntry(WaitingSyn, false, None, None)
  const CONNECTING: PortEntry := PortEntry(WaitingSynAck, false, None, None)

  ghost predicate Inv(e: PortEntry)
  {
    && e.state in {WaitingSyn, WaitingSynAck, WaitingAck, Connected, CloseWait, LastAck, Closed}
    && (2 <= StateNumber(e.state) ==> e.recv.Some? && e.send.Some?)
    && (e.recv.Some? ==> e.recv.value.Valid())
    && (e.established ==> 3 <= StateNumber(e.state))
  }

  function WithWindows(e: PortEntry, m: Message): PortEntry
  {
    e.(recv := Some(FreshWindow(m.segment.seqNo)), send := Some(SendWindow(1, Min(m.windowSize, WINDOW_SIZE))))
  }

  /** tcp_recv_segment: what one incoming segment does to the entry of its port. */
  function Receive(e: PortEntry, m: Message): PortEntry
    requires Inv(e)
  {
    match e.state
    case WaitingSyn => if IsSyn(m) then WithWindows(e.(state := WaitingAck), m) else e
    case WaitingSynAck => if IsSynAck(m) then WithWindows(e.(state := Connected, established := true), m) else e
    case WaitingAck => if IsAck(m) then e.(state := Connected) else e
    case Connected =>
      if IsAck(m) then e.(send := Some(e.send.value.(acked := m.ackNumber)))
      else if IsPshAck(m) then e.(recv := Some(Deliver(e.recv.value, m.segment)))
      else if IsFinAck(m) then e.(state := CloseWait)
      else e
    case FinWait1 => e.(state := TimeWait)
    case FinWait2 => e.(state := TimeWait)
    case Closing => e.(state := TimeWait)
    case TimeWait => e.(state := Closed)
    case CloseWait => e.(state := LastAck)
    case LastAck => e.(state := Closed)
    case Closed => e
  }

  lemma ReceiveInv(e: PortEntry, m: Message)
    requires Inv(e)
    ensures Inv(Receive(e, m)) && StateNumber(e.state) <= StateNumber(Receive(e, m).state)
  {
    if e.recv.Some? {
      DeliverValid(e.recv.value, m.segment);
    }
  }

  ghost function Run(e: PortEntry, ms: seq<Message>): PortEntry
    requires Inv(e)
    decreases ms
  {
    if ms == [] then e
    else
      ReceiveInv(e, ms[0]);
      Run(Receive(e, ms[0]), ms[1..])
  }

  /** Over any messages: the state number never decreases, both windows exist from WaitingAck on, and
      the FIN_WAIT, CLOSING and TIME_WAIT states are never entered. */
  lemma {:induction false} RunInv(e: PortEntry, ms: seq<Message>)
    requires Inv(e)
    ensures Inv(Run(e, ms)) && StateNumber(e.state) <= StateNumber(Run(e, ms).state)
    decreases ms
  {
    if ms != [] {
      ReceiveInv(e, ms[0]);
      RunInv(Receive(e, ms[0]), ms[1..]);
    }
  }

  lemma FirstOrLater(ms: seq<Message>)
    requires ms != []
    ensures (exists i :: 0 <= i < |ms| && IsAck(ms[i])) <==> IsAck(ms[0]) || exists i :: 0 <= i < |ms[1..]| && IsAck(ms[1..][i])
    ensures (exists i :: 0 <= i < |ms| && IsSynAck(ms[i])) <==>
      IsSynAck(ms[0]) || exists i :: 0 <= i < |ms[1..]| && IsSynAck(ms[1..][i])
  {
    assert forall i :: 0 < i < |ms| ==> ms[i] == ms[1..][i - 1];
  }

  /** From WaitingAck the connection is made exactly by an ACK. */
  lemma {:induction false} ConnectsByAck(e: PortEntry, ms: seq<Message>)
    requires Inv(e) && e.state == WaitingAck
    ensures 3 <= StateNumber(Run(e, ms).state) <==> exists i :: 0 <= i < |ms| && IsAck(ms[i])
    decreases ms
  {
    if ms != [] {
      ReceiveInv(e, ms[0]);
      FirstOrLater(ms);
      if IsAck(ms[0]) {
        RunInv(Receive(e, ms[0]), ms[1..]);
      } else {
        ConnectsByAck(e, ms[1..]);
      }
    }
  }

  /** A listening port is connected (or past it) exactly when a SYN has come and, later, an ACK. */
  lemma {:induction false} ListenerConnects(e: PortEntry, ms: seq<Message>)
    requires Inv(e) && e.state == WaitingSyn
    ensures 3 <= StateNumber(Run(e, ms).state) <==> exists i, j :: 0 <= i < j < |ms| && IsSyn(ms[i]) && IsAck(ms[j])
    decreases ms
  {
    if ms != [] {
      ReceiveInv(e, ms[0]);
      var rest := ms[1..];
      if IsSyn(ms[0]) {
        ConnectsByAck(Receive(e, ms[0]), rest);
        assert forall j :: 0 < j < |ms| ==> ms[j] == rest[j - 1];
      } else {
        ListenerConnects(e, rest);
        if i, j :| 0 <= i < j < |ms| && IsSyn(ms[i]) && IsAck(ms[j]) {
          assert rest[i - 1] == ms[i] && rest[j - 1] == ms[j];
        }
      }
    }
  }

  /** A connecting port is connected (or past it) exactly when a SYN-ACK has come. */
  lemma {:induction false} ConnectorConnects(e: PortEntry, ms: seq<Message>)
    requires Inv(e) && e.state == WaitingSynAck
    ensures 3 <= StateNumber(Run(e, ms).state) <==> exists i :: 0 <= i < |ms| && IsSynAck(ms[i])
    decreases ms
  {
    if ms != [] {
      ReceiveInv(e, ms[0]);
      FirstOrLater(ms);
      if IsSynAck(ms[0]) {
        RunInv(Receive(e, ms[0]), ms[1..]);
      } else {
        ConnectorConnects(e, ms[1..]);
      }
    }
  }

  lemma {:induction false} ClosedForGood(e: PortEntry, ms: seq<Message>)
    requires Inv(e) && e.state == Closed
    ensures Run(e, ms) == e
    decreases ms
  {
    if ms != [] {
      ClosedForGood(e, ms[1..]);
    }
  }

  /** CLOSE_WAIT becomes CLOSED after exactly two more messages of any kind, and stays CLOSED. */
  lemma ClosesAfterTwo(e: PortEntry, ms: seq<Message>)
    requires Inv(e) && e.state == CloseWait
    ensures Run(e, ms).state == if |ms| == 0 then CloseWait else if |ms| == 1 then LastAck else Closed
  {
    if |ms| >= 2 {
      var e1 := Receive(e, ms[0]);
      var e2 := Receive(e1, ms[1]);
      assert Run(e, ms) == Run(e1, ms[1..]);
      assert Run(e1, ms[1..]) == Run(e2, ms[1..][1..]);
      ClosedForGood(e2, ms[1..][1..]);
    }
  }

  /** From tcp_listen or tcp_connect, over any messages. */
  lemma Lifecycle(ms: seq<Message>)
    ensures Inv(LISTENING) && Inv(CONNECTING)
    ensures forall e :: e in {Run(LISTENING, ms), Run(CONNECTING, ms)} ==>
      && e.state !in {FinWait1, FinWait2, Closing, TimeWait}
      && (2 <= StateNumber(e.state) ==> e.recv.Some? && e.recv.value.Valid() && e.send.Some?)
    ensures Run(CONNECTING, ms).established <==> 3 <= StateNumber(Run(CONNECTING, ms).state)
  {
    RunInv(LISTENING, ms);
    RunInv(CONNECTING, ms);
    EstablishedExactly(CONNECTING, ms);
  }

  /** What tcp_connect waits for is exactly the connection. */
  lemma {:induction false} EstablishedExactly(e: PortEntry, ms: seq<Message>)
    requires Inv(e) && e.state != WaitingSyn && e.state != WaitingAck
    requires e.established <==> 3 <= StateNumber(e.state)
    ensures Run(e, ms).established <==> 3 <= StateNumber(Run(e, ms).state)
    decreases ms
  {
    if ms != [] {
      ReceiveInv(e, ms[0]);
      EstablishedExactly(Receive(e, ms[0]), ms[1..]);
    }
  }

  // ---------- What a connection carries ----------

  lemma {:induction false} RunConcat(e: PortEntry, a: seq<Message>, b: seq<Message>)
    requires Inv(e)
    ensures Inv(Run(e, a)) && Run(e, a + b) == Run(Run(e, a), b)
    decreases a
  {
    RunInv(e, a);
    if a == [] {
      assert a + b == b;
    } else {
      ReceiveInv(e, a[0]);
      RunConcat(Receive(e, a[0]), a[1..], b);
      assert (a + b)[1..] == a[1..] + b;
    }
  }

  lemma RunOne(e: PortEntry, m: Message)
    requires Inv(e)
    ensures Run(e, [m]) == Receive(e, m)
  {
    ReceiveInv(e, m);
    assert Run(Receive(e, m), [m][1..]) == Receive(e, m);
  }

  /** A listening port ignores everything until a SYN, and from then on everything until an ACK. */
  lemma {:induction false} WaitsForSyn(e: PortEntry, ms: seq<Message>)
    requires Inv(e) && e.state == WaitingSyn && forall i :: 0 <= i < |ms| ==> !IsSyn(ms[i])
    ensures Run(e, ms) == e
    decreases ms
  {
    if ms != [] {
      WaitsForSyn(e, ms[1..]);
    }
  }

  lemma {:induction false} WaitsForSynAck(e: PortEntry, ms: seq<Message>)
    requires Inv(e) && e.state == WaitingSynAck && forall i :: 0 <= i < |ms| ==> !IsSynAck(ms[i])
    ensures Run(e, ms) == e
    decreases ms
  {
    if ms != [] {
      WaitsForSynAck(e, ms[1..]);
    }
  }

  lemma {:induction false} WaitsForAck(e: PortEntry, ms: seq<Message>)
    requires Inv(e) && e.state == WaitingAck && forall i :: 0 <= i < |ms| ==> !IsAck(ms[i])
    ensures Run(e, ms) == e
    decreases ms
  {
    if ms != [] {
      WaitsForAck(e, ms[1..]);
    }
  }

  /** The windows a SYN or SYN-ACK opens, in numbers. */
  ghost predicate Opened(e: PortEntry, m: Message)
  {
    && e.recv.Some? && e.recv.value.Valid() && e.send.Some?
    && e.recv.value.first == e.recv.value.acked == m.segment.seqNo + 1
    && (forall k :: 0 <= k < 1024 ==> !e.recv.value.bits[k])
    && e.send.value == SendWindow(1, if m.windowSize < 1024 then m.windowSize else 1024)
  }

  /** The first SYN opens the windows of a listening port, the first ACK after it connects. */
  lemma ListenerOpens(e: PortEntry, before: seq<Message>, syn: Message, between: seq<Message>, ack: Message)
    requires Inv(e) && e.state == WaitingSyn && IsSyn(syn) && IsAck(ack)
    requires forall i :: 0 <= i < |before| ==> !IsSyn(before[i])
    requires forall i :: 0 <= i < |between| ==> !IsAck(between[i])
    ensures var open := Run(e, before + [syn] + between + [ack]);
      open.state == Connected && open.established == e.established && Opened(open, syn)
  {
    hide Run;
    FreshExactly(syn.segment.seqNo);
    RunConcat(e, before + [syn] + between, [ack]);
    RunConcat(e, before + [syn], between);
    RunConcat(e, before, [syn]);
    WaitsForSyn(e, before);
    RunOne(e, syn);
    ReceiveInv(e, syn);
    WaitsForAck(Receive(e, syn), between);
    RunOne(Receive(e, syn), ack);
  }

  /** The first SYN-ACK opens the windows of a connecting port and connects. */
  lemma ConnectorOpens(e: PortEntry, before: seq<Message>, synAck: Message)
    requires Inv(e) && e.state == WaitingSynAck && IsSynAck(synAck)
    requires forall i :: 0 <= i < |before| ==> !IsSynAck(before[i])
    ensures var open := Run(e, before + [synAck]);
      open.state == Connected && open.established && Opened(open, synAck)
  {
    hide Run;
    FreshExactly(synAck.segment.seqNo);
    RunConcat(e, before, [synAck]);
    WaitsForSynAck(e, before);
    RunOne(e, synAck);
  }

  /** A window after all PSH-ACK segments among the messages, in order, and no other. */
  ghost function AllDelivered(w: Window, ms: seq<Message>): Window
    requires w.Valid()
    decreases ms
  {
    if ms == [] then w
    else if !IsPshAck(ms[0]) then AllDelivered(w, ms[1..])
    else
      DeliverValid(w, ms[0].segment);
      AllDelivered(Deliver(w, ms[0].segment), ms[1..])
  }

  /** The number of the last plain ACK among the messages, or the mark as it was. */
  function LastAckNumber(mark: nat, ms: seq<Message>): nat
  {
    if ms == [] then mark
    else if IsAck(ms[|ms| - 1]) then ms[|ms| - 1].ackNumber else LastAckNumber(mark, ms[..|ms| - 1])
  }

  lemma {:induction false} LastAckNext(mark: nat, ms: seq<Message>)
    requires ms != []
    ensures LastAckNumber(mark, ms) == LastAckNumber(if IsAck(ms[0]) then ms[0].ackNumber else mark, ms[1..])
  {
    if |ms| > 1 && !IsAck(ms[|ms| - 1]) {
      LastAckNext(mark, ms[..|ms| - 1]);
      assert ms[..|ms| - 1][1..] == ms[1..][..|ms| - 2];
    }
  }

  /** Until a FIN-ACK comes, a connected port takes in every PSH-ACK segment, keeps the number of the last
      ACK, and does nothing else. */
  lemma {:induction false} ConnectedCarries(e: PortEntry, ms: seq<Message>)
    requires Inv(e) && e.state == Connected && forall i :: 0 <= i < |ms| ==> !IsFinAck(ms[i])
    ensures Run(e, ms) == PortEntry(Connected, e.established, Some(AllDelivered(e.recv.value, ms)),
                                    Some(SendWindow(LastAckNumber(e.send.value.acked, ms), e.send.value.size)))
    decreases ms
  {
    if ms != [] {
      ReceiveInv(e, ms[0]);
      LastAckNext(e.send.value.acked, ms);
      ConnectedCarries(Receive(e, ms[0]), ms[1..]);
    }
  }

  /** From CLOSE_WAIT on nothing changes but the state. */
  lemma {:induction false} ClosedCarriesNothing(e: PortEntry, ms: seq<Message>)
    requires Inv(e) && 8 <= StateNumber(e.state)
    ensures Run(e, ms) == e.(state := Run(e, ms).state) && 8 <= StateNumber(Run(e, ms).state)
    decreases ms
  {
    if ms != [] {
      ReceiveInv(e, ms[0]);
      ClosedCarriesNothing(Receive(e, ms[0]), ms[1..]);
    }
  }

  /** The first FIN-ACK ends what a connection carries. */
  lemma FinAckEnds(e: PortEntry, before: seq<Message>, fin: Message, after: seq<Message>)
    requires Inv(e) && e.state == Connected && IsFinAck(fin)
    requires forall i :: 0 <= i < |before| ==> !IsFinAck(before[i])
    ensures var last := Run(e, before + [fin] + after);
      && 8 <= StateNumber(last.state) && (after == [] ==> last.state == CloseWait)
      && last.recv == Run(e, before).recv && last.send == Run(e, before).send
  {
    hide Run;
    RunConcat(e, before + [fin], after);
    RunConcat(e, before, [fin]);
    ConnectedCarries(e, before);
    RunOne(Run(e, before), fin);
    ReceiveInv(Run(e, before), fin);
    ClosedCarriesNothing(Receive(Run(e, before), fin), after);
    assert after == [] ==> Run(Receive(Run(e, before), fin), after) == Receive(Run(e, before), fin) by {
      RunNone(Receive(Run(e, before), fin));
    }
  }

  lemma RunNone(e: PortEntry)
    requires Inv(e)
    ensures Run(e, []) == e
  {
  }

  /** A connected port reaches CLOSE_WAIT or beyond if and only if a FIN-ACK has come. */
  lemma {:induction false} ClosesByFinAck(e: PortEntry, ms: seq<Message>)
    requires Inv(e) && e.state == Connected
    ensures 8 <= StateNumber(Run(e, ms).state) <==> exists i :: 0 <= i < |ms| && IsFinAck(ms[i])
    decreases ms
  {
    if ms != [] {
      ReceiveInv(e, ms[0]);
      assert forall i :: 0 < i < |ms| ==> ms[i] == ms[1..][i - 1];
      if IsFinAck(ms[0]) {
        RunInv(Receive(e, ms[0]), ms[1..]);
      } else {
        ClosesByFinAck(Receive(e, ms[0]), ms[1..]);
      }
    }
  }

  // ---------- The port updated in place ----------

  class Port {
    var state: State
    var established: bool
    var recvWindow: RecvWindow?
    var sendWindow: Option<SendWindow>

    ghost function Repr(): set<object>
      reads this, recvWindow
    {
      if recvWindow == null then {this} else {this, recvWindow, recvWindow.bitmap, recvWindow.buffer}
    }

    ghost predicate Valid()
      reads Repr()
    {
      && (recvWindow != null ==> recvWindow.Valid())
      && Inv(Value())
    }

    ghost function Value(): PortEntry
      reads Repr()
    {
      PortEntry(state, established, if recvWindow == null then None else Some(recvWindow.Value()), sendWindow)
    }

    constructor ()
      ensures Valid() && Value() == LISTENING && fresh(Repr())
    {
      state, established, recvWindow, sendWindow := WaitingSyn, false, null, None;
    }

    /** tcp_init_window, on memory that is zero. */
    method InitWindow(sequenceNumber: nat, windowSize: nat)
      modifies this`recvWindow, this`sendWindow
      ensures recvWindow != null && fresh(recvWindow) && fresh(recvWindow.bitmap) && fresh(recvWindow.buffer)
      ensures recvWindow.Valid() && recvWindow.Value() == FreshWindow(sequenceNumber)
      ensures sendWindow == Some(SendWindow(1, Min(windowSize, WINDOW_SIZE)))
    {
      var zeros := seq(128, _ => 0);
      ZeroView(zeros);
      recvWindow := new RecvWindow(sequenceNumber, zeros, seq(WINDOW_SIZE, _ => 0));
      if windowSize < WINDOW_SIZE {
        sendWindow := Some(SendWindow(1, windowSize));
      } else {
        sendWindow := Some(SendWindow(1, WINDOW_SIZE));
      }
    }

    /** tcp_recv_segment.  The demands are those of the data branch: no 32-bit sum wraps. */
    method RecvSegment(m: Message)
      requires Valid()
      requires state == Connected && IsPshAck(m) ==>
        1 <= m.segment.seqNo + |m.segment.data| < U32_LIMIT && recvWindow.firstWindowByte + WINDOW_SIZE < U32_LIMIT
      modifies Repr()
      ensures Valid() && Value() == Receive(old(Value()), m)
    {
      ReceiveInv(Value(), m);
      match state {
        case WaitingSyn =>
          if IsSyn(m) {
            state := WaitingAck;
            InitWindow(m.segment.seqNo, m.windowSize);
          }
        case WaitingSynAck =>
          if IsSynAck(m) {
            state := Connected;
            established := true;
            InitWindow(m.segment.seqNo, m.windowSize);
          }
        case WaitingAck =>
          if IsAck(m) {
            state := Connected;
          }
        case Connected =>
          if IsAck(m) {
            sendWindow := Some(sendWindow.value.(acked := m.ackNumber));
          } else if IsPshAck(m) {
            var reply := recvWindow.Receive(m.segment);
          } else if IsFinAck(m) {
            state := CloseWait;
          }
        case CloseWait => state := LastAck;
        case LastAck => state := Closed;
        case Closed =>
      }
    }
  }
}
