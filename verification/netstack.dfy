/** Sending and receiving through UDP, ICMP, IPv4 and Ethernet (src/network/udp.c, icmp.c, ip.c and
    ethernet.c): what goes on the wire, what comes off it, and what happens to the heap on the way.

    Where the kernel would go on with a null pointer after a failed allocation, the methods stop and
    answer `ok == false`.  One send or receive is one step: nothing else runs in between. */
module NetStack {
  import opened Bitmap
  import opened Codec
  import opened Checksum
  import opened Headers
  import opened KernelHeap
  import opened FrameQueue

  const ETHER_HEADER: nat := 14
  const IPV4_HEADER: nat := 20
  const UDP_HEADER: nat := 8
  const ICMP_HEADER: nat := 8
  const SIZEOF_ETHER_FRAME: nat := 18
  const SIZEOF_IPV4_PACKET: nat := 24
  const SIZEOF_UDP_SEGMENT: nat := 12
  const SIZEOF_ICMP4: nat := 12
  const PROTOCOL_ICMP4: nat := 1
  const PROTOCOL_TCP: nat := 6
  const PROTOCOL_UDP: nat := 17
  const ETHER_TYPE_IPV4: nat := 0x0008   // as it lies in memory: 08 00
  const ETHER_TYPE_ARP: nat := 0x0608

  // ---------- Integers in memory ----------

  function Pack(a: bool, b: bool, c: bool, d: bool, e: bool, f: bool, g: bool, h: bool): byte
  {
    (if a then 128 else 0) | (if b then 64 else 0) | (if c then 32 else 0) | (if d then 16 else 0) |
    (if e then 8 else 0) | (if f then 4 else 0) | (if g then 2 else 0) | (if h then 1 else 0)
  }

  lemma PackedBits(a: bool, b: bool, c: bool, d: bool, e: bool, f: bool, g: bool, h: bool)
    ensures var x := Pack(a, b, c, d, e, f, g, h);
      && Bit(x, 7) == a && Bit(x, 6) == b && Bit(x, 5) == c && Bit(x, 4) == d
      && Bit(x, 3) == e && Bit(x, 2) == f && Bit(x, 1) == g && Bit(x, 0) == h
  {
  }

  /** The low byte of a number. */
  function ToByte(v: nat): byte
  {
    var bits := FieldBits(v, 8);
    Pack(bits[0], bits[1], bits[2], bits[3], bits[4], bits[5], bits[6], bits[7])
  }

  lemma ToByteBits(v: nat)
    ensures HeaderBits([ToByte(v)]) == FieldBits(v, 8)
  {
    hide Bit, Pack, FieldBits, HeaderBits;
    var bits := FieldBits(v, 8);
    PackedBits(bits[0], bits[1], bits[2], bits[3], bits[4], bits[5], bits[6], bits[7]);
    OneByteBits(ToByte(v));
    Eight(bits);
  }

  lemma Eight(bits: seq<bool>)
    requires |bits| == 8
    ensures bits == [bits[0], bits[1], bits[2], bits[3], bits[4], bits[5], bits[6], bits[7]]
  {
  }

  lemma ToByteVal(v: nat)
    ensures Val(ToByte(v)) == v % 256
  {
    hide ToByte, Val, Number, FieldBits, Pow2, HeaderBits;
    ByteNumber(ToByte(v));
    ToByteBits(v);
    NumberFieldBits(v, 8);
    FieldWidths();
  }

  /** A 16-bit variable copied byte by byte: low byte first. */
  function Short(v: nat): seq<byte> { [ToByte(v), ToByte(v / 256)] }

  function LoadShort(bytes: seq<byte>): nat
    requires 2 <= |bytes|
  {
    Val(bytes[0]) + 256 * Val(bytes[1])
  }

  lemma ShortRoundTrip(v: nat)
    requires v < 0x10000
    ensures LoadShort(Short(v)) == v
  {
    hide ToByte, Val;
    ToByteVal(v);
    ToByteVal(v / 256);
    TwoBytes(v);
  }

  lemma TwoBytes(v: nat)
    requires v < 0x10000
    ensures v % 256 + 256 * (v / 256 % 256) == v
  {
  }

  lemma NtohsTwice(v: nat)
    requires v < 0x10000
    ensures Ntohs(v) < 0x10000 && Ntohs(Ntohs(v)) == v
  {
    var hi, lo := v / 256, v % 256;
    assert Ntohs(v) == lo * 256 + hi;
    assert Ntohs(v) / 256 == lo && Ntohs(v) % 256 == hi;
  }

  // ---------- What is on the wire ----------

  predicate IsMac(mac: seq<byte>) { |mac| == 6 }

  /** ethernet_to_array of a frame built by build_ether_frame. */
  function EthernetFrame(destination: seq<byte>, source: seq<byte>, etherType: nat, data: seq<byte>): seq<byte>
  {
    destination + source + Short(etherType) + data
  }

  function Ipv4For(length: nat, dscp: nat, ecn: nat, protocol: nat, source: nat, destination: nat): Ipv4
  {
    Ipv4(4, 5, dscp, ecn, length, 0, 0, 0, 64, protocol, source, destination)
  }

  ghost predicate IsIpv4Packet(packet: seq<byte>, h: Ipv4, data: seq<byte>)
  {
    |packet| == IPV4_HEADER + |data| && HeaderBits(packet[..IPV4_HEADER]) == Ipv4Header(h) && packet[IPV4_HEADER..] == data
  }

  /** udp_to_array of a segment built by build_udp_segment; ports are copied as given. */
  function UdpSegment(sourcePort: nat, destinationPort: nat, checksum: nat, data: seq<byte>): seq<byte>
  {
    UdpHeader(sourcePort, destinationPort, |data|, checksum) + data
  }

  function UdpHeader(sourcePort: nat, destinationPort: nat, dataSize: nat, checksum: nat): (header: seq<byte>)
    ensures |header| == UDP_HEADER
  {
    Short(sourcePort) + Short(destinationPort) + Short(Ntohs((UDP_HEADER + dataSize) % 0x10000)) + Short(Ntohs(checksum))
  }

  function IcmpHeader(kind: nat, code: nat, rest: seq<byte>, checksum: nat): (header: seq<byte>)
    requires |rest| == 4
    ensures |header| == ICMP_HEADER
  {
    [ToByte(kind), ToByte(code)] + Short(Ntohs(checksum)) + rest
  }

  // ---------- Heap book-keeping ----------

  function Plus(live: Blocks, a: nat, size: nat): Blocks { if size == 0 then live else live[a := size] }

  function Minus(live: Blocks, a: nat, size: nat): Blocks { if size == 0 then live else live - {a} }

  /** The effect of a send: one more live block, the queued copy of the frame, or nothing at all if the
      queue was full. */
  ghost predicate Sent(live: Blocks, live': Blocks, queue: seq<Frame>, queue': seq<Frame>, bytes: seq<byte>)
  {
    if |queue| == QUEUE_SIZE - 1 then live' == live && queue' == queue
    else exists a :: a !in live && live' == live[a := |bytes|] && queue' == queue + [Frame(a, bytes)]
  }

  lemma UncoveredAfterFree(bits: seq<bool>, live: Blocks, a: nat, b: nat, x: nat)
    requires Accounts(bits, live) && a in live && a <= x < a + live[a]
    requires b in live && b != a
    ensures !(b <= x < b + live[b])
  {
  }

  predicate Holds(live: Blocks, a: nat, size: nat) { size == 0 || (a in live && live[a] == size) }

  /** A struct, its data and the serialized array have been allocated, in this order. */
  ghost predicate Stacked(live: Blocks, a: nat, aSize: nat, b: nat, bSize: nat, c: nat, cSize: nat, live3: Blocks)
  {
    && 0 < aSize && 0 < cSize
    && a !in live && (0 < bSize ==> b !in live[a := aSize]) && c !in Plus(live[a := aSize], b, bSize)
    && live3 == Plus(live[a := aSize], b, bSize)[c := cSize]
  }

  /** Freed again as data, struct, array, they leave behind only what was added meanwhile. */
  lemma Unstack(live: Blocks, a: nat, aSize: nat, b: nat, bSize: nat, c: nat, cSize: nat, live3: Blocks, kept: Blocks)
    requires Stacked(live, a, aSize, b, bSize, c, cSize, live3)
    requires forall x :: x in kept ==> x !in live3
    ensures Holds(live3 + kept, b, bSize)
    ensures Holds(Minus(live3 + kept, b, bSize), a, aSize)
    ensures Holds(Minus(Minus(live3 + kept, b, bSize), a, aSize), c, cSize)
    ensures Minus(Minus(Minus(live3 + kept, b, bSize), a, aSize), c, cSize) == live + kept
    ensures forall x :: x in kept ==> x !in live
  {
    hide Minus, Holds, Plus;
    StackedKeys(live, a, aSize, b, bSize, c, cSize, live3);
    var live0a, live0c := live[a := aSize], live[c := cSize];
    Swap(live0a, b, bSize, c, cSize);
    Over(live0a[c := cSize], kept, b, bSize);
    Drop(live0a[c := cSize] + kept, b, bSize);
    PlusIs(live, a, aSize);
    Swap(live, a, aSize, c, cSize);
    Over(live0c, kept, a, aSize);
    Drop(live0c + kept, a, aSize);
    PlusIs(live, c, cSize);
    Over(live, kept, c, cSize);
    Drop(live + kept, c, cSize);
  }

  lemma StackedKeys(live: Blocks, a: nat, aSize: nat, b: nat, bSize: nat, c: nat, cSize: nat, live3: Blocks)
    requires Stacked(live, a, aSize, b, bSize, c, cSize, live3)
    ensures a in live3 && c in live3 && a != c && c !in live && a !in live
    ensures 0 < bSize ==> b in live3 && b !in live && b != a && b != c
    ensures forall x :: x in live ==> x in live3
  {
  }

  lemma PlusIs(live: Blocks, a: nat, size: nat)
    requires 0 < size
    ensures Plus(live, a, size) == live[a := size]
  {
  }

  lemma Swap(live: Blocks, b: nat, bSize: nat, c: nat, cSize: nat)
    requires 0 < bSize ==> b != c
    ensures Plus(live, b, bSize)[c := cSize] == Plus(live[c := cSize], b, bSize)
  {
  }

  lemma Over(live: Blocks, kept: Blocks, b: nat, bSize: nat)
    requires 0 < bSize ==> b !in kept
    ensures Plus(live, b, bSize) + kept == Plus(live + kept, b, bSize)
  {
  }

  lemma Drop(live: Blocks, a: nat, size: nat)
    requires 0 < size ==> a !in live
    ensures Holds(Plus(live, a, size), a, size) && Minus(Plus(live, a, size), a, size) == live
  {
  }

  /** The same when the array is gone already. */
  lemma UnstackGone(live: Blocks, a: nat, aSize: nat, b: nat, bSize: nat, c: nat, cSize: nat, live3: Blocks)
    requires Stacked(live, a, aSize, b, bSize, c, cSize, live3)
    ensures Holds(live3 - {c}, b, bSize)
    ensures Holds(Minus(live3 - {c}, b, bSize), a, aSize)
    ensures Minus(Minus(live3 - {c}, b, bSize), a, aSize) == live && c !in live
    ensures c in live3 && live3[c] == cSize
    ensures forall x :: x in live ==> x in live3 && live3[x] == live[x]
  {
  }

  /** A struct and its data come and go. */
  lemma BalanceTwo(live: Blocks, a: nat, aSize: nat, b: nat, bSize: nat)
    requires 0 < aSize && a !in live && (0 < bSize ==> b !in Plus(live, a, aSize))
    ensures var live2 := Plus(Plus(live, a, aSize), b, bSize);
      Holds(live2, b, bSize) && Holds(Minus(live2, b, bSize), a, aSize) && Minus(Minus(live2, b, bSize), a, aSize) == live
  {
  }

  /** No block that was live has been freed. */
  ghost predicate StillLive(live: Blocks, live': Blocks)
  {
    forall a :: a in live ==> a in live' && live'[a] == live[a]
  }

  /** The same around code that frees nothing of its caller's. */
  lemma BalanceAround(live: Blocks, a: nat, aSize: nat, b: nat, bSize: nat, now: Blocks)
    requires 0 < aSize && a !in live && (0 < bSize ==> b !in Plus(live, a, aSize))
    requires StillLive(Plus(Plus(live, a, aSize), b, bSize), now)
    ensures Holds(now, b, bSize) && Holds(Minus(now, b, bSize), a, aSize)
    ensures StillLive(live, Minus(Minus(now, b, bSize), a, aSize))
    ensures now == Plus(Plus(live, a, aSize), b, bSize) ==> Minus(Minus(now, b, bSize), a, aSize) == live
  {
    assert 0 < bSize ==> a != b;
  }

  /** The blocks a send adds. */
  function Kept(queue: seq<Frame>, queue': seq<Frame>, bytes: seq<byte>): Blocks
  {
    if |queue| == QUEUE_SIZE - 1 || queue' == [] then map[] else map[queue'[|queue'| - 1].addr := |bytes|]
  }

  /** Sent, with the blocks spelled out. */
  lemma SentKept(live: Blocks, live': Blocks, queue: seq<Frame>, queue': seq<Frame>, bytes: seq<byte>)
    ensures Sent(live, live', queue, queue', bytes) <==>
      && live' == live + Kept(queue, queue', bytes)
      && (forall x :: x in Kept(queue, queue', bytes) ==> x !in live)
      && (if |queue| == QUEUE_SIZE - 1 then queue' == queue
          else queue' != [] && queue' == queue + [Frame(queue'[|queue'| - 1].addr, bytes)])
  {
    if |queue| != QUEUE_SIZE - 1 {
      if queue' != [] && queue' == queue + [Frame(queue'[|queue'| - 1].addr, bytes)] {
        var a := queue'[|queue'| - 1].addr;
        assert live + Kept(queue, queue', bytes) == live[a := |bytes|];
        assert a in Kept(queue, queue', bytes);
      }
      if a :| a !in live && live' == live[a := |bytes|] && queue' == queue + [Frame(a, bytes)] {
        assert queue'[|queue'| - 1].addr == a;
      }
    }
  }

  /** In the bitmap: a send marks exactly the bytes of one free run as long as the frame, or nothing. */
  lemma SentBitmap(bits: seq<bool>, bits': seq<bool>, live: Blocks, live': Blocks,
                   queue: seq<Frame>, queue': seq<Frame>, bytes: seq<byte>)
    requires Accounts(bits, live) && Accounts(bits', live') && Sent(live, live', queue, queue', bytes)
    ensures |queue| == QUEUE_SIZE - 1 ==> bits' == bits
    ensures |queue| != QUEUE_SIZE - 1 ==>
      exists r: nat :: FreeRun(bits, r, |bytes|) && bits' == Filled(bits, r, |bytes|, true)
  {
    hide Accounts, FreeRun, Filled;
    if |queue| == QUEUE_SIZE - 1 {
      LiveDeterminesBits(bits, bits', live);
    } else {
      var a: nat :| a !in live && live' == live[a := |bytes|] && queue' == queue + [Frame(a, bytes)];
      NewBlockFree(bits, bits', live, live', a);
      var r := a - HEAP_BASE;
      MallocAccounts(bits, live, r, |bytes|);
      LiveDeterminesBits(Filled(bits, r, |bytes|, true), bits', live');
    }
  }

  /** A block added to a consistent heap lies where everything was free. */
  lemma NewBlockFree(bits: seq<bool>, bits': seq<bool>, live: Blocks, live': Blocks, a: nat)
    requires Accounts(bits, live) && Accounts(bits', live')
    requires a !in live && a in live' && live' == live[a := live'[a]]
    ensures HEAP_BASE <= a && 0 < live'[a] && FreeRun(bits, a - HEAP_BASE, live'[a])
  {
    forall p | a - HEAP_BASE <= p < a - HEAP_BASE + live'[a]
      ensures !bits[p]
    {
      forall b | b in live
        ensures !(b <= HEAP_BASE + p < b + live[b])
      {
        assert b in live' && live'[b] == live[b];
      }
    }
  }

  /** The frees of a layer after the layer below has sent: what is left is what the lower layer added. */
  lemma LayerBalance(live: Blocks, a: nat, aSize: nat, b: nat, bSize: nat, c: nat, cSize: nat, live3: Blocks,
                     live4: Blocks, queue: seq<Frame>, queue': seq<Frame>, bytes: seq<byte>)
    requires Stacked(live, a, aSize, b, bSize, c, cSize, live3) && Sent(live3, live4, queue, queue', bytes)
    ensures Holds(live4, b, bSize)
    ensures Holds(Minus(live4, b, bSize), a, aSize)
    ensures Holds(Minus(Minus(live4, b, bSize), a, aSize), c, cSize)
    ensures Sent(live, Minus(Minus(Minus(live4, b, bSize), a, aSize), c, cSize), queue, queue', bytes)
  {
    hide Sent, Minus, Stacked, Kept;
    var kept := Kept(queue, queue', bytes);
    SentKept(live3, live4, queue, queue', bytes);
    Unstack(live, a, aSize, b, bSize, c, cSize, live3, kept);
    SentKept(live, live + kept, queue, queue', bytes);
  }

  /** The frees of send_ethernet_frame, where a full queue has already freed the array. */
  lemma FrameBalance(live: Blocks, a: nat, aSize: nat, b: nat, bSize: nat, c: nat, cSize: nat, live3: Blocks,
                     live4: Blocks, queue: seq<Frame>, queue': seq<Frame>, bytes: seq<byte>)
    requires Stacked(live, a, aSize, b, bSize, c, cSize, live3)
    requires if |queue| == QUEUE_SIZE - 1 then live4 == live3 - {c} && queue' == queue
             else Sent(live3, live4, queue, queue', bytes)
    ensures Holds(live4, b, bSize)
    ensures Holds(Minus(live4, b, bSize), a, aSize)
    ensures Sent(live, Minus(Minus(live4, b, bSize), a, aSize) - {c}, queue, queue', bytes)
    ensures Freeable(Minus(Minus(live4, b, bSize), a, aSize), c, cSize, live3)
  {
    hide Minus, Stacked, Sent;
    assert 0 < cSize by { StackedSize(live, a, aSize, b, bSize, c, cSize, live3); }
    if |queue| == QUEUE_SIZE - 1 {
      UnstackGone(live, a, aSize, b, bSize, c, cSize, live3);
      SentNothing(live, queue, bytes);
      assert live - {c} == live;
    } else {
      LayerBalance(live, a, aSize, b, bSize, c, cSize, live3, live4, queue, queue', bytes);
      MinusIs(Minus(Minus(live4, b, bSize), a, aSize), c, cSize);
    }
  }

  lemma StackedSize(live: Blocks, a: nat, aSize: nat, b: nat, bSize: nat, c: nat, cSize: nat, live3: Blocks)
    requires Stacked(live, a, aSize, b, bSize, c, cSize, live3)
    ensures 0 < cSize
  {
  }

  lemma MinusIs(live: Blocks, a: nat, size: nat)
    requires 0 < size
    ensures Minus(live, a, size) == live - {a}
  {
  }

  lemma SentNothing(live: Blocks, queue: seq<Frame>, bytes: seq<byte>)
    requires |queue| == QUEUE_SIZE - 1
    ensures Sent(live, live, queue, queue, bytes)
  {
  }

  /** The block is live, or it was in `live3` and only blocks of `live3` are left. */
  predicate Freeable(live: Blocks, a: nat, size: nat, live3: Blocks)
  {
    (a in live && live[a] == size) ||
    (a in live3 && live3[a] == size && a !in live && forall b :: b in live ==> b in live3 && live3[b] == live[b])
  }

  class Stack {
    const heap: Heap
    const ring: FrameRing   // nht_send_queue
    const mac: seq<byte>
    const ip: nat

    ghost predicate Valid()
      reads this, heap, heap.bitset, ring, ring.slots
    {
      heap.Valid() && ring.Valid() && IsMac(mac)
    }

    constructor (mac: seq<byte>, ip: nat)
      requires IsMac(mac)
      ensures Valid() && heap.live == map[] && ring.Contents() == []
    {
      heap := new Heap();
      ring := new FrameRing();
      this.mac, this.ip := mac, ip;
    }

    method Alloc(size: nat) returns (addr: nat, ok: bool)
      requires Valid()
      modifies heap`live, heap.bitset
      ensures Valid() && ring.Contents() == old(ring.Contents())
      ensures !ok ==> heap.live == old(heap.live)
      ensures ok ==> heap.live == Plus(old(heap.live), addr, size) && (0 < size ==> addr !in old(heap.live))
    {
      addr := heap.Kmalloc(size, false);
      ok := size == 0 || addr != 0;
    }

    method Release(addr: nat, size: nat)
      requires Valid()
      requires size == 0 || (addr in heap.live && heap.live[addr] == size)
      modifies heap`live, heap.bitset
      ensures Valid() && ring.Contents() == old(ring.Contents())
      ensures heap.live == Minus(old(heap.live), addr, size)
    {
      assert forall a :: a in heap.live ==> 0 < heap.live[a];
      heap.Kfree(addr, size);
    }

    /** nht_enqueue_send_frame: the frame itself is freed if the queue is full, and copied otherwise. */
    method EnqueueSendFrame(frame: nat, bytes: seq<byte>) returns (ok: bool)
      requires Valid() && bytes != [] && frame in heap.live && heap.live[frame] == |bytes|
      modifies heap`live, heap.bitset, ring`push, ring.slots
      ensures Valid()
      ensures |old(ring.Contents())| == QUEUE_SIZE - 1 ==>
        ok && heap.live == old(heap.live) - {frame} && ring.Contents() == old(ring.Contents())
      ensures |old(ring.Contents())| < QUEUE_SIZE - 1 && ok ==>
        Sent(old(heap.live), heap.live, old(ring.Contents()), ring.Contents(), bytes)
    {
      var full := ring.IsFull();
      if full {
        Release(frame, |bytes|);
        return true;
      }
      var copy;
      copy, ok := Alloc(|bytes|);
      if ok {
        ring.Push(Frame(copy, bytes));
      }
    }

    /** kfree of an array that EnqueueSendFrame may already have freed: the second time is harmless as
        long as its bytes belong to nobody, which is so while nothing was allocated in between. */
    method ReleaseAgain(addr: nat, size: nat, ghost bits: seq<bool>, ghost live: Blocks)
      requires Valid() && Accounts(bits, live) && Freeable(heap.live, addr, size, live)
      modifies heap`live, heap.bitset
      ensures Valid() && ring.Contents() == old(ring.Contents())
      ensures heap.live == old(heap.live) - {addr}
    {
      if addr !in heap.live {
        forall x | addr <= x < addr + size
          ensures !Covered(heap.live, x)
        {
          forall b | b in heap.live
            ensures !(b <= x < b + heap.live[b])
          {
            UncoveredAfterFree(bits, live, addr, b, x);
          }
        }
      }
      heap.Kfree(addr, size);
    }

    /** send_ethernet_frame. */
    method SendEthernet(destination: seq<byte>, data: seq<byte>, etherType: nat) returns (ok: bool)
      requires Valid() && IsMac(destination)
      modifies heap`live, heap.bitset, ring`push, ring.slots
      ensures Valid()
      ensures ok ==> Sent(old(heap.live), heap.live, old(ring.Contents()), ring.Contents(),
                          EthernetFrame(destination, mac, etherType, data))
    {
      hide EthernetFrame, Accounts, Minus, Sent, Freeable;
      ghost var live0, queue0 := heap.live, ring.Contents();
      var frame, frameData, wire;
      frame, ok := Alloc(SIZEOF_ETHER_FRAME);
      if !ok { return; }
      frameData, ok := Alloc(|data|);
      if !ok { return; }
      var bytes := EthernetFrame(destination, mac, etherType, data);
      FrameSize(destination, mac, etherType, data);
      wire, ok := Alloc(|data| + ETHER_HEADER);
      if !ok { return; }
      ghost var live3, bits3 := heap.live, heap.Bits();
      ok := EnqueueSendFrame(wire, bytes);
      if !ok { return; }
      FrameBalance(live0, frame, SIZEOF_ETHER_FRAME, frameData, |data|, wire, |data| + ETHER_HEADER, live3,
                   heap.live, queue0, ring.Contents(), bytes);
      Release(frameData, |data|);
      Release(frame, SIZEOF_ETHER_FRAME);
      ReleaseAgain(wire, ETHER_HEADER + |data|, bits3, live3);
    }

    /** build_ipv4_packet and ipv4_to_array. */
    method Ipv4Bytes(h: Ipv4, data: seq<byte>) returns (bytes: seq<byte>)
      ensures IsIpv4Packet(bytes, h, data) && |bytes| == IPV4_HEADER + |data|
    {
      hide HeaderBits, Ipv4Header;
      var header := new byte[IPV4_HEADER];
      BuildIpv4(header, h);
      bytes := header[..] + data;
      assert bytes[..IPV4_HEADER] == header[..];
    }

    /** send_ipv4_packet.  `frame` is what send_ethernet_frame is made to queue. */
    method SendIpv4(destination: nat, toMac: seq<byte>, data: seq<byte>, dscp: nat, ecn: nat, protocol: nat)
      returns (ok: bool, ghost frame: seq<byte>)
      requires Valid() && IsMac(toMac)
      modifies heap`live, heap.bitset, ring`push, ring.slots
      ensures Valid()
      ensures ok ==> IsIpv4Frame(frame, toMac, mac, Ipv4For(|data| + IPV4_HEADER, dscp, ecn, protocol, ip, destination), data)
      ensures ok ==> Sent(old(heap.live), heap.live, old(ring.Contents()), ring.Contents(), frame)
    {
      hide EthernetFrame, Accounts, Minus, Sent, IsIpv4Packet, Ipv4For;
      ghost var live0, queue0 := heap.live, ring.Contents();
      frame := [];
      var packet, packetData, wire;
      packet, ok := Alloc(SIZEOF_IPV4_PACKET);
      if !ok { return; }
      packetData, ok := Alloc(|data|);
      if !ok { return; }
      var bytes := Ipv4Bytes(Ipv4For(|data| + IPV4_HEADER, dscp, ecn, protocol, ip, destination), data);
      wire, ok := Alloc(|data| + IPV4_HEADER);
      if !ok { return; }
      ghost var live3 := heap.live;
      ok := SendEthernet(toMac, bytes, ETHER_TYPE_IPV4);
      if !ok { return; }
      frame := EthernetFrame(toMac, mac, ETHER_TYPE_IPV4, bytes);
      FrameParts(toMac, mac, ETHER_TYPE_IPV4, bytes);
      LayerBalance(live0, packet, SIZEOF_IPV4_PACKET, packetData, |data|, wire, |data| + IPV4_HEADER, live3,
                   heap.live, queue0, ring.Contents(), frame);
      Release(packetData, |data|);
      Release(packet, SIZEOF_IPV4_PACKET);
      Release(wire, IPV4_HEADER + |data|);
    }

    /** udp_send_segment.  The heap ends up with one more block, the queued frame: the payload plus
        8 + 20 + 14 header bytes; or unchanged, if the queue is full. */
    method SendUdp(sourcePort: nat, destinationPort: nat, destination: nat, toMac: seq<byte>, data: seq<byte>)
      returns (ok: bool, ghost frame: seq<byte>)
      requires Valid() && IsMac(toMac) && |data| <= 0xffff
      modifies heap`live, heap.bitset, ring`push, ring.slots
      ensures Valid()
      ensures ok ==> IsUdpFrame(frame, toMac, mac, ip, destination, sourcePort, destinationPort, data)
      ensures ok ==> Sent(old(heap.live), heap.live, old(ring.Contents()), ring.Contents(), frame)
    {
      hide Accounts, Minus, Sent, HeaderBits, PseudoHeader, UdpHeader, IsIpv4Frame, AllWords, Complement, Ipv4For;
      ghost var live0, queue0 := heap.live, ring.Contents();
      frame := [];
      var pseudo := new byte[12];
      BuildPseudo(pseudo, ip, destination, 0, PROTOCOL_UDP, |data| + UDP_HEADER);
      var segment, segmentData, wire;
      segment, ok := Alloc(SIZEOF_UDP_SEGMENT);
      if !ok { return; }
      segmentData, ok := Alloc(|data|);
      if !ok { return; }
      var checksum := InternetChecksum(UdpHeader(sourcePort, destinationPort, |data|, 0), data, pseudo[..]);
      var bytes := UdpSegment(sourcePort, destinationPort, checksum, data);
      wire, ok := Alloc(UDP_HEADER + |data|);
      if !ok { return; }
      ghost var live3 := heap.live;
      ok, frame := SendIpv4(destination, toMac, bytes, 0, 0, PROTOCOL_UDP);
      if !ok { return; }
      assert IsUdpFrame(frame, toMac, mac, ip, destination, sourcePort, destinationPort, data) by {
        assert checksum == UdpChecksum(ip, destination, sourcePort, destinationPort, data);
      }
      LayerBalance(live0, segment, SIZEOF_UDP_SEGMENT, segmentData, |data|, wire, UDP_HEADER + |data|, live3,
                   heap.live, queue0, ring.Contents(), frame);
      Release(segmentData, |data|);
      Release(segment, SIZEOF_UDP_SEGMENT);
      Release(wire, UDP_HEADER + |data|);
    }

    /** send_icmp4_packet. */
    method SendIcmp(destination: nat, toMac: seq<byte>, kind: nat, code: nat, rest: seq<byte>, data: seq<byte>)
      returns (ok: bool, ghost frame: seq<byte>)
      requires Valid() && IsMac(toMac) && |rest| == 4 && |data| <= 0xffff
      modifies heap`live, heap.bitset, ring`push, ring.slots
      ensures Valid()
      ensures ok ==> IsIcmpFrame(frame, toMac, mac, ip, destination, kind, code, rest, data)
      ensures ok ==> Sent(old(heap.live), heap.live, old(ring.Contents()), ring.Contents(), frame)
    {
      hide Accounts, Minus, Sent, HeaderBits, IcmpHeader, IsIpv4Frame, AllWords, Complement, Ipv4For;
      ghost var live0, queue0 := heap.live, ring.Contents();
      frame := [];
      var icmp, icmpData, wire;
      icmp, ok := Alloc(SIZEOF_ICMP4);
      if !ok { return; }
      icmpData, ok := Alloc(|data|);
      if !ok { return; }
      var checksum := InternetChecksum(IcmpHeader(kind, code, rest, 0), data, []);
      var bytes := IcmpHeader(kind, code, rest, checksum) + data;
      wire, ok := Alloc(|data| + ICMP_HEADER);
      if !ok { return; }
      ghost var live3 := heap.live;
      ok, frame := SendIpv4(destination, toMac, bytes, 0, 0, PROTOCOL_ICMP4);
      if !ok { return; }
      assert IsIcmpFrame(frame, toMac, mac, ip, destination, kind, code, rest, data) by {
        assert checksum == IcmpChecksum(kind, code, rest, data);
      }
      LayerBalance(live0, icmp, SIZEOF_ICMP4, icmpData, |data|, wire, |data| + ICMP_HEADER, live3,
                   heap.live, queue0, ring.Contents(), frame);
      Release(icmpData, |data|);
      Release(icmp, SIZEOF_ICMP4);
      Release(wire, ICMP_HEADER + |data|);
    }

    /** udp_recv_segment, up to the hand-over to the port table. */
    method RecvUdp(from: nat, fromMac: seq<byte>, data: seq<byte>, size: nat) returns (ok: bool, delivery: Option<Delivery>)
      requires Valid() && UDP_HEADER <= size <= |data|
      modifies heap`live, heap.bitset
      ensures Valid() && ring.Contents() == old(ring.Contents())
      ensures ok ==> heap.live == old(heap.live)
      ensures ok ==> delivery == Some(Delivery(Ntohs(LoadShort(data[2..4])), data[UDP_HEADER..size], fromMac, from, LoadShort(data[0..2])))
    {
      hide Accounts, Plus, Minus;
      ghost var live0 := heap.live;
      delivery := None;
      var segment, segmentData;
      segment, ok := Alloc(SIZEOF_UDP_SEGMENT);
      if !ok { return; }
      segmentData, ok := Alloc(size - UDP_HEADER);
      if !ok { return; }
      var header := data[..UDP_HEADER];
      assert header[2..4] == data[2..4] && header[0..2] == data[0..2];
      delivery := Some(Delivery(Ntohs(LoadShort(header[2..4])), data[UDP_HEADER..size], fromMac, from, LoadShort(header[0..2])));
      BalanceTwo(live0, segment, SIZEOF_UDP_SEGMENT, segmentData, size - UDP_HEADER);
      Release(segmentData, size - UDP_HEADER);
      Release(segment, SIZEOF_UDP_SEGMENT);
    }

    /** recv_ipv4_packet.  What it does for ICMP and TCP packets is left out, so all that is said of the
        heap after those is that it frees nothing of its caller's. */
    method RecvIpv4(fromMac: seq<byte>, packet: seq<byte>) returns (ok: bool, delivery: Option<Delivery>)
      requires Valid() && ReceivableIpv4(packet)
      modifies heap`live, heap.bitset
      ensures Valid()
      ensures ModelledPacket(packet) ==> ring.Contents() == old(ring.Contents())
      ensures ok ==> StillLive(old(heap.live), heap.live)
      ensures ok && ModelledPacket(packet) ==> heap.live == old(heap.live)
      ensures ok ==> delivery == ReceivedIpv4(fromMac, packet)
    {
      hide Accounts, HeaderBits, Number, FieldOf, LoadShort, Pow2, Plus, Minus;
      ghost var live0 := heap.live;
      delivery := None;
      var ipPacket, ipData;
      ipPacket, ok := Alloc(SIZEOF_IPV4_PACKET);
      if !ok { return; }
      var header := new byte[IPV4_HEADER](i requires 0 <= i < IPV4_HEADER => packet[i]);
      assert header[..] == packet[..IPV4_HEADER];
      BytesPrefix(packet, IPV4_HEADER);
      FieldsOfPrefix(HeaderBits(packet));
      ipData, ok := Alloc(|packet| - IPV4_HEADER);
      if !ok { return; }
      var protocol := GetBits(header, 72, 8);
      var from := GetBits(header, 96, 32);
      var totalLength := GetBits(header, 16, 16);
      if protocol == PROTOCOL_UDP {
        ok, delivery := RecvUdp(from, fromMac, packet[IPV4_HEADER..], totalLength - IPV4_HEADER);
        if !ok { return; }
      }
      BalanceTwo(live0, ipPacket, SIZEOF_IPV4_PACKET, ipData, |packet| - IPV4_HEADER);
      Release(ipData, |packet| - IPV4_HEADER);
      Release(ipPacket, SIZEOF_IPV4_PACKET);
    }

    /** recv_ethernet_frame: frames of a kind modelled here leave the same heap blocks live as before,
        others at least those. */
    method RecvEthernet(frame: seq<byte>) returns (ok: bool, delivery: Option<Delivery>)
      requires Valid() && Receivable(frame)
      modifies heap`live, heap.bitset
      ensures Valid()
      ensures ModelledFrame(frame) ==> ring.Contents() == old(ring.Contents())
      ensures ok ==> StillLive(old(heap.live), heap.live)
      ensures ok && ModelledFrame(frame) ==> heap.live == old(heap.live)
      ensures ok ==> delivery == Received(frame)
    {
      hide Accounts, HeaderBits, LoadShort, ReceivedIpv4, ReceivableIpv4, Plus, Minus;
      ghost var live0 := heap.live;
      delivery := None;
      var ether, etherData;
      ether, ok := Alloc(SIZEOF_ETHER_FRAME);
      if !ok { return; }
      var header := frame[..ETHER_HEADER];
      assert header[12..14] == frame[12..14] && header[6..12] == frame[6..12];
      etherData, ok := Alloc(|frame| - ETHER_HEADER);
      if !ok { return; }
      if LoadShort(header[12..14]) == ETHER_TYPE_IPV4 {
        ok, delivery := RecvIpv4(header[6..12], frame[ETHER_HEADER..]);
        if !ok { return; }
      }
      BalanceAround(live0, ether, SIZEOF_ETHER_FRAME, etherData, |frame| - ETHER_HEADER, heap.live);
      Release(etherData, |frame| - ETHER_HEADER);
      Release(ether, SIZEOF_ETHER_FRAME);
    }
  }

  lemma FieldsOfPrefix(bits: seq<bool>)
    requires 160 <= |bits|
    ensures FieldOf(bits[..160], 72, 8) == FieldOf(bits, 72, 8)
    ensures FieldOf(bits[..160], 96, 32) == FieldOf(bits, 96, 32)
    ensures FieldOf(bits[..160], 16, 16) == FieldOf(bits, 16, 16)
  {
    assert bits[..160][72..80] == bits[72..80];
    assert bits[..160][96..128] == bits[96..128];
    assert bits[..160][16..32] == bits[16..32];
  }

  lemma FrameSize(destination: seq<byte>, source: seq<byte>, etherType: nat, data: seq<byte>)
    requires IsMac(destination) && IsMac(source)
    ensures |EthernetFrame(destination, source, etherType, data)| == ETHER_HEADER + |data|
  {
  }

  lemma FrameParts(destination: seq<byte>, source: seq<byte>, etherType: nat, data: seq<byte>)
    requires IsMac(destination) && IsMac(source)
    ensures var frame := EthernetFrame(destination, source, etherType, data);
      && |frame| == ETHER_HEADER + |data| && frame[0..6] == destination
      && frame[6..12] == source && frame[12..14] == Short(etherType) && frame[ETHER_HEADER..] == data
  {
    hide ToByte;
  }

  ghost predicate IsIpv4Frame(frame: seq<byte>, destination: seq<byte>, source: seq<byte>, h: Ipv4, data: seq<byte>)
  {
    && ETHER_HEADER <= |frame|
    && frame == EthernetFrame(destination, source, ETHER_TYPE_IPV4, frame[ETHER_HEADER..])
    && IsIpv4Packet(frame[ETHER_HEADER..], h, data)
  }

  /** The checksum udp_send_segment fills in: over header, pseudo header and data. */
  ghost function UdpChecksum(source: nat, destination: nat, sourcePort: nat, destinationPort: nat, data: seq<byte>): nat
  {
    var header := HeaderBits(UdpHeader(sourcePort, destinationPort, |data|, 0));
    var pseudo := PseudoHeader(source, destination, 0, PROTOCOL_UDP, |data| + UDP_HEADER);
    AllWordsSmall(header, pseudo, HeaderBits(data));
    Complement(AllWords(header, pseudo, HeaderBits(data)))
  }

  ghost predicate IsUdpFrame(frame: seq<byte>, toMac: seq<byte>, fromMac: seq<byte>, source: nat, destination: nat,
                             sourcePort: nat, destinationPort: nat, data: seq<byte>)
  {
    IsIpv4Frame(frame, toMac, fromMac,
                Ipv4For(|data| + UDP_HEADER + IPV4_HEADER, 0, 0, PROTOCOL_UDP, source, destination),
                UdpSegment(sourcePort, destinationPort, UdpChecksum(source, destination, sourcePort, destinationPort, data), data))
  }

  ghost function IcmpChecksum(kind: nat, code: nat, rest: seq<byte>, data: seq<byte>): nat
    requires |rest| == 4
  {
    var header := HeaderBits(IcmpHeader(kind, code, rest, 0));
    AllWordsSmall(header, HeaderBits([]), HeaderBits(data));
    Complement(AllWords(header, HeaderBits([]), HeaderBits(data)))
  }

  ghost predicate IsIcmpFrame(frame: seq<byte>, toMac: seq<byte>, fromMac: seq<byte>, source: nat, destination: nat,
                              kind: nat, code: nat, rest: seq<byte>, data: seq<byte>)
    requires |rest| == 4
  {
    IsIpv4Frame(frame, toMac, fromMac,
                Ipv4For(|data| + ICMP_HEADER + IPV4_HEADER, 0, 0, PROTOCOL_ICMP4, source, destination),
                IcmpHeader(kind, code, rest, IcmpChecksum(kind, code, rest, data)) + data)
  }

  /** The block a send leaves behind: the payload and all headers. */
  lemma FrameSizes(frame: seq<byte>, toMac: seq<byte>, fromMac: seq<byte>, source: nat, destination: nat,
                   sourcePort: nat, destinationPort: nat, kind: nat, code: nat, rest: seq<byte>, data: seq<byte>)
    requires |rest| == 4
    ensures IsUdpFrame(frame, toMac, fromMac, source, destination, sourcePort, destinationPort, data) ==>
      |frame| == |data| + UDP_HEADER + IPV4_HEADER + ETHER_HEADER
    ensures IsIcmpFrame(frame, toMac, fromMac, source, destination, kind, code, rest, data) ==>
      |frame| == |data| + ICMP_HEADER + IPV4_HEADER + ETHER_HEADER
  {
    hide HeaderBits, EthernetFrame;
  }

  // ---------- What comes off the wire ----------

  /** What udp_forward_segment_to_process hands to the task bound to `port`. */
  datatype Delivery = Delivery(port: nat, payload: seq<byte>, mac: seq<byte>, ip: nat, sourcePort: nat)

  function Packet(frame: seq<byte>): seq<byte>
    requires ETHER_HEADER <= |frame|
  {
    frame[ETHER_HEADER..]
  }

  function Ipv4Field(packet: seq<byte>, offset: nat, size: nat): nat
    requires IPV4_HEADER <= |packet| && offset + size <= 160
  {
    FieldOf(HeaderBits(packet), offset, size)
  }

  /** The length fields are what the kernel takes them to be: it copies without checking. */
  predicate ReceivableIpv4(packet: seq<byte>)
  {
    && IPV4_HEADER <= |packet|
    && (Ipv4Field(packet, 72, 8) == PROTOCOL_UDP ==>
          IPV4_HEADER + UDP_HEADER <= Ipv4Field(packet, 16, 16) <= |packet|)
  }

  predicate Receivable(frame: seq<byte>)
  {
    ETHER_HEADER <= |frame| && (LoadShort(frame[12..14]) == ETHER_TYPE_IPV4 ==> ReceivableIpv4(Packet(frame)))
  }

  /** The packets and frames whose handling is modelled in full. */
  predicate ModelledPacket(packet: seq<byte>)
    requires IPV4_HEADER <= |packet|
  {
    Ipv4Field(packet, 72, 8) != PROTOCOL_ICMP4 && Ipv4Field(packet, 72, 8) != PROTOCOL_TCP
  }

  predicate ModelledFrame(frame: seq<byte>)
    requires Receivable(frame)
  {
    && LoadShort(frame[12..14]) != ETHER_TYPE_ARP
    && (LoadShort(frame[12..14]) == ETHER_TYPE_IPV4 ==> ModelledPacket(Packet(frame)))
  }

  /** recv_ipv4_packet and udp_recv_segment.  The payload ends where the total-length field says,
      whatever padding the link added. */
  function ReceivedIpv4(fromMac: seq<byte>, packet: seq<byte>): Option<Delivery>
    requires ReceivableIpv4(packet)
  {
    if Ipv4Field(packet, 72, 8) != PROTOCOL_UDP then None
    else
      var segment := packet[IPV4_HEADER..];
      var size := Ipv4Field(packet, 16, 16) - IPV4_HEADER;
      Some(Delivery(Ntohs(LoadShort(segment[2..4])), segment[UDP_HEADER..size], fromMac,
                    Ipv4Field(packet, 96, 32), LoadShort(segment[0..2])))
  }

  /** recv_ethernet_frame. */
  function Received(frame: seq<byte>): Option<Delivery>
    requires Receivable(frame)
  {
    if LoadShort(frame[12..14]) != ETHER_TYPE_IPV4 then None else ReceivedIpv4(frame[6..12], Packet(frame))
  }

  /** The IPv4 fields of a frame just built, padded or not, read back. */
  lemma Ipv4FieldOfFrame(frame: seq<byte>, destination: seq<byte>, source: seq<byte>, h: Ipv4, data: seq<byte>,
                         padding: seq<byte>, i: nat)
    requires IsMac(destination) && IsMac(source) && IsIpv4Frame(frame, destination, source, h, data) && i < 12
    ensures ETHER_HEADER + IPV4_HEADER <= |frame|
    ensures Ipv4Field(Packet(frame + padding), Ipv4Fields(h)[i].offset, Ipv4Fields(h)[i].size) ==
      Ipv4Fields(h)[i].value % Pow2(Ipv4Fields(h)[i].size)
  {
    hide HeaderBits, Number, EthernetFrame, Ipv4Header, Ipv4Fields, Pow2;
    var packet, f := Packet(frame + padding), Ipv4Fields(h)[i];
    assert packet == frame[ETHER_HEADER..] + padding;
    assert packet[..IPV4_HEADER] == frame[ETHER_HEADER..][..IPV4_HEADER];
    BytesPrefix(packet, IPV4_HEADER);
    Ipv4ReadBack(h, i);
    assert HeaderBits(packet)[f.offset..f.offset + f.size] == HeaderBits(packet)[..160][f.offset..f.offset + f.size];
  }

  /** Encapsulation round trip: a payload of up to 65507 bytes sent by UDP and received from the wire,
      with any padding after it, is delivered unchanged to the port the sender named (in network order,
      as callers of udp_send_segment give it), with the sender's MAC and IP address and source port. */
  lemma UdpRoundTrip(frame: seq<byte>, toMac: seq<byte>, fromMac: seq<byte>, source: nat, destination: nat,
                     sourcePort: nat, port: nat, data: seq<byte>, padding: seq<byte>)
    requires IsMac(toMac) && IsMac(fromMac) && source < 0x1_0000_0000
    requires sourcePort < 0x10000 && port < 0x10000 && |data| <= 65507
    requires IsUdpFrame(frame, toMac, fromMac, source, destination, sourcePort, Ntohs(port), data)
    ensures Receivable(frame + padding)
    ensures Received(frame + padding) == Some(Delivery(port, data, fromMac, source, sourcePort))
  {
    hide HeaderBits, EthernetFrame, UdpChecksum, Ntohs, IsIpv4Packet, LoadShort, Short, UdpSegment, Ipv4Field;
    var destinationPort := Ntohs(port);
    var checksum := UdpChecksum(source, destination, sourcePort, destinationPort, data);
    var wire := frame + padding;
    FrameParts(toMac, fromMac, ETHER_TYPE_IPV4, frame[ETHER_HEADER..]);
    assert wire[6..12] == frame[6..12] && wire[12..14] == frame[12..14];
    NtohsTwice(port);
    ShortRoundTrip(ETHER_TYPE_IPV4);
    ShortRoundTrip(sourcePort);
    ShortRoundTrip(destinationPort);
    UdpFields(frame, toMac, fromMac, source, destination, sourcePort, destinationPort, data, padding);
    SegmentParts(sourcePort, destinationPort, checksum, data, padding);
    SegmentOfFrame(frame, toMac, fromMac, source, destination, sourcePort, destinationPort, data, padding);
  }

  /** The fields the receiver looks at. */
  lemma UdpFields(frame: seq<byte>, toMac: seq<byte>, fromMac: seq<byte>, source: nat, destination: nat,
                  sourcePort: nat, destinationPort: nat, data: seq<byte>, padding: seq<byte>)
    requires IsMac(toMac) && IsMac(fromMac) && source < 0x1_0000_0000 && |data| <= 65507
    requires IsUdpFrame(frame, toMac, fromMac, source, destination, sourcePort, destinationPort, data)
    ensures ETHER_HEADER + IPV4_HEADER + UDP_HEADER + |data| == |frame|
    ensures Ipv4Field(Packet(frame + padding), 16, 16) == |data| + UDP_HEADER + IPV4_HEADER
    ensures Ipv4Field(Packet(frame + padding), 72, 8) == PROTOCOL_UDP
    ensures Ipv4Field(Packet(frame + padding), 96, 32) == source
  {
    hide HeaderBits, EthernetFrame, UdpChecksum, Ipv4Field, Pow2, Ipv4Header, Ipv4Fields, UdpHeader;
    var h := Ipv4For(|data| + UDP_HEADER + IPV4_HEADER, 0, 0, PROTOCOL_UDP, source, destination);
    var segment := UdpSegment(sourcePort, destinationPort, UdpChecksum(source, destination, sourcePort, destinationPort, data), data);
    FieldWidths();
    Ipv4FieldIndex(h);
    Ipv4FieldOfFrame(frame, toMac, fromMac, h, segment, padding, 4);
    Ipv4FieldOfFrame(frame, toMac, fromMac, h, segment, padding, 9);
    Ipv4FieldOfFrame(frame, toMac, fromMac, h, segment, padding, 10);
  }

  lemma Ipv4FieldIndex(h: Ipv4)
    ensures Ipv4Fields(h)[4] == Field(16, 16, h.totalLength)
    ensures Ipv4Fields(h)[9] == Field(72, 8, h.protocol)
    ensures Ipv4Fields(h)[10] == Field(96, 32, h.source)
  {
  }

  lemma SegmentParts(sourcePort: nat, destinationPort: nat, checksum: nat, data: seq<byte>, padding: seq<byte>)
    ensures var received := UdpSegment(sourcePort, destinationPort, checksum, data) + padding;
      && UDP_HEADER + |data| <= |received|
      && received[0..2] == Short(sourcePort) && received[2..4] == Short(destinationPort)
      && received[UDP_HEADER..UDP_HEADER + |data|] == data
  {
    hide ToByte, Ntohs;
  }

  lemma SegmentOfFrame(frame: seq<byte>, toMac: seq<byte>, fromMac: seq<byte>, source: nat, destination: nat,
                       sourcePort: nat, destinationPort: nat, data: seq<byte>, padding: seq<byte>)
    requires IsUdpFrame(frame, toMac, fromMac, source, destination, sourcePort, destinationPort, data)
    ensures ETHER_HEADER + IPV4_HEADER <= |frame + padding|
    ensures Packet(frame + padding)[IPV4_HEADER..] ==
      UdpSegment(sourcePort, destinationPort, UdpChecksum(source, destination, sourcePort, destinationPort, data), data) + padding
  {
    hide HeaderBits, EthernetFrame, UdpChecksum, UdpSegment, Ipv4Header;
    assert (frame + padding)[ETHER_HEADER..] == frame[ETHER_HEADER..] + padding;
  }

  lemma FieldWidths()
    ensures Pow2(16) == 0x10000 && Pow2(8) == 0x100 && Pow2(32) == 0x1_0000_0000
  {
    Pow16();
    assert Pow2(4) == 16;
    assert Pow2(20) == 0x100000;
    assert Pow2(24) == 0x1000000;
    assert Pow2(28) == 0x10000000;
  }

  // ---------- The port table ----------

  /** One entry: the owner's pid (0 if the port is free), its buffer, and where the last segment came from. */
  datatype PortEntry = PortEntry(pid: nat, buffer: seq<byte>, mac: seq<byte>, ip: nat, port: nat)

  /** Copies n bytes to the front of a buffer. */
  function Copied(buffer: seq<byte>, bytes: seq<byte>): (r: seq<byte>)
    requires |bytes| <= |buffer|
    ensures |r| == |buffer| && bytes <= r && r[|bytes|..] == buffer[|bytes|..]
  {
    bytes + buffer[|bytes|..]
  }

  class UdpPorts {
    const table: array<PortEntry>

    constructor ()
      ensures table.Length == 65535 && fresh(table)
      ensures forall p :: 0 <= p < table.Length ==> table[p].pid == 0
    {
      table := new PortEntry[65535](_ => PortEntry(0, [], [], 0, 0));
    }

    /** udp_forward_segment_to_process: a bound port gets payload and sender, and its owner is to be
        woken; a free one drops the segment; no other port is touched.  The buffer must be big enough:
        the kernel does not look. */
    method Forward(d: Delivery) returns (wake: nat)
      requires d.port < table.Length
      requires table[d.port].pid != 0 ==> |d.payload| <= |table[d.port].buffer|
      modifies table
      ensures forall p :: 0 <= p < table.Length && p != d.port ==> table[p] == old(table[p])
      ensures wake == old(table[d.port].pid) == table[d.port].pid
      ensures wake == 0 ==> table[d.port] == old(table[d.port])
      ensures wake != 0 ==>
        table[d.port] == PortEntry(wake, Copied(old(table[d.port].buffer), d.payload), d.mac, d.ip, d.sourcePort)
    {
      var entry := table[d.port];
      if entry.pid == 0 {
        return 0;
      }
      table[d.port] := PortEntry(entry.pid, Copied(entry.buffer, d.payload), d.mac, d.ip, d.sourcePort);
      wake := entry.pid;
    }
  }
}
