/** The heap over whole runs: any sequence of allocations, wherever they are placed, and of frees of
    live blocks. */
module KernelHeapRuns {
  import opened KernelHeap

  datatype Op = Malloc(r: nat, size: nat) | Free(addr: nat)

  datatype State = State(bits: seq<bool>, live: Blocks)

  ghost predicate Enabled(s: State, op: Op)
  {
    match op
    case Malloc(r, size) => 0 < size && FreeRun(s.bits, r, size)
    case Free(addr) => addr in s.live && HEAP_BASE <= addr
  }

  ghost function Next(s: State, op: Op): State
    requires Enabled(s, op)
  {
    match op
    case Malloc(r, size) => State(Filled(s.bits, r, size, true), s.live[HEAP_BASE + r := size])
    case Free(addr) => State(Filled(s.bits, addr - HEAP_BASE, s.live[addr], false), s.live - {addr})
  }

  ghost predicate Run(s: State, ops: seq<Op>, last: State)
    decreases ops
  {
    if ops == [] then s == last else Enabled(s, ops[0]) && Run(Next(s, ops[0]), ops[1..], last)
  }

  /** Bits set in the bitmap: heap bytes in use. */
  function Used(bits: seq<bool>): nat
  {
    if bits == [] then 0 else (if bits[0] then 1 else 0) + Used(bits[1..])
  }

  /** Bytes the live blocks add up to. */
  ghost function Total(live: Blocks): nat
  {
    if live == map[] then 0
    else
      var a :| a in live;
      live[a] + Total(live - {a})
  }

  lemma {:induction false} UsedConcat(a: seq<bool>, b: seq<bool>)
    ensures Used(a + b) == Used(a) + Used(b)
  {
    if a == [] {
      assert a + b == b;
    } else {
      UsedConcat(a[1..], b);
      assert (a + b)[1..] == a[1..] + b;
    }
  }

  lemma {:induction false} UsedUniform(bits: seq<bool>, on: bool)
    requires forall p :: 0 <= p < |bits| ==> bits[p] == on
    ensures Used(bits) == if on then |bits| else 0
  {
    if bits != [] {
      UsedUniform(bits[1..], on);
    }
  }

  lemma UsedSplit(bits: seq<bool>, r: nat, size: nat)
    requires r + size <= |bits|
    ensures Used(bits) == Used(bits[..r]) + Used(bits[r..r + size]) + Used(bits[r + size..])
  {
    hide Used;
    assert bits == bits[..r] + bits[r..];
    assert bits[r..] == bits[r..r + size] + bits[r + size..];
    UsedConcat(bits[..r], bits[r..]);
    UsedConcat(bits[r..r + size], bits[r + size..]);
  }

  lemma UsedFilled(bits: seq<bool>, r: nat, size: nat, on: bool)
    requires r + size <= |bits| && forall p :: r <= p < r + size ==> bits[p] == !on
    ensures Used(Filled(bits, r, size, on)) - Used(bits) == if on then size else 0 - size
  {
    hide Used;
    var after := Filled(bits, r, size, on);
    UsedSplit(bits, r, size);
    UsedSplit(after, r, size);
    assert after[..r] == bits[..r] && after[r + size..] == bits[r + size..];
    UsedUniform(bits[r..r + size], !on);
    UsedUniform(after[r..r + size], on);
  }

  /** The total does not depend on the order in which blocks are picked. */
  lemma {:induction false} TotalRemove(live: Blocks, a: nat)
    requires a in live
    ensures Total(live) == live[a] + Total(live - {a})
    decreases |live|
  {
    var b :| b in live && Total(live) == live[b] + Total(live - {b});
    if a != b {
      TotalRemove(live - {b}, a);
      TotalRemove(live - {a}, b);
      assert live - {a} - {b} == live - {b} - {a};
    }
  }

  lemma NextKeeps(s: State, op: Op)
    requires Accounts(s.bits, s.live) && Used(s.bits) == Total(s.live) && Enabled(s, op)
    ensures Accounts(Next(s, op).bits, Next(s, op).live)
    ensures Used(Next(s, op).bits) == Total(Next(s, op).live)
  {
    hide Used, Total;
    match op
    case Malloc(r, size) =>
      MallocAccounts(s.bits, s.live, r, size);
      UsedFilled(s.bits, r, size, true);
      TotalRemove(s.live[HEAP_BASE + r := size], HEAP_BASE + r);
      assert s.live[HEAP_BASE + r := size] - {HEAP_BASE + r} == s.live;
    case Free(addr) =>
      FreeAccounts(s.bits, s.live, addr);
      forall p | addr - HEAP_BASE <= p < addr - HEAP_BASE + s.live[addr]
        ensures s.bits[p]
      {
        assert addr <= HEAP_BASE + p < addr + s.live[addr];
      }
      UsedFilled(s.bits, addr - HEAP_BASE, s.live[addr], false);
      TotalRemove(s.live, addr);
  }

  /** kheap_init: nothing live, nothing used. */
  lemma EmptyHeap(bits: seq<bool>)
    requires HEAP_BASE + |bits| == HEAP_LIMIT && forall p :: 0 <= p < |bits| ==> !bits[p]
    ensures Accounts(bits, map[]) && Used(bits) == Total(map[]) == 0
  {
    UsedUniform(bits, false);
  }

  ghost function StateOf(h: Heap): State
    reads h, h.bitset
  {
    State(h.Bits(), h.live)
  }

  /** A successful kmalloc, plain or aligned, is a step of a run; a failed one changes nothing. */
  method KmallocSteps(h: Heap, size: nat, align: bool) returns (addr: nat)
    requires h.Valid()
    modifies h`live, h.bitset
    ensures h.Valid()
    ensures addr == 0 ==> StateOf(h) == old(StateOf(h))
    ensures addr != 0 ==> HEAP_BASE <= addr && Enabled(old(StateOf(h)), Malloc(addr - HEAP_BASE, size))
    ensures addr != 0 ==> StateOf(h) == Next(old(StateOf(h)), Malloc(addr - HEAP_BASE, size))
  {
    hide FreeRun, Accounts;
    addr := h.Kmalloc(size, align);
  }

  /** So is a kfree of a live block at its own size. */
  method KfreeSteps(h: Heap, addr: nat, size: nat)
    requires h.Valid() && addr in h.live && h.live[addr] == size
    modifies h`live, h.bitset
    ensures h.Valid() && Enabled(old(StateOf(h)), Free(addr))
    ensures StateOf(h) == Next(old(StateOf(h)), Free(addr))
  {
    h.Kfree(addr, size);
  }

  /** Heap safety over every run from a heap whose books balance, as an empty one's do: live blocks are
      disjoint and inside the heap, a bit is set exactly when a live block owns its byte, and the bytes
      in use are the live sizes added up. */
  lemma {:induction false} RunKeeps(s: State, ops: seq<Op>, last: State)
    requires Accounts(s.bits, s.live) && Used(s.bits) == Total(s.live)
    requires Run(s, ops, last)
    ensures Accounts(last.bits, last.live) && Used(last.bits) == Total(last.live)
    decreases ops
  {
    if ops != [] {
      NextKeeps(s, ops[0]);
      RunKeeps(Next(s, ops[0]), ops[1..], last);
    }
  }

  /** What goes in comes out: if a run frees everything it allocated, the bitmap is back bit for bit. */
  lemma BalancedRunRestores(s: State, ops: seq<Op>, last: State)
    requires Accounts(s.bits, s.live) && Used(s.bits) == Total(s.live)
    requires Run(s, ops, last) && last.live == s.live
    ensures last.bits == s.bits
  {
    RunKeeps(s, ops, last);
    LiveDeterminesBits(s.bits, last.bits, s.live);
  }
}
