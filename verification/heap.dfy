/** The kernel heap of src/libc/kheap.c: one bitmap bit per heap byte, first fit.

    `Accounts` ties the bitmap to the blocks that are live.  `Heap` is the allocator itself; its ghost
    field `live` records the blocks handed out and not yet freed. */
module KernelHeap {
  import opened Bitmap

  const BITSET_BYTES: nat := 0x1c200   // BITSET_LIMIT - BITSET_BASE
  const HEAP_BASE: nat := 0x11f000
  const HEAP_LIMIT: nat := 0x200000
  const PAGE: nat := 0x1000

  /** Address of a block to its size in bytes. */
  type Blocks = map<nat, nat>

  predicate FreeRun(bits: seq<bool>, r: nat, size: nat)
  {
    r + size <= |bits| && forall i :: r <= i < r + size ==> !bits[i]
  }

  function Filled(bits: seq<bool>, r: int, size: nat, on: bool): (filled: seq<bool>)
    ensures |filled| == |bits|
    ensures forall p :: 0 <= p < |bits| ==> filled[p] == if r <= p < r + size then on else bits[p]
  {
    seq(|bits|, p requires 0 <= p < |bits| => if r <= p < r + size then on else bits[p])
  }

  /** Every bitmap byte is all used or all free. */
  ghost predicate WholeBytes(bits: seq<bool>)
  {
    forall p :: 0 < p < |bits| && p % 8 != 0 ==> bits[p] == bits[p - 1]
  }

  // ---------- Blocks and bits ----------

  ghost predicate Covered(live: Blocks, x: nat)
  {
    exists a :: a in live && a <= x < a + live[a]
  }

  ghost predicate Accounts(bits: seq<bool>, live: Blocks)
  {
    && HEAP_BASE + |bits| == HEAP_LIMIT
    && (forall a :: a in live ==> 0 < live[a] && HEAP_BASE <= a && a + live[a] <= HEAP_LIMIT)
    && (forall a, b :: a in live && b in live && a < b ==> a + live[a] <= b)
    && (forall p :: 0 <= p < |bits| ==> (bits[p] <==> Covered(live, HEAP_BASE + p)))
  }

  /** A free run may be handed out wherever it lies. */
  lemma MallocAccounts(bits: seq<bool>, live: Blocks, r: nat, size: nat)
    requires Accounts(bits, live) && 0 < size && FreeRun(bits, r, size)
    ensures HEAP_BASE + r !in live
    ensures Accounts(Filled(bits, r, size, true), live[HEAP_BASE + r := size])
  {
    var a, live' := HEAP_BASE + r, live[HEAP_BASE + r := size];
    forall b | b in live
      ensures b + live[b] <= a || a + size <= b
    {
      var x := if a < b then b else a;
      assert b <= x < b + live[b] ==> Covered(live, x);
      assert bits[x - HEAP_BASE] <==> Covered(live, x);
    }
    forall p | 0 <= p < |bits|
      ensures Filled(bits, r, size, true)[p] <==> Covered(live', HEAP_BASE + p)
    {
      if b :| b in live && b <= HEAP_BASE + p < b + live[b] {
        assert b in live';
      }
      if r <= p < r + size {
        assert a in live' && a <= HEAP_BASE + p < a + live'[a];
      }
    }
  }

  /** Freeing a live block, at its own size, gives back exactly its bytes. */
  lemma FreeAccounts(bits: seq<bool>, live: Blocks, a: nat)
    requires Accounts(bits, live) && a in live
    ensures Accounts(Filled(bits, a - HEAP_BASE, live[a], false), live - {a})
  {
    var live', after := live - {a}, Filled(bits, a - HEAP_BASE, live[a], false);
    forall p | 0 <= p < |bits|
      ensures after[p] <==> Covered(live', HEAP_BASE + p)
    {
      if b :| b in live && b <= HEAP_BASE + p < b + live[b] {
        assert b == a || b in live';
      }
    }
  }

  /** Freeing bytes no live block owns, as a second kfree of the same block does, changes nothing. */
  lemma FreeAgain(bits: seq<bool>, live: Blocks, a: nat, size: nat)
    requires Accounts(bits, live) && HEAP_BASE <= a
    requires forall x :: a <= x < a + size ==> !Covered(live, x)
    ensures Filled(bits, a - HEAP_BASE, size, false) == bits
  {
    assert forall x :: HEAP_BASE <= x < HEAP_LIMIT ==> (bits[x - HEAP_BASE] <==> Covered(live, x));
  }

  /** kfree undoes kmalloc bit for bit. */
  lemma FreeUndoesMalloc(bits: seq<bool>, r: nat, size: nat)
    requires FreeRun(bits, r, size)
    ensures Filled(Filled(bits, r, size, true), r, size, false) == bits
  {
  }

  /** The live blocks determine the bitmap. */
  lemma LiveDeterminesBits(a: seq<bool>, b: seq<bool>, live: Blocks)
    requires Accounts(a, live) && Accounts(b, live)
    ensures a == b
  {
    forall p | 0 <= p < |a|
      ensures a[p] == b[p]
    {
    }
  }

  class Heap {
    const bitset: array<byte>
    ghost var live: Blocks

    ghost function Bits(): seq<bool>
      reads bitset
    {
      View(bitset[..])
    }

    ghost predicate Valid()
      reads this, bitset
    {
      bitset.Length == BITSET_BYTES && Accounts(Bits(), live)
    }

    /** kheap_init. */
    constructor ()
      ensures Valid() && live == map[] && fresh(bitset)
    {
      bitset := new byte[BITSET_BYTES](_ => 0);
      live := map[];
      new;
      ZeroView(bitset[..]);
    }

    /** fill. */
    method Fill(begin: int, size: nat, on: bool)
      requires size == 0 || (0 <= begin && begin + size <= 8 * bitset.Length)
      modifies bitset
      ensures Bits() == Filled(old(Bits()), begin, size, on)
    {
      hide View;
      ghost var before := Bits();
      var i := begin;
      while i < begin + size
        invariant begin <= i <= begin + size
        invariant Bits() == Filled(before, begin, i - begin, on)
      {
        if on {
          Set(bitset, i);
        } else {
          Clear(bitset, i);
        }
        i := i + 1;
      }
    }

    /** _kmalloc: a plain request gets the lowest free run, an aligned one the lowest free run among
        the starts its scan considers; 0 is returned exactly when there is none. */
    method Kmalloc(size: nat, align: bool) returns (addr: nat)
      requires Valid()
      modifies this`live, bitset
      ensures Valid()
      ensures addr == 0 ==> Bits() == old(Bits()) && live == old(live)
      ensures addr != 0 ==> 0 < size && HEAP_BASE <= addr && FreeRun(old(Bits()), addr - HEAP_BASE, size)
      ensures addr != 0 ==> Bits() == Filled(old(Bits()), addr - HEAP_BASE, size, true)
      ensures addr != 0 ==> addr !in old(live) && live == old(live)[addr := size]
      ensures size == 0 ==> addr == 0
      ensures 0 < size ==> IsFit(old(Bits()), size, align, addr)
    {
      hide View, FreeRun, IsFit, AtByte, InByte, Accounts;
      if size == 0 {
        return 0;
      }
      ghost var bits := Bits();
      var count, end, i := 0, 0, 0;
      ScanStart(bits, size, align);
      while i < bitset.Length
        invariant 0 <= i <= bitset.Length && end == 8 * i
        invariant Bits() == bits && unchanged(this)
        invariant AtByte(bits, size, align, count, i)
      {
        var bitsFromBase := i * 8;
        if align && count == 0 && bitsFromBase % 0x1000 != 0 && bitsFromBase != 0 {
          SkipByte(bits, size, i);
          end := end + 8;
          i := i + 1;
          continue;
        }
        EnterByte(bits, size, align, count, i);
        var j := 0;
        while j < 8
          invariant 0 <= j <= 8 && end == 8 * i + j
          invariant Bits() == bits && unchanged(this)
          invariant InByte(bits, size, align, count, i, j)
        {
          ScanBit(bits, size, align, count, i, j);
          var used := Read(bitset, 8 * i + j);
          end := end + 1;
          if used {
            count := 0;
          } else {
            count := count + 1;
          }
          if count == size {
            MallocAccounts(bits, live, end - size, size);
            Fill(end - size, size, true);
            addr := 8 * i + (j + 1) + HEAP_BASE - size;
            live := live[addr := size];
            return;
          }
          j := j + 1;
        }
        LeaveByte(bits, size, align, count, i);
        i := i + 1;
      }
      ScanFailed(bits, size, align, count);
      return 0;
    }

    /** kfree.  The size is the caller's word.  The accounts survive if and only if the bytes are a live
        block at its own size or nobody's, as when a block is freed twice in a row. */
    method Kfree(addr: nat, size: nat)
      requires Valid()
      requires size == 0 || (HEAP_BASE <= addr && addr + size <= HEAP_LIMIT)
      modifies this`live, bitset
      ensures live == if addr in old(live) && old(live)[addr] == size then old(live) - {addr} else old(live)
      ensures Bits() == Filled(old(Bits()), addr - HEAP_BASE, size, false)
      ensures Valid() <==> MayFree(old(live), addr, size)
    {
      ghost var bits := Bits();
      var offset := addr - HEAP_BASE;
      Fill(offset, size, false);
      FreeExactly(bits, live, addr, size);
      if addr in live && live[addr] == size {
        live := live - {addr};
      }
    }
  }

  ghost predicate MayFree(live: Blocks, addr: nat, size: nat)
  {
    (addr in live && live[addr] == size) || forall x :: addr <= x < addr + size ==> !Covered(live, x)
  }

  lemma FreeExactly(bits: seq<bool>, live: Blocks, addr: nat, size: nat)
    requires Accounts(bits, live) && (size == 0 || (HEAP_BASE <= addr && addr + size <= HEAP_LIMIT))
    ensures var live' := if addr in live && live[addr] == size then live - {addr} else live;
      Accounts(Filled(bits, addr - HEAP_BASE, size, false), live') <==> MayFree(live, addr, size)
  {
    var after := Filled(bits, addr - HEAP_BASE, size, false);
    if addr in live && live[addr] == size {
      FreeAccounts(bits, live, addr);
    } else if size == 0 {
      assert after == bits;
    } else if MayFree(live, addr, size) {
      FreeAgain(bits, live, addr, size);
    } else {
      var x :| addr <= x < addr + size && Covered(live, x);
      assert !after[x - HEAP_BASE] && Covered(live, HEAP_BASE + (x - HEAP_BASE));
    }
  }

  // ---------- First fit ----------

  /** Whether an aligned scan looks at the bits of byte b when no run has been found before it: byte b
      starts a page, or the scan arrives with a free run still open. */
  predicate Visited(bits: seq<bool>, b: nat)
    requires 8 * b <= |bits|
  {
    b % 512 == 0 || (!bits[8 * b - 1] && Visited(bits, b - 1))
  }

  /** The starts a scan considers: every bit for a plain request; for an aligned one the page
      boundaries, but also any free bit that follows a used bit of the same, visited byte. */
  predicate Start(bits: seq<bool>, align: bool, r: nat)
    requires r < |bits| && |bits| % 8 == 0
  {
    !align || r % PAGE == 0 || (r % 8 != 0 && bits[r - 1] && Visited(bits, r / 8))
  }

  ghost predicate Fits(bits: seq<bool>, size: nat, align: bool, r: nat)
  {
    |bits| % 8 == 0 && r < |bits| && Start(bits, align, r) && FreeRun(bits, r, size)
  }

  /** The answer is the lowest start that fits, or 0 if there is none. */
  ghost predicate IsFit(bits: seq<bool>, size: nat, align: bool, addr: nat)
  {
    && (addr == 0 <==> forall r :: 0 <= r < |bits| ==> !Fits(bits, size, align, r))
    && (addr != 0 ==> HEAP_BASE <= addr && Fits(bits, size, align, addr - HEAP_BASE))
    && (addr != 0 ==> forall r :: 0 <= r < addr - HEAP_BASE ==> !Fits(bits, size, align, r))
  }

  /** kmalloc_u is first fit: the lowest free run of the size, and 0 exactly if there is none. */
  lemma PlainIsFirstFit(bits: seq<bool>, size: nat, addr: nat)
    requires |bits| % 8 == 0 && 0 < size && IsFit(bits, size, false, addr)
    ensures addr == 0 <==> forall r :: 0 <= r < |bits| ==> !FreeRun(bits, r, size)
    ensures addr != 0 ==> FreeRun(bits, addr - HEAP_BASE, size)
    ensures addr != 0 ==> forall r :: 0 <= r < addr - HEAP_BASE ==> !FreeRun(bits, r, size)
  {
    assert forall r :: 0 <= r < |bits| ==> (Fits(bits, size, false, r) <==> FreeRun(bits, r, size));
  }

  /** An empty heap can be handed out whole. */
  lemma WholeHeapFits(bits: seq<bool>, addr: nat)
    requires |bits| % 8 == 0 && 0 < |bits| && forall p :: 0 <= p < |bits| ==> !bits[p]
    requires IsFit(bits, |bits|, false, addr)
    ensures addr == HEAP_BASE
  {
    assert Fits(bits, |bits|, false, 0);
  }

  /** When no bitmap byte is partly used, kmalloc gets the lowest free run that starts on a page
      boundary, and 0 exactly if there is none, although it skips most bytes. */
  lemma WholeBytesPageFit(bits: seq<bool>, size: nat, addr: nat)
    requires |bits| % 8 == 0 && 0 < size && WholeBytes(bits) && IsFit(bits, size, true, addr)
    ensures addr == 0 <==> forall r :: 0 <= r < |bits| && r % PAGE == 0 ==> !FreeRun(bits, r, size)
    ensures addr != 0 ==> addr % PAGE == 0 && FreeRun(bits, addr - HEAP_BASE, size)
    ensures addr != 0 ==> forall r :: 0 <= r < addr - HEAP_BASE && r % PAGE == 0 ==> !FreeRun(bits, r, size)
  {
    hide Start, FreeRun, WholeBytes;
    forall r | 0 <= r < |bits|
      ensures Fits(bits, size, true, r) <==> r % PAGE == 0 && FreeRun(bits, r, size)
    {
      if FreeRun(bits, r, size) {
        OnlyPageStarts(bits, size, r);
      }
    }
  }

  lemma OnlyPageStarts(bits: seq<bool>, size: nat, r: nat)
    requires |bits| % 8 == 0 && 0 < size && WholeBytes(bits) && r < |bits| && FreeRun(bits, r, size)
    ensures Start(bits, true, r) <==> r % PAGE == 0
  {
    hide Visited;
    assert !bits[r];
  }

  /** For every heap: kmalloc keeps to page boundaries if and only if every start off a page boundary
      that its scan would take has a free run on a page boundary below it. */
  lemma AlignedExactly(bits: seq<bool>, size: nat, addr: nat)
    requires |bits| % 8 == 0 && 0 < size && IsFit(bits, size, true, addr)
    ensures addr % PAGE == 0 <==>
      forall r :: 0 <= r < |bits| && r % PAGE != 0 && Fits(bits, size, true, r) ==> PageRunBelow(bits, size, r)
  {
    hide Visited, FreeRun;
    var start := addr - HEAP_BASE;
    assert addr != 0 ==> addr % PAGE == start % PAGE by { assert HEAP_BASE == 0x11f * PAGE; }
    forall r | 0 <= r < |bits| && addr % PAGE == 0 && r % PAGE != 0 && Fits(bits, size, true, r)
      ensures PageRunBelow(bits, size, r)
    {
      assert start % PAGE == 0 && start < r;
    }
    if addr % PAGE != 0 {
      assert Fits(bits, size, true, start);
      forall p | 0 <= p < start && p % PAGE == 0
        ensures !FreeRun(bits, p, size)
      {
        assert !Fits(bits, size, true, p);
      }
    }
  }

  ghost predicate PageRunBelow(bits: seq<bool>, size: nat, r: nat)
  {
    exists p :: 0 <= p < r && p % PAGE == 0 && FreeRun(bits, p, size)
  }

  /** A block off a page boundary follows a used bit of its own bitmap byte. */
  lemma MisalignedFollows(bits: seq<bool>, size: nat, addr: nat)
    requires |bits| % 8 == 0 && 0 < size && IsFit(bits, size, true, addr) && addr % PAGE != 0
    ensures (addr - HEAP_BASE) % 8 != 0 && bits[addr - HEAP_BASE - 1]
  {
    hide Visited, FreeRun;
    assert Fits(bits, size, true, addr - HEAP_BASE);
    assert addr % PAGE == (addr - HEAP_BASE) % PAGE by { assert HEAP_BASE == 0x11f * PAGE; }
  }

  /** Alignment does fail: with byte 0 in use and byte 1 free, kmalloc (1) returns HEAP_BASE + 1. */
  lemma MisalignedExample(bits: seq<bool>, addr: nat)
    requires |bits| % 8 == 0 && 8 <= |bits| && bits[0] && !bits[1]
    requires IsFit(bits, 1, true, addr)
    ensures addr == HEAP_BASE + 1
  {
    assert Visited(bits, 0);
    assert Fits(bits, 1, true, 1);
    assert !Fits(bits, 1, true, 0);
  }

  /** The scan has seen the first `end` bits, the last `count` of them free, and has refused every
      earlier start. */
  ghost predicate Scanned(bits: seq<bool>, size: nat, align: bool, count: nat, end: nat)
  {
    && |bits| % 8 == 0 && count <= end <= |bits|
    && (forall p :: end - count <= p < end ==> !bits[p])
    && (0 < count ==> Start(bits, align, end - count))
    && (forall r :: 0 <= r < end - count ==> !Fits(bits, size, align, r))
  }

  /** Invariant of the outer loop, before byte b. */
  ghost predicate AtByte(bits: seq<bool>, size: nat, align: bool, count: nat, b: nat)
  {
    && 8 * b <= |bits| && count < size && Scanned(bits, size, align, count, 8 * b)
    && (align ==> (Visited(bits, b) <==> 0 < count || b % 512 == 0))
  }

  /** Invariant of the inner loop, before bit j of byte b. */
  ghost predicate InByte(bits: seq<bool>, size: nat, align: bool, count: nat, b: nat, j: nat)
  {
    && j <= 8 && 8 * b + 8 <= |bits| && |bits| % 8 == 0 && count < size && Scanned(bits, size, align, count, 8 * b + j)
    && (align ==> Visited(bits, b))
    && (align && count == 0 && j == 0 ==> b % 512 == 0)
    && (0 < j ==> (bits[8 * b + j - 1] <==> count == 0))
  }

  lemma ScanStart(bits: seq<bool>, size: nat, align: bool)
    requires |bits| % 8 == 0 && 0 < size
    ensures AtByte(bits, size, align, 0, 0)
  {
  }

  lemma SkipByte(bits: seq<bool>, size: nat, b: nat)
    requires AtByte(bits, size, true, 0, b) && 8 * b < |bits| && 8 * b % PAGE != 0
    ensures AtByte(bits, size, true, 0, b + 1)
  {
    hide Visited, FreeRun, Start;
    assert b % 512 != 0;
    VisitedNext(bits, b + 1);
    forall r | 8 * b <= r < 8 * b + 8
      ensures !Fits(bits, size, true, r)
    {
      NoStart(bits, b, r);
    }
  }

  lemma OffPage(b: nat, r: nat)
    requires b % 512 != 0 && 8 * b <= r < 8 * b + 8
    ensures r % PAGE != 0
  {
  }

  /** A byte the scan skips holds no start. */
  lemma NoStart(bits: seq<bool>, b: nat, r: nat)
    requires |bits| % 8 == 0 && 8 * b <= r < 8 * b + 8 <= |bits|
    requires b % 512 != 0 && !Visited(bits, b)
    ensures !Start(bits, true, r)
  {
    hide Visited;
    assert r / 8 == b;
    OffPage(b, r);
  }

  lemma VisitedNext(bits: seq<bool>, b: nat)
    requires 0 < b && 8 * b <= |bits|
    ensures Visited(bits, b) <==> b % 512 == 0 || (!bits[8 * b - 1] && Visited(bits, b - 1))
  {
  }

  lemma EnterByte(bits: seq<bool>, size: nat, align: bool, count: nat, b: nat)
    requires AtByte(bits, size, align, count, b) && 8 * b < |bits|
    requires align && count == 0 ==> 8 * b % PAGE == 0
    ensures InByte(bits, size, align, count, b, 0)
  {
  }

  lemma UsedBit(bits: seq<bool>, size: nat, align: bool, count: nat, end: nat)
    requires Scanned(bits, size, align, count, end) && count < size && end < |bits| && bits[end]
    ensures Scanned(bits, size, align, 0, end + 1)
  {
    hide Start;
    forall r | 0 <= r < end + 1
      ensures !Fits(bits, size, align, r)
    {
      assert end - count <= r ==> !FreeRun(bits, r, size);
    }
  }

  lemma FreeBit(bits: seq<bool>, size: nat, align: bool, count: nat, end: nat)
    requires Scanned(bits, size, align, count, end) && end < |bits| && !bits[end]
    requires count == 0 ==> Start(bits, align, end)
    ensures Scanned(bits, size, align, count + 1, end + 1)
  {
    hide Start, Fits;
  }

  lemma Found(bits: seq<bool>, size: nat, align: bool, end: nat)
    requires Scanned(bits, size, align, size, end) && 0 < size
    ensures size <= end <= |bits| && FreeRun(bits, end - size, size)
    ensures IsFit(bits, size, align, HEAP_BASE + end - size)
  {
    hide Start;
    assert Fits(bits, size, align, end - size);
  }

  /** One turn of the inner loop: it either finds the answer or has refused one more start. */
  lemma ScanBit(bits: seq<bool>, size: nat, align: bool, count: nat, b: nat, j: nat)
    requires InByte(bits, size, align, count, b, j) && j < 8
    ensures 8 * b + j < |bits|
    ensures var count' := if bits[8 * b + j] then 0 else count + 1;
      && (count' != size ==> InByte(bits, size, align, count', b, j + 1))
      && (count' == size ==> size <= 8 * b + j + 1 <= |bits| && FreeRun(bits, 8 * b + j + 1 - size, size))
      && (count' == size ==> IsFit(bits, size, align, HEAP_BASE + 8 * b + j + 1 - size))
  {
    hide Scanned, IsFit, FreeRun, Visited;
    var end := 8 * b + j;
    assert end / 8 == b && end % 8 == j;
    if bits[end] {
      UsedBit(bits, size, align, count, end);
    } else {
      FreeBit(bits, size, align, count, end);
      if count + 1 == size {
        Found(bits, size, align, end + 1);
      }
    }
  }

  lemma LeaveByte(bits: seq<bool>, size: nat, align: bool, count: nat, b: nat)
    requires InByte(bits, size, align, count, b, 8)
    ensures AtByte(bits, size, align, count, b + 1)
  {
  }

  lemma ScanFailed(bits: seq<bool>, size: nat, align: bool, count: nat)
    requires |bits| % 8 == 0 && AtByte(bits, size, align, count, |bits| / 8)
    ensures IsFit(bits, size, align, 0)
  {
  }
}
