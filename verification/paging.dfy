/** The frame allocator and the identity mapping of src/libc/paging.c. */
module Paging {
  import opened Bitmap
  import Codec

  const PAGE: nat := 0x1000
  const FRAMES: nat := 4096          // 16 MiB of memory
  const PAGES_PER_TABLE: nat := 1024
  const MEGABYTE: nat := 0x100000

  datatype PageEntry = PageEntry(present: bool, writable: bool, user: bool, frame: nat)

  const ABSENT: PageEntry := PageEntry(false, false, false, 0)

  type Table = t: seq<PageEntry> | |t| == PAGES_PER_TABLE
    witness seq(PAGES_PER_TABLE, _ => ABSENT)

  type Directory = map<nat, Table>

  function EntryOf(dir: Directory, page: nat): PageEntry
  {
    var table := page / PAGES_PER_TABLE;
    if table in dir then dir[table][page % PAGES_PER_TABLE] else ABSENT
  }

  function WithEntry(dir: Directory, page: nat, entry: PageEntry): Directory
    requires page / PAGES_PER_TABLE in dir
  {
    var table: Table := dir[page / PAGES_PER_TABLE];
    var table': Table := table[page % PAGES_PER_TABLE := entry];
    dir[page / PAGES_PER_TABLE := table']
  }

  lemma WithEntryAt(dir: Directory, page: nat, entry: PageEntry, other: nat)
    requires page / PAGES_PER_TABLE in dir
    ensures EntryOf(WithEntry(dir, page, entry), other) == if other == page then entry else EntryOf(dir, other)
  {
    assert other / PAGES_PER_TABLE == page / PAGES_PER_TABLE && other % PAGES_PER_TABLE == page % PAGES_PER_TABLE ==> other == page;
  }

  // ---------- Masks ----------

  /** The operators & and | on unsigned numbers. */
  function And(a: nat, b: nat): nat
  {
    if a == 0 || b == 0 then 0 else 2 * And(a / 2, b / 2) + (a % 2) * (b % 2)
  }

  function Or(a: nat, b: nat): nat
  {
    if a == 0 then b else if b == 0 then a
    else 2 * Or(a / 2, b / 2) + if a % 2 == 1 || b % 2 == 1 then 1 else 0
  }

  lemma AndStep(a: nat, b: nat)
    ensures And(a, b) == 2 * And(a / 2, b / 2) + (a % 2) * (b % 2)
  {
  }

  lemma OrStep(a: nat, b: nat)
    ensures Or(a, b) == 2 * Or(a / 2, b / 2) + if a % 2 == 1 || b % 2 == 1 then 1 else 0
  {
  }

  /** h * p is split off before the product is halved. */
  lemma Halved(h: nat, l: nat, p: nat)
    ensures (h * (2 * p) + l) / 2 == h * p + l / 2 && (h * (2 * p) + l) % 2 == l % 2
  {
    var a := h * p;
    assert h * (2 * p) == 2 * a;
  }

  lemma AndZero(a: nat)
    ensures And(a, 0) == And(0, a) == 0
  {
  }

  /** A mask of k ones keeps the low k bits. */
  lemma {:induction false} MaskLow(h: nat, l: nat, k: nat)
    requires l < Codec.Pow2(k)
    ensures And(h * Codec.Pow2(k) + l, Codec.Pow2(k) - 1) == l
  {
    hide And;
    if k == 0 {
      AndZero(h);
    } else {
      var p := Codec.Pow2(k - 1);
      MaskLow(h, l / 2, k - 1);
      Halved(h, l, p);
      AndStep(h * Codec.Pow2(k) + l, Codec.Pow2(k) - 1);
      assert (2 * p - 1) / 2 == p - 1 && (2 * p - 1) % 2 == 1;
    }
  }

  /** A mask that ends in k zeros works on what is above them. */
  lemma {:induction false} MaskHigh(h: nat, l: nat, m: nat, k: nat)
    requires l < Codec.Pow2(k)
    ensures And(h * Codec.Pow2(k) + l, m * Codec.Pow2(k)) == And(h, m) * Codec.Pow2(k)
  {
    hide And;
    if k != 0 {
      var p := Codec.Pow2(k - 1);
      MaskHigh(h, l / 2, m, k - 1);
      Halved(h, l, p);
      Halved(m, 0, p);
      AndStep(h * Codec.Pow2(k) + l, m * Codec.Pow2(k));
      assert (l % 2) * 0 == 0;
      Halved(And(h, m), 0, p);
    }
  }

  /** Oring numbers without a bit in common adds them. */
  lemma {:induction false} OrAdds(high: nat, low: nat, k: nat)
    requires low < Codec.Pow2(k)
    ensures Or(high * Codec.Pow2(k), low) == high * Codec.Pow2(k) + low
  {
    if k != 0 {
      var p := Codec.Pow2(k - 1);
      OrAdds(high, low / 2, k - 1);
      Halved(high, 0, p);
      OrStep(high * Codec.Pow2(k), low);
    }
  }

  /** virtual2phys with paging on: the 20-bit mask keeps bits 12 to 19 from the virtual address, not
      from the frame. */
  function Translate(frame: nat, virtual: nat): nat
  {
    Or(And(frame * PAGE % 0x1_0000_0000, 0xfff0_0000), And(virtual, 0xf_ffff))
  }

  /** Masking and oring is arithmetic on megabytes. */
  lemma TranslateMegabytes(frame: nat, virtual: nat)
    ensures Translate(frame, virtual) == frame / 256 % 4096 * MEGABYTE + virtual % MEGABYTE
  {
    hide And, Or, Codec.Pow2;
    Powers();
    var shifted := frame * PAGE % 0x1_0000_0000;
    assert shifted / MEGABYTE == frame / 256 % 4096 by { ShiftedMegabytes(frame); }
    MaskHigh(shifted / MEGABYTE, shifted % MEGABYTE, 0xfff, 20);
    MaskLow(0, shifted / MEGABYTE, 12);
    MaskLow(virtual / MEGABYTE, virtual % MEGABYTE, 20);
    OrAdds(shifted / MEGABYTE, virtual % MEGABYTE, 20);
  }

  lemma ShiftedMegabytes(frame: nat)
    ensures (frame * PAGE % 0x1_0000_0000) / MEGABYTE == frame / 256 % 4096
  {
    ShiftedParts(frame / 256 / 4096, frame / 256 % 4096, frame % 256);
  }

  lemma ShiftedParts(high: nat, middle: nat, low: nat)
    requires middle < 4096 && low < 256
    ensures ((high * 0x100000 + middle * 256 + low) * PAGE % 0x1_0000_0000) / MEGABYTE == middle
  {
    var kept := middle * MEGABYTE + low * PAGE;
    WholeWords(high, kept);
    WholeMegabytes(middle, low * PAGE);
    assert (high * 0x100000 + middle * 256 + low) * PAGE == high * 0x1_0000_0000 + kept;
  }

  lemma WholeWords(high: nat, kept: nat)
    requires kept < 0x1_0000_0000
    ensures (high * 0x1_0000_0000 + kept) % 0x1_0000_0000 == kept
  {
  }

  lemma WholeMegabytes(middle: nat, low: nat)
    requires low < MEGABYTE
    ensures (middle * MEGABYTE + low) / MEGABYTE == middle
  {
  }

  lemma Powers()
    ensures Codec.Pow2(12) == 4096 && Codec.Pow2(20) == MEGABYTE
  {
    assert Codec.Pow2(6) == 64;
    assert Codec.Pow2(12) == 4096;
    assert Codec.Pow2(16) == 65536;
  }

  /** It is the right physical address exactly when frame and page agree in their low 8 bits. */
  lemma TranslateExactly(frame: nat, virtual: nat)
    requires frame < 0x100000
    ensures Translate(frame, virtual) == frame * PAGE + virtual % PAGE <==> frame % 256 == virtual / PAGE % 256
  {
    hide Translate;
    TranslateMegabytes(frame, virtual);
    var page := virtual / PAGE;
    assert frame / 256 % 4096 == frame / 256;
    assert frame * PAGE == frame / 256 * MEGABYTE + frame % 256 * PAGE;
    assert virtual % MEGABYTE == page % 256 * PAGE + virtual % PAGE by { LowBits(virtual); }
  }

  lemma LowBits(virtual: nat)
    ensures virtual % MEGABYTE == virtual / PAGE % 256 * PAGE + virtual % PAGE
  {
    var page := virtual / PAGE;
    assert virtual == page * PAGE + virtual % PAGE;
    assert virtual == page / 256 * MEGABYTE + (page % 256 * PAGE + virtual % PAGE);
  }

  class Pager {
    const frames: array<byte>   // one bit per frame
    var directory: Directory

    /** After k rounds of the loop in paging_init: frames 0 to k - 1 are used and no other, page j is
        mapped to frame j, read-only and for everyone, for j < k, and no other page is mapped. */
    ghost predicate Identity(k: nat)
      reads this, frames
    {
      && frames.Length == FRAMES / 8 && k <= FRAMES
      && (forall f :: 0 <= f < FRAMES ==> (View(frames[..])[f] <==> f < k))
      && (forall j: nat :: j < k ==> EntryOf(directory, j) == PageEntry(true, false, true, j))
      && (forall j: nat :: k <= j ==> !EntryOf(directory, j).present)
    }

    /** first_frame: the lowest free frame, None (-1 in the source) exactly if all are used. */
    method FirstFrame() returns (f: Option<nat>)
      requires frames.Length == FRAMES / 8
      ensures f.Some? ==> f.value < FRAMES && !View(frames[..])[f.value] && forall g :: 0 <= g < f.value ==> View(frames[..])[g]
      ensures f.None? ==> forall g :: 0 <= g < FRAMES ==> View(frames[..])[g]
    {
      hide View;
      var i := 0;
      while i < frames.Length
        invariant 0 <= i <= frames.Length
        invariant forall g :: 0 <= g < 8 * i ==> View(frames[..])[g]
      {
        if frames[i] != 0xff {
          var j := 0;
          while j < 8
            invariant 0 <= j <= 8
            invariant forall g :: 0 <= g < 8 * i + j ==> View(frames[..])[g]
          {
            var used := Read(frames, 8 * i + j);
            if !used {
              return Some(8 * i + j);
            }
            j := j + 1;
          }
        } else {
          FullByte(frames[..], i);
        }
        i := i + 1;
      }
      return None;
    }

    /** get_page with make: the table is created, all entries absent, if it is not there. */
    method MakeTable(address: nat)
      modifies this`directory
      ensures address / PAGE / PAGES_PER_TABLE in directory
      ensures forall j: nat :: EntryOf(directory, j) == old(EntryOf(directory, j))
    {
      var table := address / PAGE / PAGES_PER_TABLE;
      if table !in directory {
        directory := directory[table := seq(PAGES_PER_TABLE, _ => ABSENT)];
      }
    }

    /** alloc_page on the entry of `address`.  With no frame left the kernel halts. */
    method AllocPage(address: nat, kernel: bool, writable: bool) returns (halted: bool)
      requires frames.Length == FRAMES / 8 && address / PAGE / PAGES_PER_TABLE in directory
      modifies this`directory, frames
      ensures var page := address / PAGE;
        if old(EntryOf(directory, page)).present || halted then
          directory == old(directory) && View(frames[..]) == old(View(frames[..]))
        else
          exists f :: 0 <= f < FRAMES && !old(View(frames[..]))[f] && (forall g :: 0 <= g < f ==> old(View(frames[..]))[g])
            && View(frames[..]) == old(View(frames[..]))[f := true]
            && directory == WithEntry(old(directory), page, PageEntry(true, writable, !kernel, f))
      ensures halted ==> forall g :: 0 <= g < FRAMES ==> old(View(frames[..]))[g]
    {
      hide View, WithEntry;
      var page := address / PAGE;
      if EntryOf(directory, page).present {
        return false;
      }
      var f := FirstFrame();
      if f.None? {
        return true;
      }
      Set(frames, f.value);
      directory := WithEntry(directory, page, PageEntry(true, writable, !kernel, f.value));
      halted := false;
    }

    /** One round of the loop in paging_init. */
    method MapNext(k: nat)
      requires Identity(k) && k < FRAMES
      modifies this`directory, frames
      ensures Identity(k + 1)
    {
      hide View, WithEntry;
      MakeTable(k * PAGE);
      ghost var dir, bits := directory, View(frames[..]);
      assert !bits[k];
      assert EntryOf(dir, k) == EntryOf(dir, k * PAGE / PAGE);
      var halted := AllocPage(k * PAGE, false, false);
      forall j: nat
        ensures EntryOf(directory, j) == if j == k then PageEntry(true, false, true, k) else EntryOf(dir, j)
      {
        WithEntryAt(dir, k, PageEntry(true, false, true, k), j);
      }
    }

    /** paging_init: the pages up to and including the one at 0xf00000 are mapped. */
    constructor ()
      ensures Identity(0xf01) && fresh(frames)
    {
      frames := new byte[FRAMES / 8](_ => 0);
      directory := map[];
      new;
      ZeroView(frames[..]);
      var i := 0;
      ghost var k := 0;
      while i <= 0xf00000
        invariant i == k * PAGE && k <= 0xf01 && Identity(k)
      {
        MapNext(i / PAGE);
        i := i + 0x1000;
        k := k + 1;
      }
    }

    /** virtual2phys with paging on: 0 for an address that is not mapped; otherwise its megabyte is the
        frame's and the place within it the address's own, which on an identity mapping is the address. */
    method Virtual2Phys(virtual: nat) returns (physical: nat)
      ensures !EntryOf(directory, virtual / PAGE).present ==> physical == 0
      ensures EntryOf(directory, virtual / PAGE).present ==>
        physical / MEGABYTE == EntryOf(directory, virtual / PAGE).frame / 256 % 4096 && physical % MEGABYTE == virtual % MEGABYTE
      ensures forall k: nat :: Identity(k) && virtual < k * PAGE ==> physical == virtual
    {
      hide Translate;
      var entry := EntryOf(directory, virtual / PAGE);
      if !entry.present {
        forall k: nat | Identity(k) && virtual < k * PAGE
          ensures false
        {
          IdentityTranslates(k, virtual);
        }
        return 0;
      }
      physical := Translate(entry.frame, virtual);
      TranslateMegabytes(entry.frame, virtual);
      forall k: nat | Identity(k) && virtual < k * PAGE
        ensures physical == virtual
      {
        IdentityTranslates(k, virtual);
      }
    }

    /** On the whole mapped range virtual2phys is the identity, despite its mask. */
    lemma IdentityTranslates(k: nat, virtual: nat)
      requires Identity(k)
      ensures virtual < k * PAGE ==> EntryOf(directory, virtual / PAGE).present
      ensures virtual < k * PAGE ==> Translate(EntryOf(directory, virtual / PAGE).frame, virtual) == virtual
      ensures k * PAGE <= virtual ==> !EntryOf(directory, virtual / PAGE).present
    {
      if virtual < k * PAGE {
        TranslateExactly(virtual / PAGE, virtual);
      }
    }
  }

  lemma FullBit(k: nat)
    requires k < 8
    ensures Bit(0xff, k)
  {
  }

  lemma FullByte(bytes: seq<byte>, i: nat)
    requires i < |bytes| && bytes[i] == 0xff
    ensures forall g :: 8 * i <= g < 8 * i + 8 ==> View(bytes)[g]
  {
    hide Bit;
    forall g | 8 * i <= g < 8 * i + 8
      ensures View(bytes)[g]
    {
      FullBit(g % 8);
      assert g / 8 == i;
    }
  }
}
