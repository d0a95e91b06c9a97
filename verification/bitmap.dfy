/** Bit-addressed byte arrays: the bitmap library of src/libc/bitmap.c.

    Bit p of a bitmap lives in byte p / 8 under the mask 1 << (p % 8).  `View` is the bitmap as
    a sequence of booleans; every other module reasons about the view and never about bytes. */
module Bitmap {
  type byte = bv8

  datatype Option<+T> = None | Some(value: T)

  /** 1 << k, written out so that proofs never shift by a variable amount. */
  function Mask(k: nat): byte
    requires k < 8
  {
    match k
    case 0 => 1 case 1 => 2 case 2 => 4 case 3 => 8 case 4 => 16 case 5 => 32 case 6 => 64 case _ => 128
  }

  predicate Test(b: byte, m: byte) { b & m != 0 }

  function With(b: byte, m: byte): byte { b | m }

  function Without(b: byte, m: byte): byte { b & !m }

  predicate Apart(m: byte, n: byte) { m & n == 0 }

  predicate Bit(b: byte, k: nat)
    requires k < 8
  {
    Test(b, Mask(k))
  }

  function View(bytes: seq<byte>): (v: seq<bool>)
    ensures |v| == 8 * |bytes|
  {
    seq(8 * |bytes|, p requires 0 <= p < 8 * |bytes| => Bit(bytes[p / 8], p % 8))
  }

  /** The three shift expressions of the source. */
  function Raise(b: byte, k: nat): byte
    requires k < 8
  {
    b | (1 << k)
  }

  function Lower(b: byte, k: nat): byte
    requires k < 8
  {
    b & !(1 << k)
  }

  predicate Probe(b: byte, k: nat)
    requires k < 8
  {
    (b >> k) & 1 == 1
  }

  lemma ShiftedOne(k: nat)
    requires k < 8
    ensures 1 << k == Mask(k)
  {
  }

  lemma ShiftedByte(b: byte, k: nat)
    requires k < 8
    ensures Probe(b, k) == Bit(b, k)
  {
  }

  lemma Shifts(b: byte, k: nat)
    requires k < 8
    ensures Raise(b, k) == With(b, Mask(k)) && Lower(b, k) == Without(b, Mask(k))
  {
    hide Mask;
    ShiftedOne(k);
  }

  lemma MasksApart(k: nat, j: nat)
    requires k < 8 && j < 8
    ensures Mask(k) != 0
    ensures k == j || Apart(Mask(j), Mask(k))
  {
  }

  lemma MaskedUpdate(b: byte, m: byte, n: byte)
    requires m != 0
    ensures Apart(n, m) ==> Test(With(b, m), n) == Test(b, n) && Test(Without(b, m), n) == Test(b, n)
    ensures Test(With(b, m), m) && !Test(Without(b, m), m)
  {
  }

  lemma BitUpdate(b: byte, k: nat, j: nat)
    requires k < 8 && j < 8
    ensures Bit(Raise(b, k), j) == (j == k || Bit(b, j))
    ensures Bit(Lower(b, k), j) == (j != k && Bit(b, j))
  {
    hide Test, Mask, With, Without, Apart, Raise, Lower, Probe;
    Shifts(b, k);
    MasksApart(k, j);
    MaskedUpdate(b, Mask(k), Mask(j));
  }

  /** Writing bit p % 8 of byte p / 8 writes element p of the view and no other. */
  lemma ViewUpdate(bytes: seq<byte>, p: nat)
    requires p < 8 * |bytes|
    ensures View(bytes[p / 8 := Raise(bytes[p / 8], p % 8)]) == View(bytes)[p := true]
    ensures View(bytes[p / 8 := Lower(bytes[p / 8], p % 8)]) == View(bytes)[p := false]
  {
    hide Bit, Raise, Lower;
    forall q | 0 <= q < 8 * |bytes| && q / 8 == p / 8
      ensures Bit(Raise(bytes[p / 8], p % 8), q % 8) == View(bytes)[p := true][q]
      ensures Bit(Lower(bytes[p / 8], p % 8), q % 8) == View(bytes)[p := false][q]
    {
      BitUpdate(bytes[p / 8], p % 8, q % 8);
      assert q % 8 == p % 8 <==> q == p;
    }
  }

  lemma ZeroByte(k: nat)
    requires k < 8
    ensures !Bit(0, k)
  {
  }

  /** Zeroed memory is an empty bitmap. */
  lemma ZeroView(bytes: seq<byte>)
    requires forall i :: 0 <= i < |bytes| ==> bytes[i] == 0
    ensures View(bytes) == seq(8 * |bytes|, _ => false)
  {
    forall p | 0 <= p < 8 * |bytes|
      ensures !View(bytes)[p]
    {
      ZeroByte(p % 8);
    }
  }

  method Set(bitmap: array<byte>, position: nat)
    requires position < 8 * bitmap.Length
    modifies bitmap
    ensures View(bitmap[..]) == old(View(bitmap[..]))[position := true]
  {
    hide Bit, Raise;
    var index, bit := position / 8, position % 8;
    ViewUpdate(bitmap[..], position);
    ghost var after := bitmap[..][index := Raise(bitmap[index], bit)];
    bitmap[index] := Raise(bitmap[index], bit);
    assert bitmap[..] == after;
  }

  method Clear(bitmap: array<byte>, position: nat)
    requires position < 8 * bitmap.Length
    modifies bitmap
    ensures View(bitmap[..]) == old(View(bitmap[..]))[position := false]
  {
    hide Bit, Lower;
    var index, bit := position / 8, position % 8;
    ViewUpdate(bitmap[..], position);
    ghost var after := bitmap[..][index := Lower(bitmap[index], bit)];
    bitmap[index] := Lower(bitmap[index], bit);
    assert bitmap[..] == after;
  }

  method Read(bitmap: array<byte>, position: nat) returns (bit: bool)
    requires position < 8 * bitmap.Length
    ensures bit == View(bitmap[..])[position]
  {
    hide Bit, Probe;
    ShiftedByte(bitmap[position / 8], position % 8);
    bit := Probe(bitmap[position / 8], position % 8);
  }

  /** The bit reached after walking `offset` places round a ring of `size` bits. */
  function Around(size: nat, begin: nat, offset: nat): (p: nat)
    requires 0 < size
    ensures p < size
  {
    (begin + offset) % size
  }

  lemma AroundIsMod(size: nat, begin: nat, offset: nat)
    requires 0 < size
    ensures Around(size, begin, offset) == (begin + offset) % size
  {
  }

  /** Places one has to walk from `begin` to reach p. */
  function Offset(size: nat, begin: nat, p: nat): (d: nat)
    requires p < size
    ensures d < size
  {
    (p - begin) % size
  }

  lemma ModAdd(size: nat, x: int, k: int)
    requires 0 < size && 0 <= x + k * size < size
    ensures x % size == x + k * size
  {
    var q, r := x / size, x % size;
    assert x == q * size + r;
    assert (q + k) * size + r == x + k * size;
    MultipleBelow(size, q + k, r);
  }

  lemma MultipleBelow(size: nat, m: int, r: nat)
    requires r < size && 0 <= m * size + r < size
    ensures m == 0
  {
    MultipleAtLeast(size, m);
  }

  lemma MultipleAtLeast(size: nat, m: int)
    ensures m >= 1 ==> m * size >= size
    ensures m <= -1 ==> m * size + size <= 0
  {
  }

  /** Walking and measuring are inverse within one lap, so distinct offsets reach distinct bits. */
  lemma AroundOffset(size: nat, begin: nat, p: nat)
    requires p < size
    ensures Around(size, begin, Offset(size, begin, p)) == p
  {
    var q := (p - begin) / size;
    assert begin + Offset(size, begin, p) == p - q * size;
    ModAdd(size, begin + Offset(size, begin, p), q);
  }

  lemma OffsetAround(size: nat, begin: nat, offset: nat)
    requires offset < size
    ensures Offset(size, begin, Around(size, begin, offset)) == offset
  {
    var q := (begin + offset) / size;
    assert Around(size, begin, offset) - begin == offset - q * size;
    ModAdd(size, Around(size, begin, offset) - begin, q);
  }

  /** bitmap_fill: exactly the `count` bits that follow `begin` round the ring take the value `on`.
      A fill of more than one lap covers the whole ring. */
  method Fill(bitmap: array<byte>, size: nat, begin: nat, count: nat, on: bool)
    requires 0 < size <= 8 * bitmap.Length
    modifies bitmap
    ensures forall p :: 0 <= p < 8 * bitmap.Length ==>
      View(bitmap[..])[p] == if p < size && Offset(size, begin, p) < count then on else old(View(bitmap[..]))[p]
  {
    ghost var before := View(bitmap[..]);
    var i := 0;
    while i < count
      invariant 0 <= i <= count
      invariant forall p :: 0 <= p < 8 * bitmap.Length ==>
        View(bitmap[..])[p] == if p < size && Offset(size, begin, p) < i then on else before[p]
    {
      var position := (begin + i) % size;
      FillStep(size, begin, i, position);
      if on {
        Set(bitmap, position);
      } else {
        Clear(bitmap, position);
      }
      i := i + 1;
    }
  }

  lemma FillStep(size: nat, begin: nat, i: nat, position: nat)
    requires 0 < size && position == (begin + i) % size
    ensures forall p :: 0 <= p < size ==>
      (Offset(size, begin, p) < i + 1 <==> Offset(size, begin, p) < i || p == position)
  {
    forall p | 0 <= p < size
      ensures Offset(size, begin, p) < i + 1 <==> Offset(size, begin, p) < i || p == position
    {
      AroundOffset(size, begin, p);
      if i < size {
        OffsetAround(size, begin, i);
      }
    }
  }

  /** `count` consecutive ring bits, `offset` places after `begin`, all equal to `wanted`, without
      passing `begin` again. */
  predicate RunAt(v: seq<bool>, size: nat, begin: nat, offset: nat, count: nat, wanted: bool)
    requires 0 < size <= |v|
  {
    offset + count <= size && forall i :: offset <= i < offset + count ==> v[Around(size, begin, i)] == wanted
  }

  /** What bitmap_fill fills, up to the whole lap, is a run that bitmap_find_sequence looks for. */
  lemma FilledIsRun(v: seq<bool>, size: nat, begin: nat, count: nat, on: bool)
    requires 0 < size <= |v| && count <= size
    requires forall p :: 0 <= p < size && Offset(size, begin, p) < count ==> v[p] == on
    ensures RunAt(v, size, begin, 0, count, on)
  {
    hide Offset, Around;
    forall i | 0 <= i < count
      ensures v[Around(size, begin, i)] == on
    {
      OffsetAround(size, begin, i);
    }
  }

  /** And a run is nothing else: its bits, wherever they lie round the ring, have the value. */
  lemma RunIsFilled(v: seq<bool>, size: nat, begin: nat, count: nat, on: bool)
    requires 0 < size <= |v| && RunAt(v, size, begin, 0, count, on)
    ensures count <= size && forall p :: 0 <= p < size && Offset(size, begin, p) < count ==> v[p] == on
  {
    hide Offset, Around;
    forall p | 0 <= p < size && Offset(size, begin, p) < count
      ensures v[p] == on
    {
      AroundOffset(size, begin, p);
    }
  }

  predicate IsFirstRun(v: seq<bool>, size: nat, begin: nat, offset: nat, count: nat, wanted: bool)
    requires 0 < size <= |v|
  {
    && RunAt(v, size, begin, offset, count, wanted)
    && forall j :: 0 <= j < offset ==> !RunAt(v, size, begin, j, count, wanted)
  }

  /** bitmap_find_sequence: the first run in scan order, and None exactly when there is no run.
      A wanted length of 0 is never matched, because the length test follows the increment. */
  method FindSequence(bitmap: array<byte>, size: nat, begin: nat, count: nat, wanted: bool) returns (r: Option<nat>)
    requires 0 < size <= 8 * bitmap.Length
    ensures r.Some? ==> 0 < count && (exists k :: IsFirstRun(View(bitmap[..]), size, begin, k, count, wanted) && r.value == Around(size, begin, k))
    ensures r.None? ==> count == 0 || forall j :: 0 <= j < size ==> !RunAt(View(bitmap[..]), size, begin, j, count, wanted)
  {
    hide Bit, Around, View;
    ghost var v := View(bitmap[..]);
    var current := 0;
    var start := 0;
    var i := 0;
    while i < size
      invariant 0 <= current <= i <= size
      invariant 0 < count ==> current < count
      invariant 0 < current ==> start == Around(size, begin, i - current)
      invariant forall j :: i - current <= j < i ==> v[Around(size, begin, j)] == wanted
      invariant current < i ==> v[Around(size, begin, i - current - 1)] != wanted
      invariant 0 < count ==> forall j :: 0 <= j < i - current ==> !RunAt(v, size, begin, j, count, wanted)
    {
      var position := (begin + i) % size;
      var value := Read(bitmap, position);
      AroundIsMod(size, begin, i);
      assert v[Around(size, begin, i)] == value;
      if value == wanted {
        current := current + 1;
        if current == 1 {
          start := position;
        }
        if current == count {
          assert IsFirstRun(v, size, begin, i + 1 - current, count, wanted);
          return Some(start);
        }
      } else {
        current := 0;
      }
      i := i + 1;
    }
    return None;
  }
}
