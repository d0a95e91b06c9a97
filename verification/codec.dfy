/** The bit-field codec of src/network/network_utils.c, set_bits_attr_value and get_bits_attr_value.

    Header bits are numbered as RFC 791 and RFC 9293 draw them: bit 0 is the top bit of byte 0. */
module Codec {
  import opened Bitmap

  function Pow2(n: nat): (p: nat)
    ensures 0 < p
  {
    if n == 0 then 1 else 2 * Pow2(n - 1)
  }

  /** The number a string of bits spells, most significant bit first. */
  function Number(bits: seq<bool>): nat
  {
    if bits == [] then 0 else 2 * Number(bits[..|bits| - 1]) + if bits[|bits| - 1] then 1 else 0
  }

  /** The low `size` bits of a value, most significant first. */
  function FieldBits(value: nat, size: nat): (bits: seq<bool>)
    ensures |bits| == size
  {
    if size == 0 then [] else FieldBits(value / 2, size - 1) + [value % 2 == 1]
  }

  predicate ValueBit(value: nat, k: nat) { (value / Pow2(k)) % 2 == 1 }

  function HeaderBits(bytes: seq<byte>): (bits: seq<bool>)
    ensures |bits| == 8 * |bytes|
  {
    seq(8 * |bytes|, i requires 0 <= i < 8 * |bytes| => Bit(bytes[i / 8], 7 - i % 8))
  }

  /** The header with one field overwritten. */
  function WithField(bits: seq<bool>, offset: nat, size: nat, value: nat): (bits': seq<bool>)
    requires offset + size <= |bits|
    ensures |bits'| == |bits|
  {
    bits[..offset] + FieldBits(value, size) + bits[offset + size..]
  }

  function FieldOf(bits: seq<bool>, offset: nat, size: nat): nat
    requires offset + size <= |bits|
  {
    Number(bits[offset..offset + size])
  }

  // ---------- Numbers and bits ----------

  lemma HalfPow(value: nat, k: nat)
    ensures value / 2 / Pow2(k) == value / Pow2(k + 1)
  {
    var p := Pow2(k);
    assert Pow2(k + 1) == 2 * p;
    DivDiv(value, p);
  }

  lemma DivDiv(v: nat, p: nat)
    requires 0 < p
    ensures v / 2 / p == v / (2 * p)
  {
    var h := v / 2;
    var q, r := h / p, h % p;
    assert h == q * p + r;
    assert v == q * (2 * p) + (2 * r + v % 2);
    DivUnique(v, 2 * p, q, 2 * r + v % 2);
  }

  lemma DivUnique(v: nat, d: nat, q: nat, r: nat)
    requires 0 < d && r < d && v == q * d + r
    ensures v / d == q && v % d == r
  {
    var q', r' := v / d, v % d;
    assert (q' - q) * d == r - r';
    MultipleSmall(d, q' - q);
  }

  lemma MultipleSmall(d: nat, m: int)
    ensures m >= 1 ==> m * d >= d
    ensures m <= -1 ==> m * d + d <= 0
  {
  }

  lemma {:induction false} FieldBitsAt(value: nat, size: nat, k: nat)
    requires k < size
    ensures FieldBits(value, size)[k] == ValueBit(value, size - 1 - k)
  {
    if k < size - 1 {
      FieldBitsAt(value / 2, size - 1, k);
      HalfPow(value, size - 2 - k);
    }
  }

  /** A field holds a value modulo 2 to the power of its size. */
  lemma {:induction false} NumberFieldBits(value: nat, size: nat)
    ensures Number(FieldBits(value, size)) == value % Pow2(size)
  {
    if size != 0 {
      var bits := FieldBits(value, size);
      NumberFieldBits(value / 2, size - 1);
      assert bits[..size - 1] == FieldBits(value / 2, size - 1);
      ModDouble(value, Pow2(size - 1));
    }
  }

  lemma ModDouble(value: nat, p: nat)
    requires 0 < p
    ensures value % (2 * p) == 2 * (value / 2 % p) + value % 2
  {
    var h := value / 2;
    assert value == h / p * (2 * p) + (2 * (h % p) + value % 2);
    DivUnique(value, 2 * p, h / p, 2 * (h % p) + value % 2);
  }

  lemma {:induction false} FieldBitsNumber(bits: seq<bool>)
    ensures FieldBits(Number(bits), |bits|) == bits
  {
    if bits != [] {
      FieldBitsNumber(bits[..|bits| - 1]);
    }
  }

  lemma {:induction false} NumberBound(bits: seq<bool>)
    ensures Number(bits) < Pow2(|bits|)
  {
    if bits != [] {
      NumberBound(bits[..|bits| - 1]);
    }
  }

  lemma {:induction false} NumberConcat(a: seq<bool>, b: seq<bool>)
    ensures Number(a + b) == Number(a) * Pow2(|b|) + Number(b)
  {
    if b == [] {
      assert a + b == a;
    } else {
      var front := b[..|b| - 1];
      NumberConcat(a, front);
      assert (a + b)[..|a + b| - 1] == a + front;
      assert Number(a) * Pow2(|b|) == 2 * (Number(a) * Pow2(|front|));
    }
  }

  // ---------- Reading back ----------

  /** What is written is read back, modulo the size of the field. */
  lemma ReadBack(bits: seq<bool>, offset: nat, size: nat, value: nat)
    requires offset + size <= |bits|
    ensures FieldOf(WithField(bits, offset, size, value), offset, size) == value % Pow2(size)
  {
    assert WithField(bits, offset, size, value)[offset..offset + size] == FieldBits(value, size);
    NumberFieldBits(value, size);
  }

  /** Fields that do not overlap do not disturb each other. */
  lemma ReadOther(bits: seq<bool>, offset: nat, size: nat, value: nat, offset': nat, size': nat)
    requires offset + size <= |bits| && offset' + size' <= |bits|
    requires offset + size <= offset' || offset' + size' <= offset
    ensures FieldOf(WithField(bits, offset, size, value), offset', size') == FieldOf(bits, offset', size')
  {
    assert WithField(bits, offset, size, value)[offset'..offset' + size'] == bits[offset'..offset' + size'];
  }

  /** Writing back what a field holds changes nothing. */
  lemma WriteBack(bits: seq<bool>, offset: nat, size: nat)
    requires offset + size <= |bits|
    ensures WithField(bits, offset, size, FieldOf(bits, offset, size)) == bits
  {
    FieldBitsNumber(bits[offset..offset + size]);
  }

  // ---------- The loops ----------

  lemma HeaderUpdate(bytes: seq<byte>, i: nat)
    requires i < 8 * |bytes|
    ensures HeaderBits(bytes[i / 8 := Raise(bytes[i / 8], 7 - i % 8)]) == HeaderBits(bytes)[i := true]
    ensures HeaderBits(bytes[i / 8 := Lower(bytes[i / 8], 7 - i % 8)]) == HeaderBits(bytes)[i := false]
  {
    hide Bit, Raise, Lower;
    forall j | 0 <= j < 8 * |bytes| && j / 8 == i / 8
      ensures Bit(Raise(bytes[i / 8], 7 - i % 8), 7 - j % 8) == HeaderBits(bytes)[i := true][j]
      ensures Bit(Lower(bytes[i / 8], 7 - i % 8), 7 - j % 8) == HeaderBits(bytes)[i := false][j]
    {
      BitUpdate(bytes[i / 8], 7 - i % 8, 7 - j % 8);
      assert j % 8 == i % 8 <==> j == i;
    }
  }

  /** The loop of set_bits_attr_value has written the field up to bit i. */
  ghost predicate Written(bits: seq<bool>, before: seq<bool>, field: seq<bool>, offset: nat, i: nat)
  {
    && |bits| == |before| && offset <= i <= offset + |field| <= |before|
    && forall k :: 0 <= k < |bits| ==> bits[k] == if offset <= k < i then field[k - offset] else before[k]
  }

  lemma WrittenStep(bits: seq<bool>, before: seq<bool>, field: seq<bool>, offset: nat, i: nat)
    requires Written(bits, before, field, offset, i) && i < offset + |field|
    ensures Written(bits[i := field[i - offset]], before, field, offset, i + 1)
  {
  }

  lemma WrittenAll(bits: seq<bool>, before: seq<bool>, value: nat, offset: nat, size: nat)
    requires Written(bits, before, FieldBits(value, size), offset, offset + size)
    ensures bits == WithField(before, offset, size, value)
  {
  }

  /** set_bits_attr_value.  The byte index is an 8-bit variable, so a field must end below bit 2048. */
  method SetBits(attr: array<byte>, offset: nat, size: nat, value: nat)
    requires offset + size <= 8 * attr.Length && offset + size <= 2048
    modifies attr
    ensures HeaderBits(attr[..]) == WithField(old(HeaderBits(attr[..])), offset, size, value)
  {
    hide HeaderBits, Raise, Lower, FieldBits, Written, WithField, ValueBit;
    ghost var before, field := HeaderBits(attr[..]), FieldBits(value, size);
    assert Written(before, before, field, offset, offset) by { WrittenNothing(before, field, offset); }
    var i, cnt := offset, size - 1;
    while i < offset + size
      invariant offset <= i <= offset + size && cnt == offset + size - i - 1
      invariant Written(HeaderBits(attr[..]), before, field, offset, i)
    {
      var index, bit := i / 8, 7 - i % 8;
      FieldBitsAt(value, size, i - offset);
      WrittenStep(HeaderBits(attr[..]), before, field, offset, i);
      HeaderUpdate(attr[..], i);
      ghost var bytes := attr[..];
      if ValueBit(value, cnt) {
        attr[index] := Raise(attr[index], bit);
      } else {
        attr[index] := Lower(attr[index], bit);
      }
      assert attr[..] == bytes[index := attr[index]];
      i, cnt := i + 1, cnt - 1;
    }
    WrittenAll(HeaderBits(attr[..]), before, value, offset, size);
  }

  lemma WrittenNothing(before: seq<bool>, field: seq<bool>, offset: nat)
    requires offset + |field| <= |before|
    ensures Written(before, before, field, offset, offset)
  {
  }

  /** get_bits_attr_value.  Each bit is ored into a different place of `ret`, which is addition. */
  method GetBits(attr: array<byte>, offset: nat, size: nat) returns (ret: nat)
    requires offset + size <= 8 * attr.Length && offset + size <= 2048 && size <= 32
    ensures ret == FieldOf(HeaderBits(attr[..]), offset, size)
    ensures ret < Pow2(size)
  {
    hide Bit, Probe, Pow2, Number, Partial;
    ghost var bits := HeaderBits(attr[..]);
    ret := 0;
    var i, cnt := offset, size - 1;
    PartialNothing(bits, offset, cnt + 1);
    while i < offset + size
      invariant offset <= i <= offset + size && cnt == offset + size - i - 1
      invariant Partial(bits, offset, i, cnt + 1, ret)
    {
      PartialStep(bits, offset, i, cnt, ret);
      ShiftedByte(attr[i / 8], 7 - i % 8);
      assert bits[i] == Bit(attr[i / 8], 7 - i % 8);
      if Probe(attr[i / 8], 7 - i % 8) {
        ret := ret + Pow2(cnt);
      }
      i, cnt := i + 1, cnt - 1;
    }
    PartialAll(bits, offset, i, ret);
    NumberBound(bits[offset..offset + size]);
  }

  /** `ret` is the number spelled by the bits read so far, followed by k zeros. */
  ghost predicate Partial(bits: seq<bool>, offset: nat, i: nat, k: int, ret: nat)
  {
    offset <= i <= |bits| && 0 <= k && ret == Number(bits[offset..i]) * Pow2(k)
  }

  lemma PartialNothing(bits: seq<bool>, offset: nat, k: nat)
    requires offset <= |bits|
    ensures Partial(bits, offset, offset, k, 0)
  {
  }

  lemma PartialStep(bits: seq<bool>, offset: nat, i: nat, cnt: nat, ret: nat)
    requires i < |bits| && Partial(bits, offset, i, cnt + 1, ret)
    ensures Partial(bits, offset, i + 1, cnt, if bits[i] then ret + Pow2(cnt) else ret)
  {
    hide Number, Pow2;
    NumberNext(bits, offset, i);
    Weigh(Number(bits[offset..i]), cnt);
  }

  lemma NumberNext(bits: seq<bool>, offset: nat, i: nat)
    requires offset <= i < |bits|
    ensures Number(bits[offset..i + 1]) == 2 * Number(bits[offset..i]) + if bits[i] then 1 else 0
  {
    assert bits[offset..i + 1][..i - offset] == bits[offset..i];
  }

  lemma Weigh(n: nat, k: nat)
    ensures n * Pow2(k + 1) == 2 * n * Pow2(k)
    ensures (2 * n + 1) * Pow2(k) == 2 * n * Pow2(k) + Pow2(k)
  {
    var p := Pow2(k);
    assert Pow2(k + 1) == 2 * p;
  }

  lemma PartialAll(bits: seq<bool>, offset: nat, i: nat, ret: nat)
    requires Partial(bits, offset, i, 0, ret)
    ensures ret == Number(bits[offset..i])
  {
  }
}
