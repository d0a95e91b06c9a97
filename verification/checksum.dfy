/** internet_checksum of src/network/network_utils.c against section 1 of RFC 1071: the 16-bit
    one's complement of the one's complement sum of the 16-bit words, an odd last byte padded with
    zero. */
module Checksum {
  import opened Bitmap
  import opened Codec

  const ALL_ONES: nat := 0xffff

  // ---------- The sum of RFC 1071 ----------

  /** Addition with end-around carry. */
  function OnesAdd(a: nat, b: nat): nat { if a + b > ALL_ONES then a + b - ALL_ONES else a + b }

  predicate Small(words: seq<nat>) { forall i :: 0 <= i < |words| ==> words[i] <= ALL_ONES }

  function OnesSum(words: seq<nat>): nat
  {
    if words == [] then 0 else OnesAdd(OnesSum(words[..|words| - 1]), words[|words| - 1])
  }

  /** Consecutive 16-bit words, in network order; bits after the last whole word are ignored. */
  function Words(bits: seq<bool>): seq<nat>
    decreases |bits|
  {
    if |bits| < 16 then [] else [Number(bits[..16])] + Words(bits[16..])
  }

  /** The data part is padded to whole words. */
  function Padded(bits: seq<bool>): seq<bool>
  {
    if |bits| % 16 == 8 then bits + [false, false, false, false, false, false, false, false] else bits
  }

  function AllWords(header: seq<bool>, pseudo: seq<bool>, data: seq<bool>): seq<nat>
  {
    Words(header) + Words(pseudo) + Words(Padded(data))
  }

  // ---------- Plain sum, carries folded in at the end ----------

  function Sum(words: seq<nat>): nat
  {
    if words == [] then 0 else Sum(words[..|words| - 1]) + words[|words| - 1]
  }

  /** The number from 0 to 0xffff that is 0 only for 0 and congruent to s modulo 0xffff. */
  function Reduced(s: nat): (r: nat)
    ensures r <= ALL_ONES
  {
    if s == 0 then 0 else (s - 1) % ALL_ONES + 1
  }

  lemma ReducedSmall(s: nat)
    requires s <= ALL_ONES
    ensures Reduced(s) == s
  {
  }

  lemma ReducedDown(s: nat)
    requires ALL_ONES < s
    ensures Reduced(s) == Reduced(s - ALL_ONES)
  {
    assert (s - 1 - ALL_ONES) % ALL_ONES == (s - 1) % ALL_ONES;
  }

  lemma {:induction false} ReducedDrop(s: nat, k: nat)
    requires k * ALL_ONES < s
    ensures Reduced(s) == Reduced(s - k * ALL_ONES)
  {
    if k != 0 {
      assert (k - 1) * ALL_ONES + ALL_ONES == k * ALL_ONES;
      ReducedDrop(s, k - 1);
      ReducedDown(s - (k - 1) * ALL_ONES);
    }
  }

  lemma ReducedAdd(s: nat, w: nat)
    requires w <= ALL_ONES
    ensures OnesAdd(Reduced(s), w) == Reduced(s + w)
  {
    if s != 0 {
      var q := (s - 1) / ALL_ONES;
      assert s == q * ALL_ONES + Reduced(s);
      ReducedDrop(s + w, q);
      if Reduced(s) + w > ALL_ONES {
        ReducedDown(Reduced(s) + w);
        ReducedSmall(Reduced(s) + w - ALL_ONES);
      } else {
        ReducedSmall(Reduced(s) + w);
      }
    } else {
      ReducedSmall(w);
    }
  }

  /** Folding the carries in once, at the end, gives the sum with end-around carries. */
  lemma {:induction false} OnesSumReduced(words: seq<nat>)
    requires Small(words)
    ensures OnesSum(words) == Reduced(Sum(words))
  {
    if words != [] {
      OnesSumReduced(words[..|words| - 1]);
      ReducedAdd(Sum(words[..|words| - 1]), words[|words| - 1]);
    }
  }

  /** One's complement addition is addition modulo 0xffff, in which only nothing adds up to 0. */
  lemma SumModulo(words: seq<nat>)
    requires Small(words)
    ensures OnesSum(words) <= 0xffff && OnesSum(words) % 0xffff == Sum(words) % 0xffff
    ensures OnesSum(words) == 0 <==> forall i :: 0 <= i < |words| ==> words[i] == 0
  {
    hide Sum, OnesSum, Reduced;
    OnesSumReduced(words);
    ReducedModulo(Sum(words));
    SumZero(words);
  }

  lemma ReducedModulo(s: nat)
    ensures Reduced(s) <= 0xffff && Reduced(s) % 0xffff == s % 0xffff && (Reduced(s) == 0 <==> s == 0)
  {
    if s != 0 {
      var q, r := (s - 1) / 0xffff, (s - 1) % 0xffff;
      assert s == q * 0xffff + (r + 1);
    }
  }

  lemma {:induction false} SumZero(words: seq<nat>)
    ensures Sum(words) == 0 <==> forall i :: 0 <= i < |words| ==> words[i] == 0
  {
    if words != [] {
      SumZero(words[..|words| - 1]);
    }
  }

  /** The complemented sum. */
  function Complement(words: seq<nat>): nat
    requires Small(words)
  {
    OnesSumReduced(words);
    ALL_ONES - OnesSum(words)
  }

  lemma {:induction false} SumConcat(a: seq<nat>, b: seq<nat>)
    ensures Sum(a + b) == Sum(a) + Sum(b)
  {
    if b == [] {
      assert a + b == a;
    } else {
      SumConcat(a, b[..|b| - 1]);
      assert (a + b)[..|a + b| - 1] == a + b[..|b| - 1];
    }
  }

  lemma {:induction false} SumBound(words: seq<nat>)
    requires Small(words)
    ensures Sum(words) <= |words| * ALL_ONES
  {
    if words != [] {
      SumBound(words[..|words| - 1]);
    }
  }

  lemma Pow16()
    ensures Pow2(16) == 0x10000
  {
    assert Pow2(4) == 16;
    assert Pow2(8) == 256;
    assert Pow2(12) == 4096;
  }

  lemma {:induction false} WordsBound(bits: seq<bool>)
    ensures |Words(bits)| == |bits| / 16
    ensures Small(Words(bits))
    decreases |bits|
  {
    if |bits| >= 16 {
      WordsBound(bits[16..]);
      NumberBound(bits[..16]);
      Pow16();
    }
  }

  lemma {:induction false} WordAt(bits: seq<bool>, i: nat)
    requires 16 * i + 16 <= |bits|
    ensures |Words(bits)| == |bits| / 16 && Words(bits)[i] == FieldOf(bits, 16 * i, 16)
    decreases i
  {
    WordsBound(bits);
    if i == 0 {
      assert bits[0..16] == bits[..16];
    } else {
      WordAt(bits[16..], i - 1);
      SliceOfRest(bits, 16, 16 * (i - 1), 16 * (i - 1) + 16);
    }
  }

  lemma SliceOfRest(bits: seq<bool>, n: nat, from: nat, to: nat)
    requires from <= to && n + to <= |bits|
    ensures bits[n..][from..to] == bits[n + from..n + to]
  {
  }

  // ---------- Bytes and words ----------

  function Val(b: byte): (v: nat)
    ensures v < 256
  {
    b as nat
  }

  lemma OneByteBits(b: byte)
    ensures HeaderBits([b]) == [Bit(b, 7), Bit(b, 6), Bit(b, 5), Bit(b, 4), Bit(b, 3), Bit(b, 2), Bit(b, 1), Bit(b, 0)]
  {
    hide Bit, HeaderBits;
    OneBit(b, 0);
    OneBit(b, 1);
    OneBit(b, 2);
    OneBit(b, 3);
    OneBit(b, 4);
    OneBit(b, 5);
    OneBit(b, 6);
    OneBit(b, 7);
  }

  lemma OneBit(b: byte, k: nat)
    requires k < 8
    ensures |HeaderBits([b])| == 8 && HeaderBits([b])[k] == Bit(b, 7 - k)
  {
    hide Bit;
  }

  lemma ByteNumber(b: byte)
    ensures Number(HeaderBits([b])) == Val(b)
  {
    hide Bit, Number, Digit, Val, HeaderBits;
    EightBits(Bit(b, 7), Bit(b, 6), Bit(b, 5), Bit(b, 4), Bit(b, 3), Bit(b, 2), Bit(b, 1), Bit(b, 0));
    ByteBits(b);
    OneByteBits(b);
  }

  function Digit(on: bool, weight: nat): nat { if on then weight else 0 }

  lemma ByteBits(b: byte)
    ensures Val(b) == Digit(Bit(b, 7), 128) + Digit(Bit(b, 6), 64) + Digit(Bit(b, 5), 32) + Digit(Bit(b, 4), 16)
      + Digit(Bit(b, 3), 8) + Digit(Bit(b, 2), 4) + Digit(Bit(b, 1), 2) + Digit(Bit(b, 0), 1)
  {
  }

  lemma NumberAppend(bits: seq<bool>, b: bool)
    ensures Number(bits + [b]) == 2 * Number(bits) + Digit(b, 1)
  {
    assert (bits + [b])[..|bits|] == bits;
  }

  lemma EightBits(a: bool, b: bool, c: bool, d: bool, e: bool, f: bool, g: bool, h: bool)
    ensures Number([a, b, c, d, e, f, g, h]) == Digit(a, 128) + Digit(b, 64) + Digit(c, 32) + Digit(d, 16)
      + Digit(e, 8) + Digit(f, 4) + Digit(g, 2) + Digit(h, 1)
  {
    hide Number;
    NumberNone();
    NumberAppend([], a);
    NumberAppend([] + [a], b);
    NumberAppend([] + [a] + [b], c);
    NumberAppend([] + [a] + [b] + [c], d);
    NumberAppend([] + [a] + [b] + [c] + [d], e);
    NumberAppend([] + [a] + [b] + [c] + [d] + [e], f);
    NumberAppend([] + [a] + [b] + [c] + [d] + [e] + [f], g);
    NumberAppend([] + [a] + [b] + [c] + [d] + [e] + [f] + [g], h);
    assert [] + [a] + [b] + [c] + [d] + [e] + [f] + [g] + [h] == [a, b, c, d, e, f, g, h];
  }

  lemma NumberNone()
    ensures Number([]) == 0
  {
  }

  lemma ByteSlice(bytes: seq<byte>, j: nat)
    requires j < |bytes|
    ensures HeaderBits(bytes)[8 * j..8 * j + 8] == HeaderBits([bytes[j]])
  {
    hide Bit;
    forall k | 0 <= k < 8
      ensures HeaderBits(bytes)[8 * j + k] == HeaderBits([bytes[j]])[k]
    {
      assert (8 * j + k) / 8 == j && (8 * j + k) % 8 == k;
    }
  }

  /** A word in memory, high byte first, is the word the header bits spell. */
  lemma WordBytes(bytes: seq<byte>, i: nat)
    requires 2 * i + 2 <= |bytes|
    ensures FieldOf(HeaderBits(bytes), 16 * i, 16) == Val(bytes[2 * i]) * 256 + Val(bytes[2 * i + 1])
  {
    hide HeaderBits, Number, Val;
    var bits, hi, lo := HeaderBits(bytes), bytes[2 * i], bytes[2 * i + 1];
    ByteSlice(bytes, 2 * i);
    ByteSlice(bytes, 2 * i + 1);
    assert bits[16 * i..16 * i + 16] == bits[8 * (2 * i)..8 * (2 * i) + 8] + bits[8 * (2 * i + 1)..8 * (2 * i + 1) + 8];
    NumberConcat(HeaderBits([hi]), HeaderBits([lo]));
    ByteNumber(hi);
    ByteNumber(lo);
    assert Pow2(8) == 256;
  }

  lemma TailOfPadded(bits: seq<bool>)
    requires |bits| % 16 == 8
    ensures |Padded(bits)| == |bits| + 8
    ensures Padded(bits)[|bits| - 8..|bits| + 8] ==
      bits[|bits| - 8..|bits|] + [false, false, false, false, false, false, false, false]
  {
  }

  lemma LastByte(bytes: seq<byte>)
    requires |bytes| % 2 == 1
    ensures |Padded(HeaderBits(bytes))| == 8 * |bytes| + 8
    ensures FieldOf(Padded(HeaderBits(bytes)), 8 * |bytes| - 8, 16) == Val(bytes[|bytes| - 1]) * 256
  {
    hide HeaderBits, Number, Val, Padded, Pow2;
    var j, b := |bytes| - 1, bytes[|bytes| - 1];
    var zeros := [false, false, false, false, false, false, false, false];
    TailOfPadded(HeaderBits(bytes));
    assert 8 * |bytes| - 8 == 8 * j && 8 * |bytes| == 8 * j + 8;
    ByteSlice(bytes, j);
    NumberConcat(HeaderBits([b]), zeros);
    ByteNumber(b);
    EightBits(false, false, false, false, false, false, false, false);
    PowEight();
  }

  lemma PowEight()
    ensures Pow2(8) == 256
  {
  }

  function Ntohs(word: nat): nat { word % 256 * 256 + word / 256 }

  // ---------- The loops ----------

  /** A little-endian load followed by ntohs reads the word in network order. */
  lemma LoadedWord(bytes: seq<byte>, i: nat)
    requires 2 * i + 2 <= |bytes|
    ensures i < |Words(HeaderBits(bytes))|
    ensures Words(HeaderBits(bytes))[i] == Ntohs(Val(bytes[2 * i]) + 256 * Val(bytes[2 * i + 1]))
  {
    hide HeaderBits, Words, Val, FieldOf, Ntohs;
    WordAt(HeaderBits(bytes), i);
    WordBytes(bytes, i);
    Swapped(Val(bytes[2 * i + 1]), Val(bytes[2 * i]));
  }

  lemma Swapped(hi: nat, lo: nat)
    requires hi < 256 && lo < 256
    ensures Ntohs(lo + 256 * hi) == lo * 256 + hi
  {
    assert (lo + 256 * hi) % 256 == lo && (lo + 256 * hi) / 256 == hi;
  }

  lemma SumStep(words: seq<nat>, i: nat)
    requires i < |words|
    ensures Sum(words[..i + 1]) == Sum(words[..i]) + words[i]
  {
    assert words[..i + 1][..i] == words[..i];
  }

  /** Adds the whole words of one buffer to the sum: the three loops of internet_checksum. */
  method AddWords(bytes: seq<byte>, sum: nat) returns (total: nat)
    ensures total == sum + Sum(Words(HeaderBits(bytes)))
  {
    hide HeaderBits, Words, Val, Ntohs, Sum, Small;
    ghost var words := Words(HeaderBits(bytes));
    WordsBound(HeaderBits(bytes));
    total := sum;
    var i := 0;
    assert Sum(words[..0]) == 0 by { SumNone(words); }
    while i < |bytes| / 2
      invariant 0 <= i <= |words| == |bytes| / 2
      invariant total == sum + Sum(words[..i])
    {
      var word := Val(bytes[2 * i]) + 256 * Val(bytes[2 * i + 1]);
      LoadedWord(bytes, i);
      SumStep(words, i);
      total := total + Ntohs(word);
      i := i + 1;
    }
    assert words[..i] == words;
  }

  lemma SumNone(words: seq<nat>)
    ensures Sum(words[..0]) == 0
  {
  }

  /** internet_checksum.  At most 65537 words in all keep the 32-bit sum from overflowing. */
  method InternetChecksum(header: seq<byte>, data: seq<byte>, pseudo: seq<byte>) returns (checksum: nat)
    requires |header| / 2 + |pseudo| / 2 + (|data| + 1) / 2 <= 65537
    ensures Small(AllWords(HeaderBits(header), HeaderBits(pseudo), HeaderBits(data)))
    ensures checksum == Complement(AllWords(HeaderBits(header), HeaderBits(pseudo), HeaderBits(data)))
  {
    hide HeaderBits, Words, Padded, Sum, OnesSum, Val, AllWords;
    var sum := AddWords(header, 0);
    sum := AddWords(pseudo, sum);
    sum := AddWords(data, sum);
    PaddedSum(data);
    if |data| % 2 != 0 {
      var word := Val(data[|data| - 1]);
      sum := sum + Ntohs(word);
    }
    ghost var words := AllWords(HeaderBits(header), HeaderBits(pseudo), HeaderBits(data));
    TotalSum(header, data, pseudo);
    assert sum == Sum(words) < 0x1_0000_0000;
    var carryOut := 1;
    while carryOut != 0
      invariant 0 <= sum && Reduced(sum) == Reduced(Sum(words)) && sum < 0x1_0000_0000
      invariant carryOut == 0 ==> sum <= ALL_ONES
      decreases carryOut != 0, sum
    {
      carryOut := sum / 0x10000;
      if carryOut != 0 {
        ReducedDrop(sum, carryOut);
      }
      sum := sum % 0x10000 + carryOut;
    }
    ReducedSmall(sum);
    checksum := ALL_ONES - sum;
  }

  lemma PaddedSum(data: seq<byte>)
    ensures Sum(Words(Padded(HeaderBits(data)))) ==
      Sum(Words(HeaderBits(data))) + if |data| % 2 == 0 then 0 else Val(data[|data| - 1]) * 256
  {
    hide Bit, HeaderBits, Words, Val;
    var bits := HeaderBits(data);
    if |data| % 2 != 0 {
      var n := |data| / 2;
      LastByte(data);
      WordsBound(bits);
      WordsBound(Padded(bits));
      WordAt(Padded(bits), n);
      forall i | 0 <= i < n
        ensures Words(Padded(bits))[i] == Words(bits)[i]
      {
        WordAt(Padded(bits), i);
        WordAt(bits, i);
        assert Padded(bits)[16 * i..16 * i + 16] == bits[16 * i..16 * i + 16];
      }
      assert Words(Padded(bits))[..n] == Words(bits);
    }
  }

  lemma TotalSum(header: seq<byte>, data: seq<byte>, pseudo: seq<byte>)
    requires |header| / 2 + |pseudo| / 2 + (|data| + 1) / 2 <= 65537
    ensures var words := AllWords(HeaderBits(header), HeaderBits(pseudo), HeaderBits(data));
      && Small(words) && Sum(words) < 0x1_0000_0000 && OnesSum(words) == Reduced(Sum(words))
      && Sum(words) == Sum(Words(HeaderBits(header))) + Sum(Words(HeaderBits(pseudo))) + Sum(Words(Padded(HeaderBits(data))))
  {
    hide HeaderBits, Words, Sum, OnesSum, Reduced, Small, Padded;
    var h, p, d := Words(HeaderBits(header)), Words(HeaderBits(pseudo)), Words(Padded(HeaderBits(data)));
    WordCount(header);
    WordCount(pseudo);
    WordCount(data);
    Joined(h, p);
    Joined(h + p, d);
    SumBound(h + p + d);
    OnesSumReduced(h + p + d);
    assert |h + p + d| <= 65537;
  }

  lemma WordCount(bytes: seq<byte>)
    ensures Small(Words(HeaderBits(bytes))) && |Words(HeaderBits(bytes))| == |bytes| / 2
    ensures Small(Words(Padded(HeaderBits(bytes)))) && |Words(Padded(HeaderBits(bytes)))| == (|bytes| + 1) / 2
  {
    hide Words, HeaderBits;
    WordsBound(HeaderBits(bytes));
    WordsBound(Padded(HeaderBits(bytes)));
  }

  lemma Joined(a: seq<nat>, b: seq<nat>)
    requires Small(a) && Small(b)
    ensures Small(a + b) && Sum(a + b) == Sum(a) + Sum(b)
  {
    SumConcat(a, b);
  }

  // ---------- Checking a checksum ----------

  /** Replacing one word changes the sum by the difference. */
  lemma {:induction false} SumReplace(words: seq<nat>, i: nat, w: nat)
    requires i < |words|
    ensures Sum(words[i := w]) == Sum(words) - words[i] + w
  {
    if i < |words| - 1 {
      SumReplace(words[..|words| - 1], i, w);
      assert words[i := w][..|words| - 1] == words[..|words| - 1][i := w];
    } else {
      assert words[i := w][..i] == words[..i];
    }
  }

  /** A receiver that sums the same words with the checksum in place of the zero it was computed over
      finds all ones, so internet_checksum of a correct message is 0. */
  lemma ChecksumVerifies(words: seq<nat>, i: nat)
    requires i < |words| && words[i] == 0
    requires Small(words)
    ensures OnesSum(words[i := Complement(words)]) == ALL_ONES
  {
    var checksum := Complement(words);
    OnesSumReduced(words);
    var filled := words[i := checksum];
    SumReplace(words, i, checksum);
    OnesSumReduced(filled);
    assert Sum(filled) == Sum(words) + (ALL_ONES - Reduced(Sum(words)));
    ReducedFilled(Sum(words));
  }

  /** Adding the complement of what a sum reduces to gives all ones. */
  lemma ReducedFilled(s: nat)
    ensures Reduced(s + (ALL_ONES - Reduced(s))) == ALL_ONES
  {
    if s != 0 {
      var q := (s - 1) / ALL_ONES;
      assert s == q * ALL_ONES + Reduced(s);
      ReducedDrop(s + (ALL_ONES - Reduced(s)), q);
    }
    ReducedSmall(ALL_ONES);
  }
}
