/** Header construction: build_ipv4_packet of src/network/ip.c, tcp_build_segment of
    src/network/tcp.c and pseudo_header_build of src/network/network_utils.c, field by field. */
module Headers {
  import opened Bitmap
  import opened Codec
  import opened Checksum

  datatype Field = Field(offset: nat, size: nat, value: nat)

  predicate InHeader(f: Field, n: nat) { f.offset + f.size <= n <= 2048 }

  predicate AllInHeader(fs: seq<Field>, n: nat) { forall i :: 0 <= i < |fs| ==> InHeader(fs[i], n) }

  /** The header after writing the fields in order. */
  function WriteAll(bits: seq<bool>, fs: seq<Field>): (r: seq<bool>)
    requires AllInHeader(fs, |bits|)
    ensures |r| == |bits|
  {
    if fs == [] then bits
    else
      var f := fs[|fs| - 1];
      WithField(WriteAll(bits, fs[..|fs| - 1]), f.offset, f.size, f.value)
  }

  /** Each field starts at or after the end of the one before. */
  predicate Ascending(fs: seq<Field>)
  {
    forall i :: 0 <= i < |fs| - 1 ==> fs[i].offset + fs[i].size <= fs[i + 1].offset
  }

  lemma {:induction false} AscendingApart(fs: seq<Field>, i: nat, j: nat)
    requires Ascending(fs) && i < j < |fs|
    ensures fs[i].offset + fs[i].size <= fs[j].offset
  {
    if i < j - 1 {
      AscendingApart(fs, i, j - 1);
    }
  }

  /** Every field of an ascending list reads back as written, modulo its size. */
  lemma {:induction false} AllReadBack(bits: seq<bool>, fs: seq<Field>, i: nat)
    requires AllInHeader(fs, |bits|) && Ascending(fs) && i < |fs|
    ensures FieldOf(WriteAll(bits, fs), fs[i].offset, fs[i].size) == fs[i].value % Pow2(fs[i].size)
  {
    hide WithField, FieldOf;
    var last, front := fs[|fs| - 1], fs[..|fs| - 1];
    if i == |fs| - 1 {
      ReadBack(WriteAll(bits, front), last.offset, last.size, last.value);
    } else {
      AllReadBack(bits, front, i);
      AscendingApart(fs, i, |fs| - 1);
      ReadOther(WriteAll(bits, front), last.offset, last.size, last.value, fs[i].offset, fs[i].size);
    }
  }

  predicate Covers(f: Field, p: nat) { f.offset <= p < f.offset + f.size }

  /** A bit inside some field no longer depends on what the buffer held. */
  lemma {:induction false} CoveredBit(a: seq<bool>, b: seq<bool>, fs: seq<Field>, p: nat, k: nat)
    requires |a| == |b| && AllInHeader(fs, |a|) && k < |fs| && Covers(fs[k], p)
    ensures WriteAll(a, fs)[p] == WriteAll(b, fs)[p]
  {
    if k < |fs| - 1 {
      CoveredBit(a, b, fs[..|fs| - 1], p, k);
    }
  }

  /** The fields i to j - 1 lie end to end and make up the bits [from, to). */
  predicate Tiles(fs: seq<Field>, i: nat, j: nat, from: nat, to: nat)
  {
    && i < j <= |fs| && fs[i].offset == from && fs[j - 1].offset + fs[j - 1].size == to
    && forall k :: i <= k < j - 1 ==> fs[k].offset + fs[k].size == fs[k + 1].offset
  }

  lemma {:induction false} TiledBits(a: seq<bool>, b: seq<bool>, fs: seq<Field>, i: nat, j: nat, from: nat, to: nat)
    requires |a| == |b| && AllInHeader(fs, |a|) && Tiles(fs, i, j, from, to)
    ensures from <= to <= |a| && WriteAll(a, fs)[from..to] == WriteAll(b, fs)[from..to]
  {
    hide WriteAll;
    var last := fs[j - 1].offset;
    forall p | last <= p < to
      ensures WriteAll(a, fs)[p] == WriteAll(b, fs)[p]
    {
      CoveredBit(a, b, fs, p, j - 1);
    }
    if i < j - 1 {
      TiledBits(a, b, fs, i, j - 1, from, last);
    }
    var x, y := WriteAll(a, fs), WriteAll(b, fs);
    forall p | from <= p < to
      ensures x[p] == y[p]
    {
      assert p < last ==> x[from..last][p - from] == x[p] && y[from..last][p - from] == y[p];
    }
  }

  /** Writing a word of the header replaces one word of the checksum's input. */
  lemma WordsWithField(bits: seq<bool>, i: nat, value: nat)
    requires 16 * i + 16 <= |bits|
    ensures i < |Words(bits)| && Words(WithField(bits, 16 * i, 16, value)) == Words(bits)[i := value % 0x10000]
  {
    hide Words, FieldOf, WithField;
    var after := WithField(bits, 16 * i, 16, value);
    WordAt(bits, i);
    WordsBound(after);
    forall j | 0 <= j < |Words(after)|
      ensures Words(after)[j] == Words(bits)[i := value % 0x10000][j]
    {
      WordAt(after, j);
      WordAt(bits, j);
      if j == i {
        ReadBack(bits, 16 * i, 16, value);
        Pow16();
      } else {
        ReadOther(bits, 16 * i, 16, value, 16 * j, 16);
      }
    }
  }

  /** The n-th of a list of set_bits_attr_value calls on one header. */
  method Put(header: array<byte>, f: Field, ghost before: seq<bool>, ghost fs: seq<Field>, ghost n: nat)
    requires |before| == 8 * header.Length && AllInHeader(fs, |before|)
    requires n < |fs| && f == fs[n] && InHeader(f, 8 * header.Length)
    requires HeaderBits(header[..]) == WriteAll(before, fs[..n])
    modifies header
    ensures HeaderBits(header[..]) == WriteAll(before, fs[..n + 1])
  {
    hide HeaderBits, WithField;
    SetBits(header, f.offset, f.size, f.value);
    assert fs[..n + 1][..n] == fs[..n];
  }

  lemma WriteNothing(bits: seq<bool>)
    ensures WriteAll(bits, []) == bits
  {
  }

  lemma SameOutside(a: seq<bool>, b: seq<bool>, word: nat)
    requires |a| == |b| && word + 16 <= |a| && a[0..word] == b[0..word] && a[word + 16..|a|] == b[word + 16..|a|]
    ensures WithField(a, word, 16, 0) == WithField(b, word, 16, 0)
  {
    assert a[..word] == a[0..word] && b[..word] == b[0..word];
    assert a[word + 16..] == a[word + 16..|a|] && b[word + 16..] == b[word + 16..|a|];
  }

  // ---------- IPv4 ----------

  const IPV4_CHECKSUM: nat := 80

  datatype Ipv4 = Ipv4(version: nat, ihl: nat, dscp: nat, ecn: nat, totalLength: nat, identification: nat,
                       flags: nat, fragmentOffset: nat, timeToLive: nat, protocol: nat, source: nat, destination: nat)

  /** Every field but the checksum, as section 3.1 of RFC 791 lays them out. */
  function Ipv4Fields(h: Ipv4): (fs: seq<Field>)
    ensures |fs| == 12 && AllInHeader(fs, 160)
  {
    [Field(0, 4, h.version), Field(4, 4, h.ihl), Field(8, 6, h.dscp), Field(14, 2, h.ecn),
     Field(16, 16, h.totalLength), Field(32, 16, h.identification), Field(48, 3, h.flags),
     Field(51, 13, h.fragmentOffset), Field(64, 8, h.timeToLive), Field(72, 8, h.protocol),
     Field(96, 32, h.source), Field(128, 32, h.destination)]
  }

  function Zeros(n: nat): (bits: seq<bool>)
    ensures |bits| == n
  {
    seq(n, _ => false)
  }

  /** The header before its checksum is filled in. */
  function Ipv4Unsummed(h: Ipv4): (bits: seq<bool>)
    ensures |bits| == 160
  {
    WithField(WriteAll(Zeros(160), Ipv4Fields(h)), IPV4_CHECKSUM, 16, 0)
  }

  function Ipv4Header(h: Ipv4): (bits: seq<bool>)
    ensures |bits| == 160
  {
    WordsBound(Ipv4Unsummed(h));
    WithField(Ipv4Unsummed(h), IPV4_CHECKSUM, 16, Complement(Words(Ipv4Unsummed(h))))
  }

  lemma Ipv4Layout(h: Ipv4)
    ensures Ascending(Ipv4Fields(h))
    ensures Tiles(Ipv4Fields(h), 0, 10, 0, IPV4_CHECKSUM) && Tiles(Ipv4Fields(h), 10, 12, IPV4_CHECKSUM + 16, 160)
    ensures forall i :: 0 <= i < 12 ==>
      Ipv4Fields(h)[i].offset + Ipv4Fields(h)[i].size <= IPV4_CHECKSUM || IPV4_CHECKSUM + 16 <= Ipv4Fields(h)[i].offset
  {
  }

  /** The fields and the checksum make up all 160 bits, so nothing of the buffer shows through. */
  lemma Ipv4Partition(h: Ipv4, bits: seq<bool>)
    requires |bits| == 160
    ensures WithField(WriteAll(bits, Ipv4Fields(h)), IPV4_CHECKSUM, 16, 0) == Ipv4Unsummed(h)
  {
    hide WriteAll, Ipv4Fields;
    var fs := Ipv4Fields(h);
    Ipv4Layout(h);
    TiledBits(bits, Zeros(160), fs, 0, 10, 0, IPV4_CHECKSUM);
    TiledBits(bits, Zeros(160), fs, 10, 12, IPV4_CHECKSUM + 16, 160);
    SameOutside(WriteAll(bits, fs), WriteAll(Zeros(160), fs), IPV4_CHECKSUM);
  }

  /** Every field of an IPv4 header just built reads back as given, modulo its size. */
  lemma Ipv4ReadBack(h: Ipv4, i: nat)
    requires i < 12
    ensures FieldOf(Ipv4Header(h), Ipv4Fields(h)[i].offset, Ipv4Fields(h)[i].size) ==
      Ipv4Fields(h)[i].value % Pow2(Ipv4Fields(h)[i].size)
  {
    hide WithField, FieldOf, WriteAll, Ipv4Fields;
    var fs := Ipv4Fields(h);
    var f, written := fs[i], WriteAll(Zeros(160), fs);
    Ipv4Layout(h);
    AllReadBack(Zeros(160), fs, i);
    ReadOther(written, IPV4_CHECKSUM, 16, 0, f.offset, f.size);
    WordsBound(Ipv4Unsummed(h));
    ReadOther(Ipv4Unsummed(h), IPV4_CHECKSUM, 16, Complement(Words(Ipv4Unsummed(h))), f.offset, f.size);
  }

  /** internet_checksum of an IPv4 header just built, its checksum included, is 0. */
  lemma Ipv4Verifies(h: Ipv4)
    ensures Small(Words(Ipv4Header(h))) && Complement(Words(Ipv4Header(h))) == 0
  {
    hide WithField, FieldOf, WriteAll, Ipv4Fields, Words, OnesSum;
    var unsummed := Ipv4Unsummed(h);
    WordsBound(unsummed);
    var checksum := Complement(Words(unsummed));
    WordAt(unsummed, 5);
    ReadBack(WriteAll(Zeros(160), Ipv4Fields(h)), IPV4_CHECKSUM, 16, 0);
    assert Words(unsummed)[5] == 0;
    WordsWithField(unsummed, 5, checksum);
    ChecksumVerifies(Words(unsummed), 5);
    WordsBound(Ipv4Header(h));
  }

  /** build_ipv4_packet, header part.  The result depends on the arguments alone. */
  method BuildIpv4(header: array<byte>, h: Ipv4)
    requires header.Length == 20
    modifies header
    ensures HeaderBits(header[..]) == Ipv4Header(h)
  {
    hide HeaderBits, WithField, WriteAll, Words, Complement, AllWords;
    ghost var before, fs := HeaderBits(header[..]), Ipv4Fields(h);
    WriteNothing(before);
    Put(header, Field(0, 4, h.version), before, fs, 0);
    Put(header, Field(4, 4, h.ihl), before, fs, 1);
    Put(header, Field(8, 6, h.dscp), before, fs, 2);
    Put(header, Field(14, 2, h.ecn), before, fs, 3);
    Put(header, Field(16, 16, h.totalLength), before, fs, 4);
    Put(header, Field(32, 16, h.identification), before, fs, 5);
    Put(header, Field(48, 3, h.flags), before, fs, 6);
    Put(header, Field(51, 13, h.fragmentOffset), before, fs, 7);
    Put(header, Field(64, 8, h.timeToLive), before, fs, 8);
    Put(header, Field(72, 8, h.protocol), before, fs, 9);
    Put(header, Field(96, 32, h.source), before, fs, 10);
    Put(header, Field(128, 32, h.destination), before, fs, 11);
    assert fs[..12] == fs;
    SetBits(header, IPV4_CHECKSUM, 16, 0);
    Ipv4Partition(h, before);
    var checksum := InternetChecksum(header[..], [], []);
    HeaderOnly(HeaderBits(header[..]));
    SetBits(header, IPV4_CHECKSUM, 16, checksum);
  }

  lemma HeaderOnly(bits: seq<bool>)
    ensures AllWords(bits, HeaderBits([]), HeaderBits([])) == Words(bits)
  {
  }

  // ---------- The pseudo header of UDP and TCP ----------

  function PseudoFields(source: nat, destination: nat, fixed: nat, protocol: nat, length: nat): (fs: seq<Field>)
    ensures |fs| == 5 && AllInHeader(fs, 96)
  {
    [Field(0, 32, source), Field(32, 32, destination), Field(64, 8, fixed), Field(72, 8, protocol), Field(80, 16, length)]
  }

  function PseudoHeader(source: nat, destination: nat, fixed: nat, protocol: nat, length: nat): (bits: seq<bool>)
    ensures |bits| == 96
  {
    WriteAll(Zeros(96), PseudoFields(source, destination, fixed, protocol, length))
  }

  /** pseudo_header_build.  The result depends on the arguments alone. */
  method BuildPseudo(header: array<byte>, source: nat, destination: nat, fixed: nat, protocol: nat, length: nat)
    requires header.Length == 12
    modifies header
    ensures HeaderBits(header[..]) == PseudoHeader(source, destination, fixed, protocol, length)
  {
    hide HeaderBits, WithField, WriteAll;
    ghost var before, fs := HeaderBits(header[..]), PseudoFields(source, destination, fixed, protocol, length);
    WriteNothing(before);
    Put(header, Field(0, 32, source), before, fs, 0);
    Put(header, Field(32, 32, destination), before, fs, 1);
    Put(header, Field(64, 8, fixed), before, fs, 2);
    Put(header, Field(72, 8, protocol), before, fs, 3);
    Put(header, Field(80, 16, length), before, fs, 4);
    assert fs[..5] == fs;
    TiledBits(before, Zeros(96), fs, 0, 5, 0, 96);
    assert WriteAll(before, fs)[0..96] == WriteAll(before, fs) && WriteAll(Zeros(96), fs)[0..96] == WriteAll(Zeros(96), fs);
  }

  // ---------- TCP ----------

  const TCP_CHECKSUM: nat := 128

  datatype Tcp = Tcp(sourcePort: nat, destinationPort: nat, sequenceNumber: nat, ackNumber: nat, dataOffset: nat,
                     reserved: nat, ecn: nat, cwr: nat, ece: nat, urg: nat, ack: nat, psh: nat, rst: nat, syn: nat,
                     fin: nat, windowSize: nat, urgentPointer: nat)

  /** Every fixed field but the checksum, as section 3.1 of RFC 9293 lays them out. */
  function TcpFields(h: Tcp): (fs: seq<Field>)
    ensures |fs| == 17 && AllInHeader(fs, 160)
  {
    [Field(0, 16, h.sourcePort), Field(16, 16, h.destinationPort), Field(32, 32, h.sequenceNumber), Field(64, 32, h.ackNumber),
     Field(96, 4, h.dataOffset), Field(100, 3, h.reserved), Field(103, 1, h.ecn), Field(104, 1, h.cwr),
     Field(105, 1, h.ece), Field(106, 1, h.urg), Field(107, 1, h.ack), Field(108, 1, h.psh),
     Field(109, 1, h.rst), Field(110, 1, h.syn), Field(111, 1, h.fin), Field(112, 16, h.windowSize),
     Field(144, 16, h.urgentPointer)]
  }

  function TcpUnsummed(h: Tcp): (bits: seq<bool>)
    ensures |bits| == 160
  {
    WithField(WriteAll(Zeros(160), TcpFields(h)), TCP_CHECKSUM, 16, 0)
  }

  /** What the checksum is computed over: header with options, pseudo header, data. */
  function TcpWords(fixed: seq<bool>, options: seq<byte>, data: seq<byte>, pseudo: seq<byte>): seq<nat>
  {
    AllWords(fixed + HeaderBits(options), HeaderBits(pseudo), HeaderBits(data))
  }

  lemma AllWordsSmall(header: seq<bool>, pseudo: seq<bool>, data: seq<bool>)
    ensures Small(AllWords(header, pseudo, data))
  {
    WordsBound(header);
    WordsBound(pseudo);
    WordsBound(Padded(data));
  }

  /** The 20 fixed bytes of a TCP header. */
  function TcpHeader(h: Tcp, options: seq<byte>, data: seq<byte>, pseudo: seq<byte>): (bits: seq<bool>)
    ensures |bits| == 160
  {
    AllWordsSmall(TcpUnsummed(h) + HeaderBits(options), HeaderBits(pseudo), HeaderBits(data));
    WithField(TcpUnsummed(h), TCP_CHECKSUM, 16, Complement(TcpWords(TcpUnsummed(h), options, data, pseudo)))
  }

  lemma TcpLayout(h: Tcp)
    ensures Ascending(TcpFields(h))
    ensures Tiles(TcpFields(h), 0, 16, 0, TCP_CHECKSUM) && Tiles(TcpFields(h), 16, 17, TCP_CHECKSUM + 16, 160)
    ensures forall i :: 0 <= i < 17 ==>
      TcpFields(h)[i].offset + TcpFields(h)[i].size <= TCP_CHECKSUM || TCP_CHECKSUM + 16 <= TcpFields(h)[i].offset
  {
  }

  lemma TcpPartition(h: Tcp, bits: seq<bool>)
    requires |bits| == 160
    ensures WithField(WriteAll(bits, TcpFields(h)), TCP_CHECKSUM, 16, 0) == TcpUnsummed(h)
  {
    hide WriteAll, TcpFields;
    var fs := TcpFields(h);
    TcpLayout(h);
    TiledBits(bits, Zeros(160), fs, 0, 16, 0, TCP_CHECKSUM);
    TiledBits(bits, Zeros(160), fs, 16, 17, TCP_CHECKSUM + 16, 160);
    SameOutside(WriteAll(bits, fs), WriteAll(Zeros(160), fs), TCP_CHECKSUM);
  }

  /** Every field of a TCP header just built reads back as given, modulo its size. */
  lemma TcpReadBack(h: Tcp, options: seq<byte>, data: seq<byte>, pseudo: seq<byte>, i: nat)
    requires i < 17
    ensures FieldOf(TcpHeader(h, options, data, pseudo), TcpFields(h)[i].offset, TcpFields(h)[i].size) ==
      TcpFields(h)[i].value % Pow2(TcpFields(h)[i].size)
  {
    hide WithField, FieldOf, WriteAll, TcpFields, HeaderBits, TcpWords, AllWords;
    var fs := TcpFields(h);
    var f, written := fs[i], WriteAll(Zeros(160), fs);
    TcpLayout(h);
    AllReadBack(Zeros(160), fs, i);
    ReadOther(written, TCP_CHECKSUM, 16, 0, f.offset, f.size);
    AllWordsSmall(TcpUnsummed(h) + HeaderBits(options), HeaderBits(pseudo), HeaderBits(data));
    assert TcpWords(TcpUnsummed(h), options, data, pseudo) ==
      AllWords(TcpUnsummed(h) + HeaderBits(options), HeaderBits(pseudo), HeaderBits(data)) by { WordsOfTcp(TcpUnsummed(h), options, data, pseudo); }
    ReadOther(TcpUnsummed(h), TCP_CHECKSUM, 16, Complement(TcpWords(TcpUnsummed(h), options, data, pseudo)), f.offset, f.size);
  }

  lemma WordsOfTcp(fixed: seq<bool>, options: seq<byte>, data: seq<byte>, pseudo: seq<byte>)
    ensures TcpWords(fixed, options, data, pseudo) == AllWords(fixed + HeaderBits(options), HeaderBits(pseudo), HeaderBits(data))
    ensures Small(TcpWords(fixed, options, data, pseudo))
  {
    AllWordsSmall(fixed + HeaderBits(options), HeaderBits(pseudo), HeaderBits(data));
  }

  /** Writing the checksum replaces word 8 of what it was computed over. */
  lemma TcpWordsWithChecksum(fixed: seq<bool>, options: seq<byte>, data: seq<byte>, pseudo: seq<byte>, value: nat)
    requires |fixed| == 160 && value < 0x10000
    ensures 8 < |TcpWords(fixed, options, data, pseudo)|
    ensures TcpWords(WithField(fixed, TCP_CHECKSUM, 16, value), options, data, pseudo) ==
      TcpWords(fixed, options, data, pseudo)[8 := value]
    ensures TcpWords(fixed, options, data, pseudo)[8] == FieldOf(fixed, TCP_CHECKSUM, 16)
  {
    hide Words, HeaderBits, FieldBits, Number, Padded;
    var bits := fixed + HeaderBits(options);
    WordsWithField(bits, 8, value);
    assert WithField(bits, 128, 16, value) == WithField(fixed, 128, 16, value) + HeaderBits(options);
    WordAt(bits, 8);
    assert bits[128..144] == fixed[128..144];
  }

  /** internet_checksum of a TCP segment just built, its checksum included, is 0. */
  lemma TcpVerifies(h: Tcp, options: seq<byte>, data: seq<byte>, pseudo: seq<byte>)
    ensures Small(TcpWords(TcpHeader(h, options, data, pseudo), options, data, pseudo))
    ensures Complement(TcpWords(TcpHeader(h, options, data, pseudo), options, data, pseudo)) == 0
  {
    hide WithField, FieldOf, WriteAll, TcpFields, HeaderBits, OnesSum, TcpWords;
    var unsummed := TcpUnsummed(h);
    WordsOfTcp(unsummed, options, data, pseudo);
    var words := TcpWords(unsummed, options, data, pseudo);
    ReadBack(WriteAll(Zeros(160), TcpFields(h)), TCP_CHECKSUM, 16, 0);
    TcpWordsWithChecksum(unsummed, options, data, pseudo, Complement(words));
    ChecksumVerifies(words, 8);
    WordsOfTcp(TcpHeader(h, options, data, pseudo), options, data, pseudo);
  }

  lemma WithFieldPrefix(a: seq<bool>, b: seq<bool>, offset: nat, size: nat, value: nat)
    requires offset + size <= |a|
    ensures WithField(a + b, offset, size, value) == WithField(a, offset, size, value) + b
  {
    assert (a + b)[..offset] == a[..offset];
    assert (a + b)[offset + size..] == a[offset + size..] + b;
  }

  lemma {:induction false} WriteAllPrefix(a: seq<bool>, b: seq<bool>, fs: seq<Field>)
    requires AllInHeader(fs, |a|) && AllInHeader(fs, |a + b|)
    ensures WriteAll(a + b, fs) == WriteAll(a, fs) + b
  {
    hide WithField;
    if fs != [] {
      var last := fs[|fs| - 1];
      WriteAllPrefix(a, b, fs[..|fs| - 1]);
      WithFieldPrefix(WriteAll(a, fs[..|fs| - 1]), b, last.offset, last.size, last.value);
    }
  }

  lemma BytesPrefix(bytes: seq<byte>, n: nat)
    requires n <= |bytes|
    ensures HeaderBits(bytes[..n]) == HeaderBits(bytes)[..8 * n]
  {
    hide Bit;
  }

  lemma BytesConcat(a: seq<byte>, b: seq<byte>)
    ensures HeaderBits(a + b) == HeaderBits(a) + HeaderBits(b)
  {
    hide Bit;
  }

  /** The set_bits_attr_value calls of tcp_build_segment up to the urgent pointer. */
  method PutTcpFields(header: array<byte>, h: Tcp)
    requires header.Length == 64
    modifies header
    ensures HeaderBits(header[..20]) == WriteAll(old(HeaderBits(header[..])[..160]), TcpFields(h))
  {
    hide HeaderBits, WithField, WriteAll;
    ghost var before, fs := HeaderBits(header[..]), TcpFields(h);
    WriteNothing(before);
    Put(header, Field(0, 16, h.sourcePort), before, fs, 0);
    Put(header, Field(16, 16, h.destinationPort), before, fs, 1);
    Put(header, Field(32, 32, h.sequenceNumber), before, fs, 2);
    Put(header, Field(64, 32, h.ackNumber), before, fs, 3);
    Put(header, Field(96, 4, h.dataOffset), before, fs, 4);
    Put(header, Field(100, 3, h.reserved), before, fs, 5);
    Put(header, Field(103, 1, h.ecn), before, fs, 6);
    Put(header, Field(104, 1, h.cwr), before, fs, 7);
    Put(header, Field(105, 1, h.ece), before, fs, 8);
    Put(header, Field(106, 1, h.urg), before, fs, 9);
    Put(header, Field(107, 1, h.ack), before, fs, 10);
    Put(header, Field(108, 1, h.psh), before, fs, 11);
    Put(header, Field(109, 1, h.rst), before, fs, 12);
    Put(header, Field(110, 1, h.syn), before, fs, 13);
    Put(header, Field(111, 1, h.fin), before, fs, 14);
    Put(header, Field(112, 16, h.windowSize), before, fs, 15);
    Put(header, Field(144, 16, h.urgentPointer), before, fs, 16);
    assert fs[..17] == fs;
    FixedPart(header[..], before, fs);
    assert header[..20] == header[..][..20];
  }

  /** set_bytes_attr_value of the options, which follow the fixed part. */
  method PutOptions(header: array<byte>, options: seq<byte>)
    requires header.Length == 64 && |options| <= 44
    modifies header
    ensures header[..20] == old(header[..20]) && header[20..20 + |options|] == options
  {
    var i := 0;
    while i < |options|
      invariant 0 <= i <= |options|
      invariant header[..20] == old(header[..20]) && header[20..20 + i] == options[..i]
    {
      header[20 + i] := options[i];
      i := i + 1;
    }
  }

  /** tcp_build_segment, header part; the header buffer has room for 64 bytes.  The data offset counts
      4-byte words, options included. */
  method BuildTcp(header: array<byte>, h: Tcp, options: seq<byte>, data: seq<byte>, pseudo: seq<byte>)
    requires header.Length == 64 && 5 <= h.dataOffset <= 15 && |options| == 4 * h.dataOffset - 20
    requires 4 * h.dataOffset / 2 + |pseudo| / 2 + (|data| + 1) / 2 <= 65537
    modifies header
    ensures HeaderBits(header[..20]) == TcpHeader(h, options, data, pseudo)
    ensures header[20..4 * h.dataOffset] == options
  {
    hide HeaderBits, WithField, WriteAll, Words, Complement, TcpWords, AllWords, TcpFields;
    var n := 4 * h.dataOffset;
    ghost var before := HeaderBits(header[..])[..160];
    PutTcpFields(header, h);
    PutOptions(header, options);
    PutFixed(header, 0);
    assert header[20..n] == header[20..][..n - 20];
    TcpPartition(h, before);
    assert header[..n] == header[..20] + options;
    BytesConcat(header[..20], options);
    WordsOfTcp(TcpUnsummed(h), options, data, pseudo);
    var checksum := InternetChecksum(header[..n], data, pseudo);
    PutFixed(header, checksum);
    assert header[20..n] == header[20..][..n - 20];
  }

  lemma FixedPart(bytes: seq<byte>, before: seq<bool>, fs: seq<Field>)
    requires |bytes| == 64 && |before| == 512 && AllInHeader(fs, 160)
    requires HeaderBits(bytes) == WriteAll(before, fs)
    ensures HeaderBits(bytes[..20]) == WriteAll(before[..160], fs)
  {
    hide HeaderBits, WriteAll;
    BytesPrefix(bytes, 20);
    assert before == before[..160] + before[160..];
    WriteAllPrefix(before[..160], before[160..], fs);
  }

  /** set_bits_attr_value on the checksum field, seen from the fixed part of the header. */
  method PutFixed(header: array<byte>, value: nat)
    requires header.Length == 64
    modifies header
    ensures HeaderBits(header[..20]) == WithField(old(HeaderBits(header[..20])), TCP_CHECKSUM, 16, value)
    ensures header[20..] == old(header[20..])
  {
    hide HeaderBits, WithField;
    ghost var bytes := header[..];
    SetBits(header, TCP_CHECKSUM, 16, value);
    BytesPrefix(bytes, 20);
    BytesPrefix(header[..], 20);
    ghost var bits := HeaderBits(bytes);
    assert bits == bits[..160] + bits[160..];
    WithFieldPrefix(bits[..160], bits[160..], TCP_CHECKSUM, 16, value);
    assert header[..20] == header[..][..20] && bytes[..20] == old(header[..20]);
    SameBytes(header[..], bytes, 20);
    assert header[20..] == header[..][20..];
  }

  /** Bytes are determined by their bits. */
  lemma SameBytes(a: seq<byte>, b: seq<byte>, n: nat)
    requires |a| == |b| && n <= |a| && HeaderBits(a)[8 * n..] == HeaderBits(b)[8 * n..]
    ensures a[n..] == b[n..]
  {
    hide Number, HeaderBits;
    forall j | n <= j < |a|
      ensures a[j] == b[j]
    {
      ByteSlice(a, j);
      ByteSlice(b, j);
      assert HeaderBits(a)[8 * j..8 * j + 8] == HeaderBits(a)[8 * n..][8 * (j - n)..8 * (j - n) + 8];
      assert HeaderBits(b)[8 * j..8 * j + 8] == HeaderBits(b)[8 * n..][8 * (j - n)..8 * (j - n) + 8];
      ByteNumber(a[j]);
      ByteNumber(b[j]);
      SameVal(a[j], b[j]);
    }
  }

  lemma SameVal(a: byte, b: byte)
    requires a as nat == b as nat
    ensures a == b
  {
  }

  // ---------- Segments as arrays ----------

  function DataOffset(wire: seq<byte>): (n: nat)
    requires 20 <= |wire|
    ensures n <= 15
  {
    DataOffsetBound(wire);
    FieldOf(HeaderBits(wire), 96, 4)
  }

  /** tcp_to_array: the header up to its data offset, then the data. */
  function TcpToArray(header: seq<byte>, data: seq<byte>): seq<byte>
    requires |header| == 64
  {
    header[..4 * DataOffset(header)] + data
  }

  lemma DataOffsetBound(wire: seq<byte>)
    requires 20 <= |wire|
    ensures FieldOf(HeaderBits(wire), 96, 4) <= 15
  {
    NumberBound(HeaderBits(wire)[96..100]);
    assert Pow2(4) == 16;
  }

  /** array_to_tcp: split at the data offset found in the array. */
  function ArrayToTcp(wire: seq<byte>): (seq<byte>, seq<byte>)
    requires 20 <= |wire| && 4 * DataOffset(wire) <= |wire|
  {
    (wire[..4 * DataOffset(wire)], wire[4 * DataOffset(wire)..])
  }

  /** array_to_tcp undoes tcp_to_array for every legal data offset. */
  lemma ArrayRoundTrip(header: seq<byte>, data: seq<byte>)
    requires |header| == 64 && 5 <= DataOffset(header)
    ensures var wire := TcpToArray(header, data);
      && 20 <= |wire| && DataOffset(wire) == DataOffset(header) && 4 * DataOffset(wire) <= |wire|
      && ArrayToTcp(wire) == (header[..4 * DataOffset(header)], data)
  {
    hide HeaderBits, Number;
    var wire := TcpToArray(header, data);
    BytesPrefix(header, 20);
    BytesPrefix(wire, 20);
    assert wire[..20] == header[..20];
    assert HeaderBits(wire)[96..100] == HeaderBits(wire)[..160][96..100];
    assert HeaderBits(header)[96..100] == HeaderBits(header)[..160][96..100];
  }
}
