/** Where each field of a header lies, in the numbers of src/include/ip.h, tcp.h and network_utils.h. */
module HeaderLayout {
  import opened Bitmap
  import opened Codec
  import opened Checksum
  import opened Headers

  lemma Powers()
    ensures Pow2(1) == 2 && Pow2(2) == 4 && Pow2(3) == 8 && Pow2(4) == 16 && Pow2(6) == 64 && Pow2(8) == 256
    ensures Pow2(13) == 8192 && Pow2(16) == 0x10000 && Pow2(32) == 0x1_0000_0000
  {
    assert Pow2(5) == 32;
    assert Pow2(10) == 1024;
    assert Pow2(20) == 0x100000;
    assert Pow2(24) == 0x1000000;
    assert Pow2(28) == 0x10000000;
  }

  lemma Ipv4FieldsAre(h: Ipv4)
    ensures var fs := Ipv4Fields(h);
      && fs[0] == Field(0, 4, h.version) && fs[1] == Field(4, 4, h.ihl) && fs[2] == Field(8, 6, h.dscp)
      && fs[3] == Field(14, 2, h.ecn) && fs[4] == Field(16, 16, h.totalLength) && fs[5] == Field(32, 16, h.identification)
      && fs[6] == Field(48, 3, h.flags) && fs[7] == Field(51, 13, h.fragmentOffset) && fs[8] == Field(64, 8, h.timeToLive)
      && fs[9] == Field(72, 8, h.protocol) && fs[10] == Field(96, 32, h.source) && fs[11] == Field(128, 32, h.destination)
  {
  }

  /** The fields of an IPv4 header just built, where section 3.1 of RFC 791 has them. */
  lemma Ipv4At(h: Ipv4)
    ensures var bits := Ipv4Header(h);
      && FieldOf(bits, 0, 4) == h.version % 16 && FieldOf(bits, 4, 4) == h.ihl % 16
      && FieldOf(bits, 8, 6) == h.dscp % 64 && FieldOf(bits, 14, 2) == h.ecn % 4
      && FieldOf(bits, 16, 16) == h.totalLength % 0x10000 && FieldOf(bits, 32, 16) == h.identification % 0x10000
      && FieldOf(bits, 48, 3) == h.flags % 8 && FieldOf(bits, 51, 13) == h.fragmentOffset % 8192
      && FieldOf(bits, 64, 8) == h.timeToLive % 256 && FieldOf(bits, 72, 8) == h.protocol % 256
      && FieldOf(bits, 96, 32) == h.source % 0x1_0000_0000 && FieldOf(bits, 128, 32) == h.destination % 0x1_0000_0000
  {
    hide Ipv4Header, FieldOf, Ipv4Fields, Pow2;
    Powers();
    Ipv4FieldsAre(h);
    Ipv4ReadBack(h, 0);
    Ipv4ReadBack(h, 1);
    Ipv4ReadBack(h, 2);
    Ipv4ReadBack(h, 3);
    Ipv4ReadBack(h, 4);
    Ipv4ReadBack(h, 5);
    Ipv4ReadBack(h, 6);
    Ipv4ReadBack(h, 7);
    Ipv4ReadBack(h, 8);
    Ipv4ReadBack(h, 9);
    Ipv4ReadBack(h, 10);
    Ipv4ReadBack(h, 11);
  }

  lemma PseudoFieldsAre(source: nat, destination: nat, fixed: nat, protocol: nat, length: nat)
    ensures var fs := PseudoFields(source, destination, fixed, protocol, length);
      && fs[0] == Field(0, 32, source) && fs[1] == Field(32, 32, destination) && fs[2] == Field(64, 8, fixed)
      && fs[3] == Field(72, 8, protocol) && fs[4] == Field(80, 16, length) && Ascending(fs)
  {
  }

  /** The fields of the pseudo header. */
  lemma PseudoAt(source: nat, destination: nat, fixed: nat, protocol: nat, length: nat)
    ensures var bits := PseudoHeader(source, destination, fixed, protocol, length);
      && FieldOf(bits, 0, 32) == source % 0x1_0000_0000 && FieldOf(bits, 32, 32) == destination % 0x1_0000_0000
      && FieldOf(bits, 64, 8) == fixed % 256 && FieldOf(bits, 72, 8) == protocol % 256
      && FieldOf(bits, 80, 16) == length % 0x10000
  {
    hide FieldOf, PseudoFields, Pow2, WriteAll;
    var fs := PseudoFields(source, destination, fixed, protocol, length);
    Powers();
    PseudoFieldsAre(source, destination, fixed, protocol, length);
    AllReadBack(Zeros(96), fs, 0);
    AllReadBack(Zeros(96), fs, 1);
    AllReadBack(Zeros(96), fs, 2);
    AllReadBack(Zeros(96), fs, 3);
    AllReadBack(Zeros(96), fs, 4);
  }

  lemma TcpFieldsAre(h: Tcp)
    ensures var fs := TcpFields(h);
      && fs[0] == Field(0, 16, h.sourcePort) && fs[1] == Field(16, 16, h.destinationPort)
      && fs[2] == Field(32, 32, h.sequenceNumber) && fs[3] == Field(64, 32, h.ackNumber)
      && fs[4] == Field(96, 4, h.dataOffset) && fs[5] == Field(100, 3, h.reserved)
      && fs[15] == Field(112, 16, h.windowSize) && fs[16] == Field(144, 16, h.urgentPointer)
  {
  }

  lemma FlagFieldsAre(h: Tcp)
    ensures var fs := TcpFields(h);
      && fs[6] == Field(103, 1, h.ecn) && fs[7] == Field(104, 1, h.cwr) && fs[8] == Field(105, 1, h.ece)
      && fs[9] == Field(106, 1, h.urg) && fs[10] == Field(107, 1, h.ack) && fs[11] == Field(108, 1, h.psh)
      && fs[12] == Field(109, 1, h.rst) && fs[13] == Field(110, 1, h.syn) && fs[14] == Field(111, 1, h.fin)
  {
  }

  /** The fields of a TCP header just built, where section 3.1 of RFC 9293 has them. */
  lemma TcpAt(h: Tcp, options: seq<byte>, data: seq<byte>, pseudo: seq<byte>)
    ensures var bits := TcpHeader(h, options, data, pseudo);
      && FieldOf(bits, 0, 16) == h.sourcePort % 0x10000 && FieldOf(bits, 16, 16) == h.destinationPort % 0x10000
      && FieldOf(bits, 32, 32) == h.sequenceNumber % 0x1_0000_0000 && FieldOf(bits, 64, 32) == h.ackNumber % 0x1_0000_0000
      && FieldOf(bits, 96, 4) == h.dataOffset % 16 && FieldOf(bits, 100, 3) == h.reserved % 8
      && FieldOf(bits, 112, 16) == h.windowSize % 0x10000 && FieldOf(bits, 144, 16) == h.urgentPointer % 0x10000
  {
    hide TcpHeader, FieldOf, TcpFields, Pow2;
    Powers();
    TcpFieldsAre(h);
    TcpReadBack(h, options, data, pseudo, 0);
    TcpReadBack(h, options, data, pseudo, 1);
    TcpReadBack(h, options, data, pseudo, 2);
    TcpReadBack(h, options, data, pseudo, 3);
    TcpReadBack(h, options, data, pseudo, 4);
    TcpReadBack(h, options, data, pseudo, 5);
    TcpReadBack(h, options, data, pseudo, 15);
    TcpReadBack(h, options, data, pseudo, 16);
  }

  /** Its nine flags. */
  lemma TcpFlagsAt(h: Tcp, options: seq<byte>, data: seq<byte>, pseudo: seq<byte>)
    ensures var bits := TcpHeader(h, options, data, pseudo);
      && FieldOf(bits, 103, 1) == h.ecn % 2 && FieldOf(bits, 104, 1) == h.cwr % 2 && FieldOf(bits, 105, 1) == h.ece % 2
      && FieldOf(bits, 106, 1) == h.urg % 2 && FieldOf(bits, 107, 1) == h.ack % 2 && FieldOf(bits, 108, 1) == h.psh % 2
      && FieldOf(bits, 109, 1) == h.rst % 2 && FieldOf(bits, 110, 1) == h.syn % 2 && FieldOf(bits, 111, 1) == h.fin % 2
  {
    hide TcpHeader, FieldOf, TcpFields, Pow2;
    Powers();
    FlagFieldsAre(h);
    TcpReadBack(h, options, data, pseudo, 6);
    TcpReadBack(h, options, data, pseudo, 7);
    TcpReadBack(h, options, data, pseudo, 8);
    TcpReadBack(h, options, data, pseudo, 9);
    TcpReadBack(h, options, data, pseudo, 10);
    TcpReadBack(h, options, data, pseudo, 11);
    TcpReadBack(h, options, data, pseudo, 12);
    TcpReadBack(h, options, data, pseudo, 13);
    TcpReadBack(h, options, data, pseudo, 14);
  }
}
