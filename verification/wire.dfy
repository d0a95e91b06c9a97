/** What is on the wire, byte by byte, in the numbers of the protocols: the frames that udp_send_segment
    and send_icmp4_packet make the network card send, and that a receiver finds their checksums right. */
module Wire {
  import opened Bitmap
  import opened Codec
  import opened Checksum
  import opened Headers
  import opened HeaderLayout
  import opened NetStack

  /** Two bytes of a frame as a number in network order. */
  function Net16(bytes: seq<byte>, i: nat): nat
    requires i + 2 <= |bytes|
  {
    Val(bytes[i]) * 256 + Val(bytes[i + 1])
  }

  /** Two bytes as a number with the low byte first, the way ports and types are copied. */
  function Host16(bytes: seq<byte>, i: nat): nat
    requires i + 2 <= |bytes|
  {
    Val(bytes[i]) + 256 * Val(bytes[i + 1])
  }

  lemma ShortIs(v: nat)
    ensures |Short(v)| == 2 && Val(Short(v)[0]) == v % 256 && Val(Short(v)[1]) == v / 256 % 256
  {
    hide ToByte, Val;
    ToByteVal(v);
    ToByteVal(v / 256);
  }

  lemma NetworkOrder(v: nat)
    requires v < 0x10000
    ensures |Short(Ntohs(v))| == 2 && Val(Short(Ntohs(v))[0]) == v / 256 && Val(Short(Ntohs(v))[1]) == v % 256
  {
    hide Short, Val;
    ShortIs(Ntohs(v));
    SwappedBytes(v);
  }

  lemma SwappedBytes(v: nat)
    requires v < 0x10000
    ensures Ntohs(v) % 256 == v / 256 && Ntohs(v) / 256 % 256 == v % 256
  {
    var hi, lo := v / 256, v % 256;
    assert Ntohs(v) == lo * 256 + hi;
  }

  /** The destination a receiving card looks at comes first, then the sender, the type and the data. */
  lemma EthernetBytes(destination: seq<byte>, source: seq<byte>, etherType: nat, data: seq<byte>)
    requires IsMac(destination) && IsMac(source)
    ensures var frame := EthernetFrame(destination, source, etherType, data);
      && |frame| == 14 + |data| && frame[0..6] == destination && frame[6..12] == source
      && Host16(frame, 12) == etherType % 0x10000 && frame[14..] == data
  {
    hide EthernetFrame, Val, Short;
    FrameParts(destination, source, etherType, data);
    ShortIs(etherType);
    LowTwo(etherType);
    var frame := EthernetFrame(destination, source, etherType, data);
    assert frame[12] == frame[12..14][0] && frame[13] == frame[12..14][1];
  }

  lemma LowTwo(v: nat)
    ensures v % 256 + 256 * (v / 256 % 256) == v % 0x10000
  {
    var q := v / 0x10000;
    var r := v % 0x10000;
    assert v == q * 0x10000 + r;
    assert v / 256 == q * 256 + r / 256;
    assert v / 256 % 256 == r / 256;
    assert v % 256 == r % 256;
  }

  /** A UDP header: ports as given, the length of header and data, the checksum. */
  lemma UdpBytes(sourcePort: nat, destinationPort: nat, dataSize: nat, checksum: nat)
    requires checksum < 0x10000
    ensures var header := UdpHeader(sourcePort, destinationPort, dataSize, checksum);
      && |header| == 8
      && Host16(header, 0) == sourcePort % 0x10000 && Host16(header, 2) == destinationPort % 0x10000
      && Net16(header, 4) == (8 + dataSize) % 0x10000 && Net16(header, 6) == checksum
  {
    hide Val, Short, Ntohs;
    var header, length := UdpHeader(sourcePort, destinationPort, dataSize, checksum), (8 + dataSize) % 0x10000;
    ShortIs(sourcePort);
    ShortIs(destinationPort);
    NetworkOrder(length);
    NetworkOrder(checksum);
    LowTwo(sourcePort);
    LowTwo(destinationPort);
    assert header[0] == Short(sourcePort)[0] && header[1] == Short(sourcePort)[1];
    assert header[2] == Short(destinationPort)[0] && header[3] == Short(destinationPort)[1];
    assert header[4] == Short(Ntohs(length))[0] && header[5] == Short(Ntohs(length))[1];
    assert header[6] == Short(Ntohs(checksum))[0] && header[7] == Short(Ntohs(checksum))[1];
  }

  /** An ICMP header: type, code, checksum, rest of header. */
  lemma IcmpBytes(kind: nat, code: nat, rest: seq<byte>, checksum: nat)
    requires checksum < 0x10000 && |rest| == 4
    ensures var header := IcmpHeader(kind, code, rest, checksum);
      && |header| == 8 && Val(header[0]) == kind % 256 && Val(header[1]) == code % 256
      && Net16(header, 2) == checksum && header[4..8] == rest
  {
    hide Val, Short, Ntohs, ToByte;
    var header := IcmpHeader(kind, code, rest, checksum);
    ToByteVal(kind);
    ToByteVal(code);
    NetworkOrder(checksum);
    assert header[2] == Short(Ntohs(checksum))[0] && header[3] == Short(Ntohs(checksum))[1];
  }

  /** The Ethernet and IPv4 headers of a frame the stack sends, and where the transport's part begins. */
  ghost predicate Enclosed(frame: seq<byte>, toMac: seq<byte>, fromMac: seq<byte>, dscp: nat, ecn: nat,
                           protocol: nat, source: nat, destination: nat, message: seq<byte>)
  {
    && |frame| == 34 + |message| && frame[0..6] == toMac && frame[6..12] == fromMac
    && Val(frame[12]) == 0x08 && Val(frame[13]) == 0x00
    && (var ip := HeaderBits(frame[14..34]);
        && FieldOf(ip, 0, 4) == 4 && FieldOf(ip, 4, 4) == 5 && FieldOf(ip, 8, 6) == dscp % 64 && FieldOf(ip, 14, 2) == ecn % 4
        && FieldOf(ip, 16, 16) == (20 + |message|) % 0x10000 && FieldOf(ip, 32, 16) == 0 && FieldOf(ip, 48, 3) == 0
        && FieldOf(ip, 51, 13) == 0 && FieldOf(ip, 64, 8) == 64 && FieldOf(ip, 72, 8) == protocol % 256
        && FieldOf(ip, 96, 32) == source % 0x1_0000_0000 && FieldOf(ip, 128, 32) == destination % 0x1_0000_0000
        && Small(Words(ip)) && Complement(Words(ip)) == 0)
    && frame[34..] == message
  }

  lemma FrameEncloses(frame: seq<byte>, toMac: seq<byte>, fromMac: seq<byte>, dscp: nat, ecn: nat, protocol: nat,
                      source: nat, destination: nat, message: seq<byte>)
    requires IsMac(toMac) && IsMac(fromMac)
    requires IsIpv4Frame(frame, toMac, fromMac, Ipv4For(|message| + 20, dscp, ecn, protocol, source, destination), message)
    ensures Enclosed(frame, toMac, fromMac, dscp, ecn, protocol, source, destination, message)
  {
    hide HeaderBits, FieldOf, Ipv4Header, EthernetFrame, Val, Words, Small, Complement;
    var h := Ipv4For(|message| + 20, dscp, ecn, protocol, source, destination);
    EthernetBytes(toMac, fromMac, 8, frame[14..]);
    assert frame[14..34] == frame[14..][..20];
    assert frame[34..] == frame[14..][20..];
    assert Val(frame[12]) == 8 && Val(frame[13]) == 0;
    Ipv4At(h);
    Ipv4Verifies(h);
  }

  /** What udp_send_segment puts on the wire. */
  lemma UdpOnWire(frame: seq<byte>, toMac: seq<byte>, fromMac: seq<byte>, source: nat, destination: nat,
                  sourcePort: nat, destinationPort: nat, data: seq<byte>)
    requires IsMac(toMac) && IsMac(fromMac)
    requires IsUdpFrame(frame, toMac, fromMac, source, destination, sourcePort, destinationPort, data)
    ensures 42 <= |frame| && Enclosed(frame, toMac, fromMac, 0, 0, 17, source, destination, frame[34..])
    ensures Host16(frame, 34) == sourcePort % 0x10000 && Host16(frame, 36) == destinationPort % 0x10000
    ensures Net16(frame, 38) == (8 + |data|) % 0x10000 && frame[42..] == data
    ensures var pseudo, words := PseudoHeader(source, destination, 0, 17, |data| + 8), HeaderBits(frame[34..42]);
      Small(AllWords(words, pseudo, HeaderBits(data))) && Complement(AllWords(words, pseudo, HeaderBits(data))) == 0
  {
    hide HeaderBits, IsIpv4Frame, Val, UdpHeader, Enclosed, PseudoHeader, AllWords, Complement, UdpChecksum, Small;
    var checksum := UdpChecksum(source, destination, sourcePort, destinationPort, data);
    var header := UdpHeader(sourcePort, destinationPort, |data|, checksum);
    FrameEncloses(frame, toMac, fromMac, 0, 0, 17, source, destination, header + data);
    EnclosedMessage(frame, toMac, fromMac, 0, 0, 17, source, destination, header + data);
    UdpVerifies(source, destination, sourcePort, destinationPort, data);
    UdpBytes(sourcePort, destinationPort, |data|, checksum);
    assert frame[34..42] == header && frame[42..] == data;
    assert forall i :: 0 <= i < 8 ==> frame[34 + i] == header[i];
  }

  lemma EnclosedMessage(frame: seq<byte>, toMac: seq<byte>, fromMac: seq<byte>, dscp: nat, ecn: nat, protocol: nat,
                        source: nat, destination: nat, message: seq<byte>)
    requires Enclosed(frame, toMac, fromMac, dscp, ecn, protocol, source, destination, message)
    ensures |frame| == 34 + |message| && frame[34..] == message
    ensures forall i :: 0 <= i < |message| ==> frame[34 + i] == message[i]
  {
    assert forall i :: 0 <= i < |message| ==> frame[34..][i] == frame[34 + i];
  }

  /** What send_icmp4_packet puts on the wire. */
  lemma IcmpOnWire(frame: seq<byte>, toMac: seq<byte>, fromMac: seq<byte>, source: nat, destination: nat,
                   kind: nat, code: nat, rest: seq<byte>, data: seq<byte>)
    requires IsMac(toMac) && IsMac(fromMac) && |rest| == 4
    requires IsIcmpFrame(frame, toMac, fromMac, source, destination, kind, code, rest, data)
    ensures 42 <= |frame| && Enclosed(frame, toMac, fromMac, 0, 0, 1, source, destination, frame[34..])
    ensures Val(frame[34]) == kind % 256 && Val(frame[35]) == code % 256
    ensures frame[38..42] == rest && frame[42..] == data
    ensures var words := AllWords(HeaderBits(frame[34..42]), HeaderBits([]), HeaderBits(data));
      Small(words) && Complement(words) == 0
  {
    hide HeaderBits, IsIpv4Frame, Val, IcmpHeader, Enclosed, AllWords, Complement, IcmpChecksum, Small;
    var checksum := IcmpChecksum(kind, code, rest, data);
    var header := IcmpHeader(kind, code, rest, checksum);
    FrameEncloses(frame, toMac, fromMac, 0, 0, 1, source, destination, header + data);
    EnclosedMessage(frame, toMac, fromMac, 0, 0, 1, source, destination, header + data);
    IcmpVerifies(kind, code, rest, data);
    IcmpBytes(kind, code, rest, checksum);
    assert frame[34..42] == header && frame[42..] == data;
    assert frame[38..42] == header[4..8];
  }

  // ---------- Checksums ----------

  /** Headers that differ in one 16-bit word only make checksum input that differs in that word only. */
  lemma OneWordChanged(a: seq<byte>, b: seq<byte>, i: nat, pseudo: seq<bool>, data: seq<bool>)
    requires |a| == |b| && 2 * i + 2 <= |a|
    requires forall j :: 0 <= j < |a| && j != 2 * i && j != 2 * i + 1 ==> a[j] == b[j]
    ensures i < |AllWords(HeaderBits(a), pseudo, data)|
    ensures AllWords(HeaderBits(a), pseudo, data)[i] == Net16(a, 2 * i)
    ensures AllWords(HeaderBits(b), pseudo, data) == AllWords(HeaderBits(a), pseudo, data)[i := Net16(b, 2 * i)]
  {
    hide HeaderBits, Words, Val, FieldOf, Padded;
    WordsBound(HeaderBits(a));
    WordsBound(HeaderBits(b));
    forall j | 0 <= j < |a| / 2
      ensures Words(HeaderBits(a))[j] == Net16(a, 2 * j) && Words(HeaderBits(b))[j] == Net16(b, 2 * j)
    {
      WordAt(HeaderBits(a), j);
      WordAt(HeaderBits(b), j);
      WordBytes(a, j);
      WordBytes(b, j);
    }
    assert Words(HeaderBits(b)) == Words(HeaderBits(a))[i := Net16(b, 2 * i)];
  }

  lemma SameButChecksum(sourcePort: nat, destinationPort: nat, dataSize: nat, checksum: nat)
    ensures var blank, filled := UdpHeader(sourcePort, destinationPort, dataSize, 0),
                                 UdpHeader(sourcePort, destinationPort, dataSize, checksum);
      forall j :: 0 <= j < 6 ==> blank[j] == filled[j]
  {
    hide ToByte, Ntohs;
  }

  /** internet_checksum of a UDP segment just built, pseudo header and its checksum included, is 0. */
  lemma UdpVerifies(source: nat, destination: nat, sourcePort: nat, destinationPort: nat, data: seq<byte>)
    ensures var checksum := UdpChecksum(source, destination, sourcePort, destinationPort, data);
      var words := AllWords(HeaderBits(UdpHeader(sourcePort, destinationPort, |data|, checksum)),
                            PseudoHeader(source, destination, 0, 17, |data| + 8), HeaderBits(data));
      checksum < 0x10000 && Small(words) && Complement(words) == 0
  {
    hide HeaderBits, PseudoHeader, AllWords, Val, OnesSum, UdpHeader;
    var checksum := UdpChecksum(source, destination, sourcePort, destinationPort, data);
    var pseudo := PseudoHeader(source, destination, 0, 17, |data| + 8);
    var blank, filled := UdpHeader(sourcePort, destinationPort, |data|, 0), UdpHeader(sourcePort, destinationPort, |data|, checksum);
    AllWordsSmall(HeaderBits(blank), pseudo, HeaderBits(data));
    AllWordsSmall(HeaderBits(filled), pseudo, HeaderBits(data));
    UdpBytes(sourcePort, destinationPort, |data|, 0);
    UdpBytes(sourcePort, destinationPort, |data|, checksum);
    SameButChecksum(sourcePort, destinationPort, |data|, checksum);
    OneWordChanged(blank, filled, 3, pseudo, HeaderBits(data));
    ChecksumVerifies(AllWords(HeaderBits(blank), pseudo, HeaderBits(data)), 3);
  }

  /** internet_checksum of an ICMP message just built, its checksum included, is 0. */
  lemma IcmpVerifies(kind: nat, code: nat, rest: seq<byte>, data: seq<byte>)
    requires |rest| == 4
    ensures var checksum := IcmpChecksum(kind, code, rest, data);
      var words := AllWords(HeaderBits(IcmpHeader(kind, code, rest, checksum)), HeaderBits([]), HeaderBits(data));
      checksum < 0x10000 && Small(words) && Complement(words) == 0
  {
    hide HeaderBits, AllWords, Val, OnesSum, Short, Ntohs, ToByte;
    var checksum := IcmpChecksum(kind, code, rest, data);
    var blank, filled := IcmpHeader(kind, code, rest, 0), IcmpHeader(kind, code, rest, checksum);
    AllWordsSmall(HeaderBits(blank), HeaderBits([]), HeaderBits(data));
    AllWordsSmall(HeaderBits(filled), HeaderBits([]), HeaderBits(data));
    IcmpBytes(kind, code, rest, 0);
    IcmpBytes(kind, code, rest, checksum);
    OneWordChanged(blank, filled, 1, HeaderBits([]), HeaderBits(data));
    ChecksumVerifies(AllWords(HeaderBits(blank), HeaderBits([]), HeaderBits(data)), 1);
  }
}
