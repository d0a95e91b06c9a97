/** What tcp_recv_segment reads out of a header, and that it is what tcp_build_segment put in. */
module TcpParse {
  import opened Bitmap
  import opened Codec
  import opened Headers
  import opened HeaderLayout
  import opened TcpConnection
  import TcpWindow

  function FlagAt(bits: seq<bool>, offset: nat): bool
    requires offset < |bits|
  {
    FieldOf(bits, offset, 1) != 0
  }

  /** The message a header and its data make, from the bits where src/include/tcp.h has them. */
  function MessageOf(header: seq<byte>, data: seq<byte>): Message
    requires 20 <= |header|
  {
    var bits := HeaderBits(header);
    Message(Flags(FlagAt(bits, 103), FlagAt(bits, 104), FlagAt(bits, 105), FlagAt(bits, 106), FlagAt(bits, 107),
                  FlagAt(bits, 108), FlagAt(bits, 109), FlagAt(bits, 110), FlagAt(bits, 111)),
            TcpWindow.Segment(FieldOf(bits, 32, 32), data), FieldOf(bits, 64, 32), FieldOf(bits, 112, 16))
  }

  /** tcp_get_flags. */
  method GetFlags(header: array<byte>) returns (flags: Flags)
    requires 20 <= header.Length
    ensures flags == MessageOf(header[..], []).flags
  {
    hide HeaderBits, FieldOf;
    var ecn := GetBits(header, 103, 1);
    var cwr := GetBits(header, 104, 1);
    var ece := GetBits(header, 105, 1);
    var urg := GetBits(header, 106, 1);
    var ack := GetBits(header, 107, 1);
    var psh := GetBits(header, 108, 1);
    var rst := GetBits(header, 109, 1);
    var syn := GetBits(header, 110, 1);
    var fin := GetBits(header, 111, 1);
    flags := Flags(ecn != 0, cwr != 0, ece != 0, urg != 0, ack != 0, psh != 0, rst != 0, syn != 0, fin != 0);
  }

  lemma FieldOfPrefix(bits: seq<bool>, n: nat, offset: nat, size: nat)
    requires offset + size <= n <= |bits|
    ensures FieldOf(bits[..n], offset, size) == FieldOf(bits, offset, size)
  {
    assert bits[..n][offset..offset + size] == bits[offset..offset + size];
  }

  /** A segment just built is received as the message it was built from. */
  lemma ParsedAsBuilt(header: seq<byte>, h: Tcp, options: seq<byte>, data: seq<byte>, pseudo: seq<byte>)
    requires 20 <= |header| && HeaderBits(header[..20]) == TcpHeader(h, options, data, pseudo)
    ensures MessageOf(header, data) ==
      Message(Flags(h.ecn % 2 == 1, h.cwr % 2 == 1, h.ece % 2 == 1, h.urg % 2 == 1, h.ack % 2 == 1,
                    h.psh % 2 == 1, h.rst % 2 == 1, h.syn % 2 == 1, h.fin % 2 == 1),
              TcpWindow.Segment(h.sequenceNumber % 0x1_0000_0000, data), h.ackNumber % 0x1_0000_0000, h.windowSize % 0x10000)
  {
    hide HeaderBits, FieldOf, TcpHeader;
    var bits := HeaderBits(header);
    BytesPrefix(header, 20);
    TcpAt(h, options, data, pseudo);
    TcpFlagsAt(h, options, data, pseudo);
    forall offset: nat | 103 <= offset < 112
      ensures FieldOf(bits[..160], offset, 1) == FieldOf(bits, offset, 1)
    {
      FieldOfPrefix(bits, 160, offset, 1);
    }
    FieldOfPrefix(bits, 160, 32, 32);
    FieldOfPrefix(bits, 160, 64, 32);
    FieldOfPrefix(bits, 160, 112, 16);
  }

  /** And so it is when it has gone over the wire as an array, options and all. */
  lemma ReceivedAsSent(header: seq<byte>, h: Tcp, options: seq<byte>, data: seq<byte>, pseudo: seq<byte>)
    requires |header| == 64 && HeaderBits(header[..20]) == TcpHeader(h, options, data, pseudo)
    requires 5 <= h.dataOffset <= 15
    ensures var wire := TcpToArray(header, data);
      && 20 <= |wire| && DataOffset(wire) == h.dataOffset && 4 * DataOffset(wire) <= |wire|
      && ArrayToTcp(wire).1 == data && MessageOf(wire, data) == MessageOf(header, data)
  {
    hide HeaderBits, FieldOf, TcpHeader;
    BytesPrefix(header, 20);
    TcpAt(h, options, data, pseudo);
    FieldOfPrefix(HeaderBits(header), 160, 96, 4);
    ArrayRoundTrip(header, data);
    var wire := TcpToArray(header, data);
    assert wire[..20] == header[..20];
    ParsedAsBuilt(header, h, options, data, pseudo);
    ParsedAsBuilt(wire, h, options, data, pseudo);
  }

  /** A header with no flag set but some of these four. */
  predicate Plain(h: Tcp, ack: nat, psh: nat, syn: nat, fin: nat)
  {
    h.ecn == h.cwr == h.ece == h.urg == h.rst == 0 && h.ack == ack && h.psh == psh && h.syn == syn && h.fin == fin
  }

  /** The segments tcp_connect, tcp_send_syn_ack, tcp_send_ack, entry and tcp_send_fin_ack build are taken
      by the receiver's classifiers for what they are, and for nothing else. */
  lemma ClassifiedAsBuilt(header: seq<byte>, h: Tcp, options: seq<byte>, data: seq<byte>, pseudo: seq<byte>)
    requires 20 <= |header| && HeaderBits(header[..20]) == TcpHeader(h, options, data, pseudo)
    requires BitFields(h)
    ensures IsSyn(MessageOf(header, data)) <==> Plain(h, 0, 0, 1, 0)
    ensures IsSynAck(MessageOf(header, data)) <==> Plain(h, 1, 0, 1, 0)
    ensures IsAck(MessageOf(header, data)) <==> Plain(h, 1, 0, 0, 0)
    ensures IsPshAck(MessageOf(header, data)) <==> Plain(h, 1, 1, 0, 0)
    ensures IsFinAck(MessageOf(header, data)) <==> Plain(h, 1, 0, 0, 1)
  {
    hide HeaderBits, MessageOf, TcpHeader, Plain, Only, BitFlags;
    ParsedAsBuilt(header, h, options, data, pseudo);
    assert MessageOf(header, data).flags == BitFlags(h) by { FlagsOfBits(h); }
    OnlyPlain(h, true, false, true, false);
    OnlyPlain(h, true, false, false, false);
    OnlyPlain(h, true, true, false, false);
    OnlyPlain(h, true, false, false, true);
    OnlyPlain(h, false, false, true, false);
  }

  predicate BitFields(h: Tcp)
  {
    h.ecn < 2 && h.cwr < 2 && h.ece < 2 && h.urg < 2 && h.ack < 2 && h.psh < 2 && h.rst < 2 && h.syn < 2 && h.fin < 2
  }

  function BitFlags(h: Tcp): Flags
  {
    Flags(h.ecn == 1, h.cwr == 1, h.ece == 1, h.urg == 1, h.ack == 1, h.psh == 1, h.rst == 1, h.syn == 1, h.fin == 1)
  }

  lemma FlagsOfBits(h: Tcp)
    requires BitFields(h)
    ensures BitFlags(h) == Flags(h.ecn % 2 == 1, h.cwr % 2 == 1, h.ece % 2 == 1, h.urg % 2 == 1, h.ack % 2 == 1,
                                 h.psh % 2 == 1, h.rst % 2 == 1, h.syn % 2 == 1, h.fin % 2 == 1)
  {
    Parity(h.ecn);
    Parity(h.cwr);
    Parity(h.ece);
    Parity(h.urg);
    Parity(h.ack);
    Parity(h.psh);
    Parity(h.rst);
    Parity(h.syn);
    Parity(h.fin);
  }

  lemma OnlyPlain(h: Tcp, ack: bool, psh: bool, syn: bool, fin: bool)
    requires BitFields(h)
    ensures Only(BitFlags(h), ack, psh, syn, fin) <==>
      Plain(h, if ack then 1 else 0, if psh then 1 else 0, if syn then 1 else 0, if fin then 1 else 0)
  {
  }

  lemma Parity(bit: nat)
    requires bit < 2
    ensures bit % 2 == bit
  {
  }
}
