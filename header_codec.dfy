/**
 The 40-byte IPv4 + TCP header pair that the client writes onto its raw
 socket (client.cpp, send_packet) and the field reader that the receive
 loop applies to inbound datagrams.

 Wire layout, IPv4 header as in section 3.1 of RFC 791, TCP header as in
 section 3.1 of RFC 793 (both without options, no payload):

   0  version/IHL   1 TOS   2-3 total length   4-5 identification
   6-7 flags/fragment offset   8 TTL   9 protocol   10-11 checksum
   12-15 source address   16-19 destination address
   20-21 source port   22-23 destination port   24-27 sequence number
   28-31 acknowledgment number   32 data offset/reserved   33 flags
   34-35 window   36-37 checksum   38-39 urgent pointer
 */
module HeaderCodec {
  import opened Octets

  const IpHeaderLength: nat := 20
  const TcpHeaderLength: nat := 20
  /** sizeof(struct iphdr) + sizeof(struct tcphdr): the whole packet, no payload. */
  const PacketLength: nat := IpHeaderLength + TcpHeaderLength

  const IpVersion: nat := 4
  /** IHL and data offset alike count 32-bit words: 5 words, no options. */
  const HeaderWords: nat := 5
  const IpId: uint16 := 54321
  const Ttl: uint8 := 64
  /** IPPROTO_TCP */
  const ProtoTcp: uint8 := 6
  const Window: uint16 := 8192

  /** Bit positions of the TCP flags inside byte 13 of the TCP header. */
  const FinBit: nat := 0
  const SynBit: nat := 1
  const RstBit: nat := 2
  const PshBit: nat := 3
  const AckBit: nat := 4
  const UrgBit: nat := 5

  /** An IPv4 address as it sits on the wire (what inet_addr returns, in memory order). */
  type Address = s: seq<uint8> | |s| == 4 witness [0, 0, 0, 0]

  /** 127.0.0.1 */
  const Loopback: Address := [127, 0, 0, 1]

  /** The arguments of send_packet, with the two address strings already converted. */
  datatype Segment = Segment(
    src: Address, dst: Address,
    srcPort: uint16, dstPort: uint16,
    seqNum: uint32, ackNum: uint32,
    syn: bool, ack: bool)

  /** The six classic TCP flags as the struct tcphdr bitfields read them. */
  datatype TcpFlags = TcpFlags(fin: bool, syn: bool, rst: bool, psh: bool, ack: bool, urg: bool)

  function FlagsOf(b: uint8): TcpFlags
  {
    TcpFlags(TestBit(b, FinBit), TestBit(b, SynBit), TestBit(b, RstBit),
             TestBit(b, PshBit), TestBit(b, AckBit), TestBit(b, UrgBit))
  }

  /** The flags byte of an outgoing segment: SYN and ACK as asked, every other bit zero. */
  function FlagsByte(syn: bool, ack: bool): (r: uint8)
    ensures FlagsOf(r) == TcpFlags(false, syn, false, false, ack, false)
    ensures r / 0x40 == 0
  {
    (if syn then 0x02 else 0) + (if ack then 0x10 else 0)
  }

  // ---------------------------------------------------------------- layout

  /** The fields of the 40-byte packet that do not depend on the segment. */
  predicate FixedFields(b: seq<uint8>)
  {
    |b| == PacketLength
    // IPv4 header
    && b[0] / 0x10 == IpVersion && b[0] % 0x10 == HeaderWords
    && b[1] == 0                          // type of service
    && ReadBe16(b, 2) == PacketLength     // total length
    && ReadBe16(b, 4) == IpId
    && ReadBe16(b, 6) == 0                // no fragmentation
    && b[8] == Ttl && b[9] == ProtoTcp
    && ReadBe16(b, 10) == 0               // checksum left 0; the kernel fills in the IP checksum
    // TCP header
    && b[32] / 0x10 == HeaderWords && b[32] % 0x10 == 0
    && !FlagsOf(b[33]).fin && !FlagsOf(b[33]).rst
    && !FlagsOf(b[33]).psh && !FlagsOf(b[33]).urg && b[33] / 0x40 == 0
    && ReadBe16(b, 34) == Window
    && ReadBe16(b, 36) == 0               // checksum left 0; nothing computes it
    && ReadBe16(b, 38) == 0               // urgent pointer
  }

  /** b is the packet that send_packet builds for s: the fixed fields, and s's fields at their offsets. */
  predicate HasLayout(b: seq<uint8>, s: Segment)
  {
    FixedFields(b)
    && b[12..16] == s.src && b[16..20] == s.dst
    && ReadBe16(b, 20) == s.srcPort && ReadBe16(b, 22) == s.dstPort
    && ReadBe32(b, 24) == s.seqNum && ReadBe32(b, 28) == s.ackNum
    && FlagsOf(b[33]).syn == s.syn && FlagsOf(b[33]).ack == s.ack
  }

  /** The IPv4 header of the packet for s, field after field in wire order. */
  function IpHeader(s: Segment): (r: seq<uint8>)
    ensures |r| == IpHeaderLength
  {
    [0x45, 0] + Be16(PacketLength as uint16) + Be16(IpId) + Be16(0) + [Ttl, ProtoTcp] + Be16(0)
    + s.src + s.dst
  }

  /** The TCP header of the packet for s, field after field in wire order. */
  function TcpHeader(s: Segment): (r: seq<uint8>)
    ensures |r| == TcpHeaderLength
  {
    Be16(s.srcPort) + Be16(s.dstPort) + Be32(s.seqNum) + Be32(s.ackNum)
    + [0x50, FlagsByte(s.syn, s.ack)] + Be16(Window) + Be16(0) + Be16(0)
  }

  /** The packet for s: its IPv4 header followed by its TCP header. */
  function Wire(s: Segment): (r: seq<uint8>)
    ensures |r| == PacketLength
  {
    IpHeader(s) + TcpHeader(s)
  }

  /** A flags byte with only SYN and ACK possibly set is the one FlagsByte builds. */
  lemma FlagsByteUnique(b: uint8)
    requires !FlagsOf(b).fin && !FlagsOf(b).rst && !FlagsOf(b).psh && !FlagsOf(b).urg
    requires b / 0x40 == 0
    ensures b == FlagsByte(FlagsOf(b).syn, FlagsOf(b).ack)
  {
    assert TestBit(b, 0) == (b % 2 == 1);
  }

  /** The bytes of the wire encoding, one field at a time. */
  lemma WireBytes(s: Segment)
    ensures var w := Wire(s);
      w[0] == 0x45 && w[1] == 0 && w[2..4] == Be16(PacketLength as uint16) && w[4..6] == Be16(IpId)
      && w[6..8] == [0, 0] && w[8] == Ttl && w[9] == ProtoTcp && w[10..12] == [0, 0]
      && w[12..16] == s.src && w[16..20] == s.dst
      && w[20..22] == Be16(s.srcPort) && w[22..24] == Be16(s.dstPort)
      && w[24..28] == Be32(s.seqNum) && w[28..32] == Be32(s.ackNum)
      && w[32] == 0x50 && w[33] == FlagsByte(s.syn, s.ack)
      && w[34..36] == Be16(Window) && w[36..40] == [0, 0, 0, 0]
  {
    var ip, tcp := IpHeader(s), TcpHeader(s);
    assert ip[..12] == [0x45, 0] + Be16(PacketLength as uint16) + Be16(IpId) + Be16(0) + [Ttl, ProtoTcp] + Be16(0);
    assert ip[12..16] == s.src && ip[16..20] == s.dst;
    assert tcp[..4] == Be16(s.srcPort) + Be16(s.dstPort);
    assert tcp[4..8] == Be32(s.seqNum) && tcp[8..12] == Be32(s.ackNum);
    assert tcp[12..] == [0x50, FlagsByte(s.syn, s.ack)] + Be16(Window) + Be16(0) + Be16(0);
    var w := Wire(s);
    assert w[..20] == ip && w[20..] == tcp;
  }

  /** The wire encoding of s has the layout of the two RFC headers carrying s. */
  lemma WireHasLayout(s: Segment)
    ensures HasLayout(Wire(s), s)
  {
    var w := Wire(s);
    WireBytes(s);
    Be16Inverse(w, 2, PacketLength as uint16); Be16Inverse(w, 4, IpId);
    Be16Inverse(w, 20, s.srcPort); Be16Inverse(w, 22, s.dstPort);
    Be32Inverse(w, 24, s.seqNum); Be32Inverse(w, 28, s.ackNum);
    Be16Inverse(w, 34, Window);
  }

  /** The first 20 bytes of a packet with the layout for s are the IPv4 header for s. */
  lemma LayoutIpHeader(b: seq<uint8>, s: Segment)
    requires HasLayout(b, s)
    ensures b[..IpHeaderLength] == IpHeader(s)
  {
    ReadBe16Bytes(b, 2); ReadBe16Bytes(b, 4); ReadBe16Bytes(b, 6); ReadBe16Bytes(b, 10);
    assert b[0] == 0x45;
    var ip := IpHeader(s);
    assert ip[2..4] == b[2..4] && ip[4..6] == b[4..6] && ip[6..8] == b[6..8] && ip[10..12] == b[10..12];
    assert ip[12..16] == b[12..16] && ip[16..20] == b[16..20];
    forall i | 0 <= i < IpHeaderLength ensures b[i] == ip[i] {
      if 2 <= i < 4 { assert b[i] == b[2..4][i - 2]; }
      else if 4 <= i < 6 { assert b[i] == b[4..6][i - 4]; }
      else if 6 <= i < 8 { assert b[i] == b[6..8][i - 6]; }
      else if 10 <= i < 12 { assert b[i] == b[10..12][i - 10]; }
      else if 12 <= i < 16 { assert b[i] == b[12..16][i - 12]; }
      else if 16 <= i < 20 { assert b[i] == b[16..20][i - 16]; }
    }
  }

  /** The last 20 bytes of a packet with the layout for s are the TCP header for s. */
  lemma LayoutTcpHeader(b: seq<uint8>, s: Segment)
    requires HasLayout(b, s)
    ensures b[IpHeaderLength..] == TcpHeader(s)
  {
    FlagsByteUnique(b[33]);
    ReadBe16Bytes(b, 20); ReadBe16Bytes(b, 22);
    ReadBe32Bytes(b, 24); ReadBe32Bytes(b, 28);
    ReadBe16Bytes(b, 34); ReadBe16Bytes(b, 36); ReadBe16Bytes(b, 38);
    assert b[32] == 0x50;
    var tcp := TcpHeader(s);
    assert tcp[0..2] == b[20..22] && tcp[2..4] == b[22..24];
    assert tcp[4..8] == b[24..28] && tcp[8..12] == b[28..32];
    assert tcp[14..16] == b[34..36] && tcp[16..18] == b[36..38] && tcp[18..20] == b[38..40];
    forall i | 0 <= i < TcpHeaderLength ensures b[20 + i] == tcp[i] {
      if i < 2 { assert tcp[i] == tcp[0..2][i]; }
      else if i < 4 { assert tcp[i] == tcp[2..4][i - 2]; }
      else if i < 8 { assert tcp[i] == tcp[4..8][i - 4]; }
      else if i < 12 { assert tcp[i] == tcp[8..12][i - 8]; }
      else if 14 <= i < 16 { assert tcp[i] == tcp[14..16][i - 14]; }
      else if 16 <= i < 18 { assert tcp[i] == tcp[16..18][i - 16]; }
      else if 18 <= i { assert tcp[i] == tcp[18..20][i - 18]; }
    }
  }

  /** Only the wire encoding of s has that layout: the layout fixes every one of the 40 bytes. */
  lemma LayoutDeterminesWire(b: seq<uint8>, s: Segment)
    requires HasLayout(b, s)
    ensures b == Wire(s)
  {
    LayoutIpHeader(b, s);
    LayoutTcpHeader(b, s);
    assert b == b[..IpHeaderLength] + b[IpHeaderLength..];
  }

  // --------------------------------------------------------------- decoding

  /** The IHL field: the IP header length in 32-bit words, low nibble of byte 0. */
  function Ihl(b: seq<uint8>): (r: nat)
    requires |b| >= 1
    ensures r < 0x10
  {
    b[0] % 0x10
  }

  /** Where the TCP header starts: IHL words after the start of the datagram. */
  function TcpOffset(b: seq<uint8>): (r: nat)
    requires |b| >= 1
    ensures r <= 60
  {
    4 * Ihl(b)
  }

  /** The datagram holds every field the receive loop reads: the IP header's addresses and a whole TCP header at TcpOffset. */
  predicate Decodable(b: seq<uint8>)
  {
    |b| >= IpHeaderLength && TcpOffset(b) + TcpHeaderLength <= |b|
  }

  /** The header fields of a received datagram, read as the receive loop reads them: the TCP header at IHL*4, not at a fixed 20. */
  function Decode(b: seq<uint8>): Segment
    requires Decodable(b)
  {
    var t := TcpOffset(b);
    var flags := FlagsOf(b[t + 13]);
    Segment(b[12..16], b[16..20],
            ReadBe16(b, t), ReadBe16(b, t + 2), ReadBe32(b, t + 4), ReadBe32(b, t + 8),
            flags.syn, flags.ack)
  }

  /** Round trip: decoding what the encoder builds gives back every field of the segment. */
  lemma DecodeWire(s: Segment)
    ensures Decodable(Wire(s)) && Decode(Wire(s)) == s
  {
    WireHasLayout(s);
  }

  /** Round trip the other way: a 40-byte packet with the fixed fields is the encoding of what it decodes to. */
  lemma WireDecode(b: seq<uint8>)
    requires FixedFields(b)
    ensures Decodable(b) && Wire(Decode(b)) == b
  {
    assert TcpOffset(b) == IpHeaderLength;
    LayoutDeterminesWire(b, Decode(b));
  }

  /** The encoder's packet with IP options inserted after the 20-byte IP header and IHL raised to match. */
  function WithIpOptions(b: seq<uint8>, options: seq<uint8>): (r: seq<uint8>)
    requires |b| == PacketLength && b[0] % 0x10 == HeaderWords
    requires |options| % 4 == 0 && |options| <= 40
    ensures |r| == |b| + |options|
  {
    [SetLowNibble(b[0], HeaderWords + |options| / 4)] + b[1..IpHeaderLength] + options + b[IpHeaderLength..]
  }

  /** The decoder finds the TCP header after any IP options: it honours IHL rather than assuming 20 bytes. */
  lemma DecodeSkipsIpOptions(s: Segment, options: seq<uint8>)
    requires |options| % 4 == 0 && |options| <= 40
    ensures var b := WithIpOptions(Wire(s), options);
      Decodable(b) && TcpOffset(b) == IpHeaderLength + |options| && Decode(b) == s
  {
    var w := Wire(s);
    WireHasLayout(s);
    var b := WithIpOptions(w, options);
    var t := IpHeaderLength + |options|;
    assert TcpOffset(b) == t;
    assert b[12..20] == w[12..20];
    assert b[t..] == w[IpHeaderLength..];
  }

  // --------------------------------------------------------------- encoding

  /**
   The "Filling the IP header" half of send_packet. The source writes through
   `struct iphdr *ip`, which overlays the first 20 bytes of the zero-filled
   packet; each assignment stores the field's bytes (htons for 16-bit fields,
   a nibble rewrite for the ihl and version bitfields).
   */
  method WriteIpHeader(seg: Segment) returns (ip: seq<uint8>)
    ensures ip == IpHeader(seg)
  {
    ip := seq(IpHeaderLength, _ => 0);                  // memset
    ip := ip[0 := SetLowNibble(ip[0], HeaderWords)];    // ihl
    ip := ip[0 := SetHighNibble(ip[0], IpVersion)];     // version
    ip := ip[1 := 0];                                   // tos
    var f := Be16(PacketLength as uint16);              // tot_len
    ip := ip[2 := f[0]][3 := f[1]];
    f := Be16(IpId);                                    // id
    ip := ip[4 := f[0]][5 := f[1]];
    f := Be16(0);                                       // frag_off
    ip := ip[6 := f[0]][7 := f[1]];
    ip := ip[8 := Ttl];
    ip := ip[9 := ProtoTcp];
    var a := seg.src;                                   // saddr
    ip := ip[12 := a[0]][13 := a[1]][14 := a[2]][15 := a[3]];
    a := seg.dst;                                       // daddr
    ip := ip[16 := a[0]][17 := a[1]][18 := a[2]][19 := a[3]];
    assert ip[..12] == IpHeader(seg)[..12];
    assert ip[12..] == IpHeader(seg)[12..];
    assert ip == ip[..12] + ip[12..];
  }
  /**
   The "Filling the TCP header" half of send_packet, through `struct tcphdr *tcp`,
   which overlays the last 20 bytes of the zero-filled packet (htonl for the
   32-bit fields, one-bit rewrites for the syn and ack bitfields).
   */
  method WriteTcpHeader(seg: Segment) returns (tcp: seq<uint8>)
    ensures tcp == TcpHeader(seg)
  {
    tcp := seq(TcpHeaderLength, _ => 0);                  // memset
    var f := Be16(seg.srcPort);                             // source
    tcp := tcp[0 := f[0]][1 := f[1]];
    f := Be16(seg.dstPort);                               // dest
    tcp := tcp[2 := f[0]][3 := f[1]];
    var g := Be32(seg.seqNum);                            // seq
    tcp := tcp[4 := g[0]][5 := g[1]][6 := g[2]][7 := g[3]];
    g := Be32(seg.ackNum);                                // ack_seq
    tcp := tcp[8 := g[0]][9 := g[1]][10 := g[2]][11 := g[3]];
    tcp := tcp[12 := SetHighNibble(tcp[12], HeaderWords)];  // doff
    tcp := tcp[13 := SetBit(tcp[13], SynBit, seg.syn)];     // syn
    tcp := tcp[13 := SetBit(tcp[13], AckBit, seg.ack)];     // ack
    f := Be16(Window);                                    // window
    tcp := tcp[14 := f[0]][15 := f[1]];
    f := Be16(0);                                         // check
    tcp := tcp[16 := f[0]][17 := f[1]];
    assert tcp[..12] == TcpHeader(seg)[..12];
    assert tcp[12..] == TcpHeader(seg)[12..];
    assert tcp == tcp[..12] + tcp[12..];
  }

  /**
   send_packet's header construction: a zero-filled 40-byte packet holding the
   IP header followed by the TCP header. The result is the wire image Wire(seg),
   whose field layout WireHasLayout states and which Decode reads back
   (DecodeWire).
   */
  method EncodeSegment(seg: Segment) returns (wire: seq<uint8>)
    ensures wire == Wire(seg)
  {
    var ip := WriteIpHeader(seg);
    var tcp := WriteTcpHeader(seg);
    wire := ip + tcp;
  }
}
