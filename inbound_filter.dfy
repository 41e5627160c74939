/**
 The receive-side filter of the client's handshake loop: the TCP header of a
 received datagram is found IHL*4 bytes into the buffer, and the datagram is
 discarded unless it comes from the server's address and is addressed to the
 client's port.
 */
module InboundFilter {
  import opened Octets
  import opened HeaderCodec

  /** The server's address, 127.0.0.1: both ends of the handshake are on the loopback interface. */
  const ServerAddress: Address := Loopback
  /** The port the client sends from and listens on. */
  const ClientPort: uint16 := 54321
  /** The port of the server the client connects to. */
  const ServerPort: uint16 := 12345

  /**
   The two discard tests of the receive loop, read off the bytes as the loop
   reads them: the IP source address (bytes 12-15) must be the server's, and
   the TCP destination port, two bytes into the TCP header at IHL*4, must be
   the client's.
   */
  predicate Accepts(b: seq<uint8>)
    requires Decodable(b)
  {
    b[12..16] == ServerAddress && ReadBe16(b, TcpOffset(b) + 2) == ClientPort
  }

  /** The filter, stated on decoded fields: a datagram passes iff its source is the server and its destination port is the client's. */
  lemma AcceptsDecoded(b: seq<uint8>)
    requires Decodable(b)
    ensures Accepts(b) <==> Decode(b).src == ServerAddress && Decode(b).dstPort == ClientPort
  {
  }

  /**
   The verdict depends on nothing but the IHL nibble, the source address and
   the destination-port bytes: two datagrams that agree on those are accepted
   or discarded alike, whatever their other fields hold.
   */
  lemma AcceptsReadsOnly(b: seq<uint8>, c: seq<uint8>)
    requires Decodable(b) && Decodable(c)
    requires Ihl(b) == Ihl(c)
    requires b[12..16] == c[12..16]
    requires b[TcpOffset(b) + 2..TcpOffset(b) + 4] == c[TcpOffset(c) + 2..TcpOffset(c) + 4]
    ensures Accepts(b) <==> Accepts(c)
  {
    var t := TcpOffset(b);
    assert TcpOffset(c) == t;
    assert b[t + 2] == b[t + 2..t + 4][0] == c[t + 2..t + 4][0] == c[t + 2];
    assert b[t + 3] == b[t + 2..t + 4][1] == c[t + 2..t + 4][1] == c[t + 3];
  }

  /** Against the encoder: a packet built from a segment passes the filter iff the segment comes from the server and goes to the client's port. */
  lemma AcceptsEncoded(s: Segment)
    ensures Decodable(Wire(s))
    ensures Accepts(Wire(s)) <==> s.src == ServerAddress && s.dstPort == ClientPort
  {
    DecodeWire(s);
  }
}
