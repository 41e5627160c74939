# Raw-socket TCP handshake client, modelled in Dafny

The client (`client.cpp`) performs the client side of a TCP three-way
handshake (section 3.4 of RFC 793) by hand, over a raw IPv4 socket with
`IP_HDRINCL` set:

1. `send_packet` builds a 40-byte packet in a zero-filled buffer. The packet
   is an IPv4 header (section 3.1 of RFC 791) followed by a TCP header
   (section 3.1 of RFC 793), with no options and no payload. It then
   fills in the fixed fields and the caller's addresses, ports, sequence
   and acknowledgment numbers and SYN/ACK bits, in network byte order.
2. The receive loop of `main` locates the TCP header of each received
   datagram at IHL*4. It drops every datagram that is not from 127.0.0.1
   or not addressed to port 54321.
3. `main` sends a SYN (seq 200, ack 0). It then waits for a SYN-ACK with
   sequence number 400 and answers it with the final ACK (seq 600, ack 401).

The model has four modules:

- `Octets` (octets.dfy) covers the fixed-width integers and network byte
  order (htons/htonl, ntohs/ntohl). It also holds the nibble and one-bit
  writes that the `struct iphdr` / `struct tcphdr` bitfields compile to.
- `HeaderCodec` (header_codec.dfy) defines several pieces:
  - the exact wire image `Wire` of a `Segment`;
  - its field layout `HasLayout`;
  - the encoder `EncodeSegment`, written as the step-by-step field stores
    of `send_packet`;
  - the receive side's field reader `Decode`, which honours IHL.
  The two directions are tied by round-trip lemmas.
- `InboundFilter` (inbound_filter.dfy) holds the discard tests of the
  receive loop.
- `HandshakeEngine` (handshake.dfy) holds three things:
  - the loop of `main` as the method `Handshake` (a `while` loop with
    `continue` and `break`), run over a finite list of receptions;
  - a fold `Run` that specifies it;
  - the handshake properties, proved about `Run`.

Sending a packet appends its 40 bytes to the list of packets sent.

## Model

| member | source | states |
|---|---|---|
| Octets.Be16Inverse | client.cpp:125 | ntohs reads back the value whose htons bytes sit in a 16-bit field |
| Octets.ReadBe16Bytes | client.cpp:54-55 | a 16-bit field's two bytes are the htons image of the value ntohs reads from it |
| Octets.Be32Inverse | client.cpp:134 | ntohl reads back the value whose htonl bytes sit in a 32-bit field |
| Octets.ReadBe32Bytes | client.cpp:56-57 | a 32-bit field's four bytes are the htonl image of the value ntohl reads from it |
| Octets.SetLowNibble | client.cpp:42 | writing the 4-bit `ihl` bitfield sets the low nibble to the value and keeps the high nibble |
| Octets.SetHighNibble | client.cpp:43 | writing the 4-bit `version` (or `doff`) bitfield sets the high nibble to the value and keeps the low nibble |
| Octets.FlipBit | client.cpp:59-60 | setting a clear bit stays within a byte and sets it; clearing a set bit stays non-negative and clears it |
| Octets.SetBit | client.cpp:59-60 | after writing a one-bit flag field, that bit reads back as 1 iff the flag was true |
| HeaderCodec.FlagsByte | client.cpp:59-60 | the outgoing flags byte carries SYN and ACK as requested; FIN, RST, PSH, URG and the two top bits are 0 |
| HeaderCodec.FlagsByteUnique | client.cpp:59-60 | any flags byte whose only set bits can be SYN and ACK is the one FlagsByte builds from those two bits |
| HeaderCodec.WireBytes | client.cpp:42-62 | the wire image byte by byte: 0x45, TOS 0, length 40 and id 54321 big-endian, fragment 0, TTL 64, protocol 6, checksum 0, addresses, ports/seq/ack big-endian, 0x50, flags, window 8192, checksum and urgent pointer 0 |
| HeaderCodec.WireHasLayout | client.cpp:33-62 | the wire image of a segment is 40 bytes with every fixed IP and TCP field at its value and every segment field at its offset |
| HeaderCodec.LayoutIpHeader | client.cpp:41-51 | in a packet with the layout for s, the first 20 bytes are exactly the IPv4 header for s |
| HeaderCodec.LayoutTcpHeader | client.cpp:53-62 | in a packet with the layout for s, the last 20 bytes are exactly the TCP header for s |
| HeaderCodec.LayoutDeterminesWire | client.cpp:34-35 | the layout fixes all 40 bytes: a buffer with the layout for s is the wire image of s, so no byte is left unassigned |
| HeaderCodec.Ihl | client.cpp:118 | the IP header length read from byte 0 is below 16 words |
| HeaderCodec.TcpOffset | client.cpp:118 | the receive loop finds the TCP header at most 60 bytes in (IHL*4) |
| HeaderCodec.DecodeWire | client.cpp:117-134 | reading the encoder's packet as the receive loop does yields the original addresses, ports, seq, ack and SYN/ACK bits |
| HeaderCodec.WireDecode | client.cpp:117-134 | a 40-byte packet with the fixed fields is exactly the wire image of what the reader extracts from it |
| HeaderCodec.DecodeSkipsIpOptions | client.cpp:117-118 | when IP options raise IHL, the reader finds the TCP header after them (offset 20 + options) and still reads the original segment |
| HeaderCodec.WriteIpHeader | client.cpp:41-51 | the stores into the zero-filled IPv4 half leave exactly the IPv4 header for the segment |
| HeaderCodec.WriteTcpHeader | client.cpp:53-62 | the stores into the zero-filled TCP half leave exactly the TCP header for the segment |
| HeaderCodec.EncodeSegment | client.cpp:33-62 | send_packet's buffer is the wire image of the segment |
| InboundFilter.AcceptsDecoded | client.cpp:121-126 | a datagram passes the filter iff its source address is 127.0.0.1 and its TCP destination port is 54321 |
| InboundFilter.AcceptsReadsOnly | client.cpp:117-126 | datagrams that agree on IHL, source address and destination-port bytes get the same verdict, whatever else they hold |
| InboundFilter.AcceptsEncoded | client.cpp:121-126 | a packet built by the encoder passes the filter iff its segment is from 127.0.0.1 to port 54321 |
| HandshakeEngine.IsSynAckDecoded | client.cpp:134 | the completion test holds iff the datagram passes the filter and has SYN = 1, ACK = 1 and sequence number 400 |
| HandshakeEngine.Run | client.cpp:100-145 | after any receptions, the client is in SynSent having sent only the SYN, or Established having sent the SYN and then the final ACK |
| HandshakeEngine.RunEstablishedIff | client.cpp:108-145 | the handshake completes iff some reception is a SYN-ACK from the server to port 54321 with seq 400 |
| HandshakeEngine.RunAfterEstablished | client.cpp:144 | receptions after the SYN-ACK change nothing: the loop has been left |
| HandshakeEngine.RunStopsAt | client.cpp:144 | the run over the whole list equals the run up to any SYN-ACK in it: nothing after it is read |
| HandshakeEngine.ReceivableUntilSynAckIff | client.cpp:108-134 | the receptions Handshake must be able to read are exactly those with no SYN-ACK before them |
| HandshakeEngine.RunSkips | client.cpp:109-134 | a failed receive, a filtered datagram or one failing the SYN/ACK/seq test leaves state and sent packets unchanged |
| HandshakeEngine.CompletedRunSends | client.cpp:100-141 | a completed run sent exactly two packets, 54321 to 12345: SYN-only seq 200 ack 0, then ACK-only seq 600 with ack = the accepted peer seq + 1 |
| HandshakeEngine.RunExtend | client.cpp:108-110 | taking one more reception is one more loop pass |
| HandshakeEngine.Handshake | client.cpp:100-146 | the loop ends in the state and sent packets of Run; Established iff a SYN-ACK arrived, then after exactly the first one; otherwise all receptions were taken |
| HandshakeEngine.ScenarioFailureThenSynAck | client.cpp:111-113 | a failed receive followed by the server's SYN-ACK (seq 400, ack 201) completes, with the SYN and the final ACK sent |
| HandshakeEngine.ScenarioWrongSeqSkipped | client.cpp:134 | a SYN-ACK with seq 999 leaves the client in SynSent; the seq-400 one after it completes the handshake |
| HandshakeEngine.ScenarioForeignSourceDiscarded | client.cpp:121-122 | a SYN-ACK from 10.0.0.1 is discarded and the client keeps waiting with only the SYN sent |
| HandshakeEngine.ScenarioRstNotChecked | client.cpp:134 | a SYN-ACK that also has RST set still completes the handshake: RST is not looked at |

## Receive-side behaviour

- The client checks neither the datagram's length nor that IHL is 5; it
  reads the TCP header at IHL*4 whatever IHL is (client.cpp:117-118), as
  `Decode` does.
- The completion test looks only at SYN, ACK and the sequence number
  (client.cpp:134); `ScenarioRstNotChecked` shows a SYN+ACK+RST datagram
  completing the handshake.

## Left out

- Socket creation, `setsockopt(IP_HDRINCL)` and `close` (client.cpp:85-96, 148) are operating-system I/O.
  - The socket is not modelled.
- `sendto` and its fatal `exit` on failure (client.cpp:65-80) are I/O.
  - Sending is modelled as appending the packet to the list of packets sent.
  - A send failure is not modelled.
- `recvfrom` (client.cpp:109-110) is I/O.
  - Each call is one `Reception` from a finite list: `ReceiveFailed` for a negative return, otherwise the datagram's bytes.
  - The endless `while(true)` becomes a loop over that list. When the list runs out before a SYN-ACK, the client is still in SynSent, where the real client would block forever.
- `print_output` and every `cout` line (client.cpp:16-24, 72, 76-78, 87, 94, 112, 135, 143) are logging only.
- `inet_addr` and `inet_ntoa` (client.cpp:50-51, 121) are foreign library calls.
  - Addresses are their four bytes in wire order.
  - The `strcmp` of the dotted string with "127.0.0.1" is a comparison of the bytes with 127.0.0.1.
- Checksums: both checksum fields stay 0, as in the source. With `IP_HDRINCL` the kernel fills in the IP header checksum on sending; nothing computes the TCP checksum. No checksum is computed in the model.
- Length of received datagrams: the client reads its 65536-byte buffer without comparing against the received length.
  - `Decode` requires the datagram to hold the fields read: at least 20 bytes, and a whole TCP header at IHL*4.
  - `Handshake` requires this of every reception the loop takes, up to and including the first SYN-ACK (`ReceivableUntilSynAck`); receptions after it are unconstrained.
  - What a shorter datagram would leave in the buffer from earlier receptions is not modelled.
  - The specification functions `IsSynAck` and `Run` treat such a datagram as not completing the handshake.
- The packet buffer of `send_packet` is a local `char` array that never escapes.
  - It is modelled as a sequence value. Its two halves are filled by `WriteIpHeader` and `WriteTcpHeader`, which stand for the `ip` and `tcp` pointers overlaying it.
  - Aliasing and in-place update of that array are not captured.
- Octets.SetBit: states only that the written bit reads back as requested, not that the other seven bits are unchanged. The exact bytes the encoder produces are still fixed by `WriteTcpHeader`'s postcondition.
- HeaderCodec.Decode reads every field of a `Segment` (both addresses, both ports, seq, ack_seq, SYN, ACK) so that the round trip with the encoder can be stated; the receive loop uses only IHL, the source address, the destination port, SYN, ACK and seq (client.cpp:117-134). Decode ignores FIN, RST, PSH and URG, the window and the other IP fields; of these only `print_output` reads FIN, RST and PSH (client.cpp:20-22), and that is logging.
