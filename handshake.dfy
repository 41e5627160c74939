/**
 The client's side of the TCP three-way handshake (section 3.4 of RFC 793):
 send a SYN, wait for the server's SYN-ACK, answer with the final ACK.

 The program position of the source becomes an explicit State, sending a
 packet appends its bytes to the list of packets sent, and the endless
 receive loop reads from a finite list of receptions; when that list runs
 out before a SYN-ACK arrives, the client is still waiting in SynSent.
 */
module HandshakeEngine {
  import opened Octets
  import opened HeaderCodec
  import opened InboundFilter

  datatype State = Idle | SynSent | Established

  /** One call of recvfrom: it either fails or delivers the bytes of a datagram. */
  datatype Reception = ReceiveFailed | Datagram(bytes: seq<uint8>)

  /** The client's initial sequence number. */
  const ClientIsn: uint32 := 200
  /** The sequence number the client expects the server's SYN-ACK to carry. */
  const ServerIsn: uint32 := 400
  /** The sequence number of the final ACK. */
  const FinalSeq: uint32 := 600
  /** The acknowledgment number of the final ACK, a literal in the client. */
  const FinalAck: uint32 := 401

  /** The opening SYN: seq 200, ack 0, SYN only, client port to server port. */
  const SynSegment: Segment := Segment(Loopback, ServerAddress, ClientPort, ServerPort, ClientIsn, 0, true, false)
  /** The final ACK: seq 600, ack 401, ACK only, client port to server port. */
  const AckSegment: Segment := Segment(Loopback, ServerAddress, ClientPort, ServerPort, FinalSeq, FinalAck, false, true)

  /** A delivered datagram holds every header field the loop reads (the client itself checks no length). */
  predicate Receivable(r: Reception)
  {
    r.Datagram? ==> Decodable(r.bytes)
  }

  /**
   Every reception the loop takes is receivable: the receptions up to and
   including the first SYN-ACK. Those after it are never read.
   */
  predicate ReceivableUntilSynAck(inbox: seq<Reception>)
    decreases |inbox|
  {
    inbox == [] || (Receivable(inbox[0]) && (IsSynAck(inbox[0]) || ReceivableUntilSynAck(inbox[1..])))
  }

  /**
   The completion test: a delivered datagram that passes the filter and has
   SYN = 1, ACK = 1 and sequence number 400. FIN, RST and PSH are not looked at.
   A datagram too short to hold the fields read is never one (the client
   itself would read past it; Handshake excludes such input).
   */
  predicate IsSynAck(r: Reception)
  {
    r.Datagram? && Decodable(r.bytes) && Accepts(r.bytes)
    && var b, t := r.bytes, TcpOffset(r.bytes);
    FlagsOf(b[t + 13]).syn && FlagsOf(b[t + 13]).ack && ReadBe32(b, t + 4) == ServerIsn
  }

  /** The completion test on decoded fields: an accepted datagram whose segment has SYN, ACK and sequence number 400. */
  lemma IsSynAckDecoded(r: Reception)
    ensures IsSynAck(r) <==>
      (r.Datagram? && Decodable(r.bytes) && Accepts(r.bytes)
       && Decode(r.bytes).syn && Decode(r.bytes).ack && Decode(r.bytes).seqNum == ServerIsn)
  {
  }

  /** Where the client stands and the bytes of every packet it has sent, in order. */
  datatype Progress = Progress(state: State, sent: seq<seq<uint8>>)

  /** Sending the SYN moves the client from Idle to SynSent. */
  function Open(p: Progress): Progress
  {
    if p.state == Idle then Progress(SynSent, p.sent + [Wire(SynSegment)]) else p
  }

  /**
   One pass of the receive loop while in SynSent: a SYN-ACK makes the client
   send the final ACK and leave the loop; anything else is skipped. Once
   Established the loop has been left, so nothing changes any more.
   */
  function Step(p: Progress, r: Reception): Progress
  {
    if p.state == SynSent && IsSynAck(r) then Progress(Established, p.sent + [Wire(AckSegment)]) else p
  }

  /**
   The client after sending its SYN and then going through the receptions in
   order. Whatever the receptions, it has sent the SYN and, exactly when it is
   Established, the final ACK after it.
   */
  function Run(inbox: seq<Reception>): (p: Progress)
    ensures p.state == SynSent || p.state == Established
    ensures p.state == SynSent ==> p.sent == [Wire(SynSegment)]
    ensures p.state == Established ==> p.sent == [Wire(SynSegment), Wire(AckSegment)]
    decreases |inbox|
  {
    if inbox == [] then Open(Progress(Idle, []))
    else Step(Run(inbox[..|inbox| - 1]), inbox[|inbox| - 1])
  }

  /** The handshake completes iff some reception is a SYN-ACK. */
  lemma {:induction false} RunEstablishedIff(inbox: seq<Reception>)
    ensures Run(inbox).state == Established <==> exists i | 0 <= i < |inbox| :: IsSynAck(inbox[i])
    decreases |inbox|
  {
    if inbox != [] {
      var n := |inbox| - 1;
      var front := inbox[..n];
      RunEstablishedIff(front);
      assert forall i | 0 <= i < n :: front[i] == inbox[i];
      if Run(inbox).state == Established && Run(front).state != Established {
        assert IsSynAck(inbox[n]);
      }
      if Run(front).state == Established {
        var i :| 0 <= i < n && IsSynAck(front[i]);
        assert IsSynAck(inbox[i]);
      }
    }
  }

  /** Whatever arrives after the SYN-ACK is never read: the loop has been left. */
  lemma {:induction false} RunAfterEstablished(inbox: seq<Reception>, rest: seq<Reception>)
    requires Run(inbox).state == Established
    ensures Run(inbox + rest) == Run(inbox)
    decreases |rest|
  {
    var all := inbox + rest;
    if rest != [] {
      var n := |rest| - 1;
      RunAfterEstablished(inbox, rest[..n]);
      assert all[..|all| - 1] == inbox + rest[..n];
    } else {
      assert all == inbox;
    }
  }

  /** The run over the whole list is the run up to any SYN-ACK in it: the loop stops there. */
  lemma RunStopsAt(inbox: seq<Reception>, n: nat)
    requires 0 < n <= |inbox| && IsSynAck(inbox[n - 1])
    ensures Run(inbox) == Run(inbox[..n])
  {
    assert inbox[..n][n - 1] == inbox[n - 1];
    RunEstablishedIff(inbox[..n]);
    RunAfterEstablished(inbox[..n], inbox[n..]);
    assert inbox[..n] + inbox[n..] == inbox;
  }

  /**
   Anything but a SYN-ACK leaves the client exactly as it was: a failed
   receive, a datagram the filter discards, and an accepted one that lacks
   SYN or ACK or does not carry sequence number 400.
   */
  lemma RunSkips(inbox: seq<Reception>, r: Reception)
    requires !IsSynAck(r)
    ensures Run(inbox + [r]) == Run(inbox)
  {
    assert (inbox + [r])[..|inbox|] == inbox;
  }

  /**
   What a completed handshake has put on the wire, read back with the decoder:
   exactly two packets, both from port 54321 to port 12345; first a SYN-only
   packet with seq 200 and ack 0, then an ACK-only packet with seq 600 whose
   acknowledgment number is the accepted SYN-ACK's sequence number plus one.
   */
  lemma CompletedRunSends(inbox: seq<Reception>, i: nat)
    requires i < |inbox| && IsSynAck(inbox[i])
    ensures var sent := Run(inbox).sent;
      && |sent| == 2
      && Decodable(sent[0]) && Decodable(sent[1])
      && Decode(sent[0]).srcPort == ClientPort && Decode(sent[0]).dstPort == ServerPort
      && Decode(sent[1]).srcPort == ClientPort && Decode(sent[1]).dstPort == ServerPort
      && Decode(sent[0]).syn && !Decode(sent[0]).ack
      && Decode(sent[0]).seqNum == 200 && Decode(sent[0]).ackNum == 0
      && !Decode(sent[1]).syn && Decode(sent[1]).ack
      && Decode(sent[1]).seqNum == 600
      && Decode(sent[1]).ackNum == Decode(inbox[i].bytes).seqNum + 1
  {
    RunEstablishedIff(inbox);
    IsSynAckDecoded(inbox[i]);
    DecodeWire(SynSegment);
    DecodeWire(AckSegment);
  }

  /** ReceivableUntilSynAck in closed form: each reception with no SYN-ACK before it is receivable. */
  lemma {:induction false} ReceivableUntilSynAckIff(inbox: seq<Reception>)
    ensures ReceivableUntilSynAck(inbox) <==>
      forall i | 0 <= i < |inbox| && (forall j | 0 <= j < i :: !IsSynAck(inbox[j])) :: Receivable(inbox[i])
    decreases |inbox|
  {
    if inbox != [] {
      var tail := inbox[1..];
      ReceivableUntilSynAckIff(tail);
      assert forall i | 0 <= i < |tail| :: tail[i] == inbox[i + 1];
      if ReceivableUntilSynAck(inbox) && !IsSynAck(inbox[0]) {
        forall i | 0 <= i < |inbox| && (forall j | 0 <= j < i :: !IsSynAck(inbox[j]))
          ensures Receivable(inbox[i])
        {
          if i > 0 {
            assert forall j | 0 <= j < i - 1 :: !IsSynAck(tail[j]) by {
              forall j | 0 <= j < i - 1 ensures !IsSynAck(tail[j]) {
                assert tail[j] == inbox[j + 1];
              }
            }
          }
        }
      }
      if !ReceivableUntilSynAck(inbox) && Receivable(inbox[0]) {
        assert !IsSynAck(inbox[0]);
        var k :| 0 <= k < |tail| && (forall j | 0 <= j < k :: !IsSynAck(tail[j])) && !Receivable(tail[k]);
        assert forall j | 0 <= j < k + 1 :: !IsSynAck(inbox[j]) by {
          forall j | 0 <= j < k + 1 ensures !IsSynAck(inbox[j]) {
            if j > 0 { assert inbox[j] == tail[j - 1]; }
          }
        }
        assert !Receivable(inbox[k + 1]);
      }
    }
  }

  /** Taking one more reception is one more Step. */
  lemma RunExtend(inbox: seq<Reception>, n: nat)
    requires n < |inbox|
    ensures Run(inbox[..n + 1]) == Step(Run(inbox[..n]), inbox[n])
  {
    assert inbox[..n + 1][..n] == inbox[..n];
  }

  /**
   The receive loop of the client. It sends the SYN, then takes receptions in
   order: a failed receive or a datagram the filter discards is skipped
   (continue); a SYN-ACK is answered with the final ACK and ends the loop
   (break); any other accepted datagram is skipped as well. `used` counts the
   receptions taken.
   */
  method Handshake(inbox: seq<Reception>) returns (state: State, sent: seq<seq<uint8>>, used: nat)
    requires ReceivableUntilSynAck(inbox)
    ensures Progress(state, sent) == Run(inbox)
    ensures used <= |inbox| && Progress(state, sent) == Run(inbox[..used])
    ensures state == Established ==> 0 < used && IsSynAck(inbox[used - 1])
    ensures forall i | 0 <= i < |inbox| && (state == SynSent || i < used - 1) :: !IsSynAck(inbox[i])
    ensures state == SynSent ==> used == |inbox|
  {
    state, sent := Idle, [];
    var syn := EncodeSegment(SynSegment);
    sent := sent + [syn];
    state := SynSent;
    used := 0;
    while used < |inbox|
      invariant used <= |inbox|
      invariant state == SynSent && sent == [Wire(SynSegment)]
      invariant Progress(state, sent) == Run(inbox[..used])
      invariant forall i | 0 <= i < used :: !IsSynAck(inbox[i])
      invariant ReceivableUntilSynAck(inbox[used..])
    {
      var r := inbox[used];
      assert inbox[used..][1..] == inbox[used + 1..];
      RunExtend(inbox, used);
      used := used + 1;
      if r.ReceiveFailed? {
        continue;
      }
      var b := r.bytes;
      var t := TcpOffset(b);
      if b[12..16] != ServerAddress {
        continue;
      }
      if ReadBe16(b, t + 2) != ClientPort {
        continue;
      }
      var flags := FlagsOf(b[t + 13]);
      if flags.syn && flags.ack && ReadBe32(b, t + 4) == ServerIsn {
        var ack := EncodeSegment(AckSegment);
        sent := sent + [ack];
        state := Established;
        break;
      }
    }
    if state == Established {
      RunStopsAt(inbox, used);
    } else {
      assert inbox[..used] == inbox;
    }
  }

  // ------------------------------------------------------------- scenarios

  /** A SYN-ACK to the client's port with ack 201, from `src` with sequence number `seqNum`. */
  function ServerSynAck(seqNum: uint32, src: Address): seq<uint8>
  {
    Wire(Segment(src, Loopback, ServerPort, ClientPort, seqNum, 201, true, true))
  }

  /** A failed receive followed by the server's SYN-ACK completes the handshake with the SYN and the final ACK sent. */
  lemma ScenarioFailureThenSynAck()
    ensures var inbox := [ReceiveFailed, Datagram(ServerSynAck(400, ServerAddress))];
      Run(inbox) == Progress(Established, [Wire(SynSegment), Wire(AckSegment)])
  {
    var b := ServerSynAck(400, ServerAddress);
    DecodeWire(Segment(ServerAddress, Loopback, ServerPort, ClientPort, 400, 201, true, true));
    var inbox := [ReceiveFailed, Datagram(b)];
    assert inbox[..1] == [ReceiveFailed];
    assert IsSynAck(inbox[1]);
  }

  /** A SYN-ACK with the wrong sequence number is skipped; the one with 400 after it completes the handshake. */
  lemma ScenarioWrongSeqSkipped()
    ensures var inbox := [Datagram(ServerSynAck(999, ServerAddress)), Datagram(ServerSynAck(400, ServerAddress))];
      && Run(inbox[..1]).state == SynSent
      && Run(inbox).state == Established
  {
    DecodeWire(Segment(ServerAddress, Loopback, ServerPort, ClientPort, 999, 201, true, true));
    DecodeWire(Segment(ServerAddress, Loopback, ServerPort, ClientPort, 400, 201, true, true));
    var inbox := [Datagram(ServerSynAck(999, ServerAddress)), Datagram(ServerSynAck(400, ServerAddress))];
    assert inbox[..1][..0] == [];
    assert !IsSynAck(inbox[0]) && IsSynAck(inbox[1]);
  }

  /** An otherwise perfect SYN-ACK from another address is discarded by the filter. */
  lemma ScenarioForeignSourceDiscarded()
    ensures var inbox := [Datagram(ServerSynAck(400, [10, 0, 0, 1]))];
      Run(inbox) == Progress(SynSent, [Wire(SynSegment)])
  {
    var seg := Segment([10, 0, 0, 1], Loopback, ServerPort, ClientPort, 400, 201, true, true);
    DecodeWire(seg);
    assert seg.src != ServerAddress by { assert seg.src[0] != ServerAddress[0]; }
    var inbox := [Datagram(ServerSynAck(400, [10, 0, 0, 1]))];
    assert inbox[..0] == [];
    assert !IsSynAck(inbox[0]);
  }

  /** The completion test ignores RST: a SYN-ACK that also carries RST (flags byte 0x16) still completes the handshake. */
  lemma ScenarioRstNotChecked()
    ensures var b := ServerSynAck(400, ServerAddress)[33 := 0x16];
      && Decodable(b) && FlagsOf(b[33]).rst
      && Run([Datagram(b)]).state == Established
  {
    var seg := Segment(ServerAddress, Loopback, ServerPort, ClientPort, 400, 201, true, true);
    WireHasLayout(seg);
    var w := Wire(seg);
    var b := w[33 := 0x16];
    assert b[..33] == w[..33] && b[34..] == w[34..];
    assert TcpOffset(b) == 20;
    assert b[12..16] == w[12..16];
    assert ReadBe16(b, 22) == ReadBe16(w, 22) && ReadBe32(b, 24) == ReadBe32(w, 24);
    assert FlagsOf(0x16) == TcpFlags(false, true, true, false, true, false);
    assert [Datagram(b)][..0] == [];
    assert IsSynAck(Datagram(b));
  }
}
