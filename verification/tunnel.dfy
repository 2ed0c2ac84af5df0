/** The tunnel multiplexer shared by host and client: the split of inbound
    punched packets by delivery class, the relays that turn local TCP reads
    and UDP datagrams into packets for the peer, and the loops that write
    inbound payloads back to the local sockets. Local socket I/O is given as
    the sequence of outcomes the operating system produced. */
module Tunnel {
  import opened Wire

  /** The size of the relay buffers, `vec![0; 10]`. */
  const BufferSize: nat := 10

  /** The largest UDP payload: the UDP length field has 16 bits. */
  const MaxDatagram: nat := 0xFFFF

  // ---- demultiplexing ----------------------------------------------------

  /** The packets of delivery class `g`, in their original order. */
  function OfClass(ps: seq<Packet>, g: Guarantee): (r: seq<Packet>)
    ensures |r| <= |ps|
  {
    if ps == [] then []
    else if ps[0].guarantee == g then [ps[0]] + OfClass(ps[1..], g)
    else OfClass(ps[1..], g)
  }

  lemma {:induction false} OfClassAppend(a: seq<Packet>, b: seq<Packet>, g: Guarantee)
    ensures OfClass(a + b, g) == OfClass(a, g) + OfClass(b, g)
    decreases |a|
  {
    if a != [] {
      assert (a + b)[0] == a[0];
      assert (a + b)[1..] == a[1..] + b;
      OfClassAppend(a[1..], b, g);
    } else {
      assert a + b == b;
    }
  }

  /** `receivers`: every inbound packet goes, in order, to the TCP-bound
      stream if it is reliable and to the UDP-bound stream if it is not. */
  method Receivers(inbound: seq<Packet>) returns (tcp: seq<Packet>, udp: seq<Packet>)
    ensures tcp == OfClass(inbound, Reliable)
    ensures udp == OfClass(inbound, Unreliable)
  {
    tcp, udp := [], [];
    var i := 0;
    while i < |inbound|
      invariant 0 <= i <= |inbound|
      invariant tcp == OfClass(inbound[..i], Reliable)
      invariant udp == OfClass(inbound[..i], Unreliable)
    {
      var p := inbound[i];
      assert inbound[..i + 1] == inbound[..i] + [p];
      OfClassAppend(inbound[..i], [p], Reliable);
      OfClassAppend(inbound[..i], [p], Unreliable);
      match p.guarantee {
        case Reliable => tcp := tcp + [p];
        case Unreliable => udp := udp + [p];
      }
      i := i + 1;
    }
    assert inbound[..|inbound|] == inbound;
  }

  /** The two streams partition the input: each packet lands in exactly one,
      chosen by its class, and nothing is lost or invented. */
  lemma ReceiversPartition(ps: seq<Packet>)
    ensures |OfClass(ps, Reliable)| + |OfClass(ps, Unreliable)| == |ps|
    ensures multiset(OfClass(ps, Reliable)) + multiset(OfClass(ps, Unreliable)) == multiset(ps)
    ensures forall p :: p in OfClass(ps, Reliable) <==> p in ps && p.guarantee == Reliable
    ensures forall p :: p in OfClass(ps, Unreliable) <==> p in ps && p.guarantee == Unreliable
  {
    PartitionCounts(ps);
    var rel, unr := OfClass(ps, Reliable), OfClass(ps, Unreliable);
    assert |multiset(rel)| + |multiset(unr)| == |multiset(ps)|;
    OfClassMembers(ps, Reliable);
    OfClassMembers(ps, Unreliable);
  }

  /** A packet is kept exactly when it is in the input and of the class. */
  lemma {:induction false} OfClassMembers(ps: seq<Packet>, g: Guarantee)
    ensures forall p :: p in OfClass(ps, g) <==> p in ps && p.guarantee == g
  {
    if ps != [] {
      OfClassMembers(ps[1..], g);
      assert ps == [ps[0]] + ps[1..];
    }
  }

  /** A stream all of one class passes its own filter whole and the other
      filter not at all. */
  lemma {:induction false} OfClassUniform(ps: seq<Packet>, g: Guarantee)
    requires forall i :: 0 <= i < |ps| ==> ps[i].guarantee == g
    ensures OfClass(ps, g) == ps
    ensures forall h :: h != g ==> OfClass(ps, h) == []
  {
    if ps != [] {
      OfClassUniform(ps[1..], g);
    }
  }

  lemma {:induction false} PartitionCounts(ps: seq<Packet>)
    ensures multiset(OfClass(ps, Reliable)) + multiset(OfClass(ps, Unreliable)) == multiset(ps)
  {
    if ps != [] {
      PartitionCounts(ps[1..]);
      var p := ps[0];
      assert ps == [p] + ps[1..];
      assert multiset(ps) == multiset{p} + multiset(ps[1..]);
      if p.guarantee == Reliable {
        assert OfClass(ps, Reliable) == [p] + OfClass(ps[1..], Reliable);
        assert multiset(OfClass(ps, Reliable)) == multiset{p} + multiset(OfClass(ps[1..], Reliable));
        assert OfClass(ps, Unreliable) == OfClass(ps[1..], Unreliable);
      } else {
        assert OfClass(ps, Reliable) == OfClass(ps[1..], Reliable);
        assert OfClass(ps, Unreliable) == [p] + OfClass(ps[1..], Unreliable);
        assert multiset(OfClass(ps, Unreliable)) == multiset{p} + multiset(OfClass(ps[1..], Unreliable));
      }
    }
  }

  // ---- byte streams --------------------------------------------------------

  function Concat(chunks: seq<seq<byte>>): seq<byte>
  {
    if chunks == [] then [] else chunks[0] + Concat(chunks[1..])
  }

  lemma {:induction false} ConcatAppend(a: seq<seq<byte>>, b: seq<seq<byte>>)
    ensures Concat(a + b) == Concat(a) + Concat(b)
    decreases |a|
  {
    if a != [] {
      assert (a + b)[0] == a[0];
      assert (a + b)[1..] == a[1..] + b;
      ConcatAppend(a[1..], b);
    } else {
      assert a + b == b;
    }
  }

  function Payloads(ps: seq<Packet>): (r: seq<seq<byte>>)
    ensures |r| == |ps|
    ensures forall i :: 0 <= i < |ps| ==> r[i] == ps[i].payload
  {
    if ps == [] then [] else [ps[0].payload] + Payloads(ps[1..])
  }

  // ---- TCP relay -----------------------------------------------------------

  /** What one `read` into the relay buffer can return. */
  type Chunk = s: seq<byte> | |s| <= BufferSize

  /** One outcome of `tcp_recv.read(&mut buffer)`: `Ok(n)` with the `n` bytes
      read (`n == 0` at end of stream), or an error. */
  datatype TcpRead = Read(data: Chunk) | ReadFailed

  /** The bytes the local application handed over before the first failed read. */
  function BytesRead(tcpReads: seq<TcpRead>): seq<byte>
  {
    if tcpReads == [] || tcpReads[0].ReadFailed? then [] else tcpReads[0].data + BytesRead(tcpReads[1..])
  }

  /** The TCP read loop of `handle_tcp`, as written: one reliable, ordered
      packet to `addr` per successful read, until the first failed read. */
  function TcpOutbound(addr: Addr, tcpReads: seq<TcpRead>): (ps: seq<Packet>)
    ensures |ps| <= |tcpReads|
    ensures |ps| < |tcpReads| ==> tcpReads[|ps|] == ReadFailed
    ensures forall i :: 0 <= i < |ps| ==> tcpReads[i].Read? && ps[i] == ReliableOrdered(addr, tcpReads[i].data)
  {
    if tcpReads == [] || tcpReads[0].ReadFailed? then []
    else [ReliableOrdered(addr, tcpReads[0].data)] + TcpOutbound(addr, tcpReads[1..])
  }

  /** The payloads of the relay's packets, joined, are the bytes read, in order. */
  lemma {:induction false} TcpOutboundKeepsBytes(addr: Addr, tcpReads: seq<TcpRead>)
    ensures Concat(Payloads(TcpOutbound(addr, tcpReads))) == BytesRead(tcpReads)
  {
    if tcpReads != [] && tcpReads[0].Read? {
      var ps := TcpOutbound(addr, tcpReads);
      TcpOutboundKeepsBytes(addr, tcpReads[1..]);
      assert ps[1..] == TcpOutbound(addr, tcpReads[1..]);
      assert Payloads(ps)[1..] == Payloads(ps[1..]);
    }
  }

  /** A stream handed to the relay in full buffers: each read returns the
      next ten bytes, or what is left. */
  function Chunks(bytes: seq<byte>): (tcpReads: seq<TcpRead>)
    ensures forall i :: 0 <= i < |tcpReads| ==> tcpReads[i].Read? && |tcpReads[i].data| > 0
    ensures BytesRead(tcpReads) == bytes
    decreases |bytes|
  {
    if bytes == [] then []
    else if |bytes| <= BufferSize then [Read(bytes)]
    else
      var rest := Chunks(bytes[BufferSize..]);
      assert bytes == bytes[..BufferSize] + bytes[BufferSize..];
      [Read(bytes[..BufferSize])] + rest
  }

  // ---- UDP relay -----------------------------------------------------------

  type Datagram = s: seq<byte> | |s| <= MaxDatagram

  /** One outcome of `udp_recv.recv(&mut buffer)`. */
  datatype UdpRecv = Received(datagram: Datagram) | RecvFailed

  /** The UDP receive loop of `handle_udp` with a buffer of `bufferSize`
      bytes: one unreliable packet to `addr` per datagram, holding as much of
      the datagram as fits, until the first failed receive. */
  function UdpOutbound(addr: Addr, recvs: seq<UdpRecv>, bufferSize: nat): (ps: seq<Packet>)
    ensures |ps| <= |recvs|
    ensures |ps| < |recvs| ==> recvs[|ps|] == RecvFailed
    ensures forall i :: 0 <= i < |ps| ==>
      && recvs[i].Received?
      && ps[i].addr == addr && ps[i].guarantee == Unreliable
      && |ps[i].payload| <= bufferSize
      && ps[i].payload <= recvs[i].datagram
      && (|recvs[i].datagram| <= bufferSize ==> ps[i].payload == recvs[i].datagram)
      && (|recvs[i].datagram| > bufferSize ==> ps[i].payload == recvs[i].datagram[..bufferSize])
  {
    if recvs == [] || recvs[0].RecvFailed? then []
    else
      var d := recvs[0].datagram;
      var n := if |d| <= bufferSize then |d| else bufferSize;
      [UnreliablePacket(addr, d[..n])] + UdpOutbound(addr, recvs[1..], bufferSize)
  }

  // ---- writing inbound payloads back ---------------------------------------

  /** The write loops of `handle_tcp` and `handle_udp`: each payload is
      written in arrival order; the write numbered `failsAt` (counting from 0)
      is the first to fail, which ends the loop with an error. */
  method WriteBack(packets: seq<Packet>, failsAt: nat) returns (written: seq<seq<byte>>, ok: bool)
    ensures ok <==> failsAt >= |packets|
    ensures |written| == (if ok then |packets| else failsAt)
    ensures forall i :: 0 <= i < |written| ==> written[i] == packets[i].payload
  {
    written := [];
    var i := 0;
    while i < |packets|
      invariant 0 <= i <= |packets|
      invariant i <= failsAt
      invariant |written| == i
      invariant forall j :: 0 <= j < i ==> written[j] == packets[j].payload
    {
      if i == failsAt {
        return written, false;
      }
      written := written + [packets[i].payload];
      i := i + 1;
    }
    ok := true;
  }

  /** The bytes written back are a prefix of the joined payloads, and all of
      them when no write fails. */
  lemma {:induction false} WrittenIsPrefix(packets: seq<Packet>, written: seq<seq<byte>>)
    requires |written| <= |packets|
    requires forall i :: 0 <= i < |written| ==> written[i] == packets[i].payload
    ensures Concat(written) <= Concat(Payloads(packets))
    ensures |written| == |packets| ==> Concat(written) == Concat(Payloads(packets))
  {
    var k := |written|;
    assert written == Payloads(packets)[..k];
    assert Payloads(packets) == Payloads(packets)[..k] + Payloads(packets)[k..];
    ConcatAppend(Payloads(packets)[..k], Payloads(packets)[k..]);
  }

  // ---- end of stream -------------------------------------------------------
  // Once the local peer closes its side, every `read` returns Ok(0). The TCP
  // loop stops only on an error, so it goes on sending empty packets for as
  // long as it is polled.

  /** `n` reads after the end of the stream. */
  function AtEof(n: nat): (r: seq<TcpRead>)
    ensures |r| == n
    ensures forall i :: 0 <= i < n ==> r[i] == Read([])
  {
    seq(n, _ => Read([]))
  }

  /** As written: after the last data, each further read emits one more
      empty reliable packet, so the count of packets grows without bound. */
  lemma TcpOutboundAfterEof(addr: Addr, data: Chunk, n: nat)
    ensures
      var ps := TcpOutbound(addr, [Read(data)] + AtEof(n));
      && |ps| == n + 1
      && ps[0] == ReliableOrdered(addr, data)
      && forall i :: 1 <= i <= n ==> ps[i] == ReliableOrdered(addr, [])
  {
    var rs := [Read(data)] + AtEof(n);
    assert forall i :: 0 <= i < |rs| ==> rs[i].Read?;
  }

  /** The relay loop stopping at end of stream (`Ok(0)`) as well as at an error. */
  function TcpOutboundUntilEof(addr: Addr, tcpReads: seq<TcpRead>): (ps: seq<Packet>)
    ensures |ps| <= |tcpReads|
    ensures |ps| < |tcpReads| ==> tcpReads[|ps|] in {ReadFailed, Read([])}
    ensures forall i :: 0 <= i < |ps| ==>
      tcpReads[i].Read? && tcpReads[i].data != [] && ps[i] == ReliableOrdered(addr, tcpReads[i].data)
  {
    if tcpReads == [] || tcpReads[0].ReadFailed? || tcpReads[0].data == [] then []
    else [ReliableOrdered(addr, tcpReads[0].data)] + TcpOutboundUntilEof(addr, tcpReads[1..])
  }

  /** What a stream socket does: once a read has returned Ok(0), every later
      successful read returns Ok(0) too. */
  ghost predicate EofSticks(tcpReads: seq<TcpRead>)
  {
    forall i, j :: 0 <= i < j < |tcpReads| && tcpReads[i] == Read([]) && tcpReads[j].Read? ==> tcpReads[j].data == []
  }

  lemma {:induction false} NoDataNoBytes(tcpReads: seq<TcpRead>)
    requires forall j :: 0 <= j < |tcpReads| && tcpReads[j].Read? ==> tcpReads[j].data == []
    ensures BytesRead(tcpReads) == []
  {
    if tcpReads != [] && tcpReads[0].Read? {
      NoDataNoBytes(tcpReads[1..]);
    }
  }

  /** Corrected: the relay still delivers every byte read, in order, and
      sends no empty packet. */
  lemma {:induction false} UntilEofKeepsBytes(addr: Addr, tcpReads: seq<TcpRead>)
    requires EofSticks(tcpReads)
    ensures Concat(Payloads(TcpOutboundUntilEof(addr, tcpReads))) == BytesRead(tcpReads)
  {
    if tcpReads != [] && tcpReads[0].Read? {
      var ps := TcpOutboundUntilEof(addr, tcpReads);
      if tcpReads[0].data == [] {
        NoDataNoBytes(tcpReads[1..]);
      } else {
        assert EofSticks(tcpReads[1..]) by {
          forall i, j | 0 <= i < j < |tcpReads[1..]| && tcpReads[1..][i] == Read([]) && tcpReads[1..][j].Read?
            ensures tcpReads[1..][j].data == []
          {
            assert tcpReads[i + 1] == Read([]) && tcpReads[j + 1].Read?;
          }
        }
        UntilEofKeepsBytes(addr, tcpReads[1..]);
        assert ps[1..] == TcpOutboundUntilEof(addr, tcpReads[1..]);
        assert Payloads(ps)[1..] == Payloads(ps[1..]);
      }
    }
  }

  /** Corrected, on the scenario of `TcpOutboundAfterEof`: one packet for the
      data and nothing after the end of the stream. */
  lemma UntilEofStops(addr: Addr, data: Chunk, n: nat)
    requires data != []
    ensures TcpOutboundUntilEof(addr, [Read(data)] + AtEof(n)) == [ReliableOrdered(addr, data)]
  {
    var rs := [Read(data)] + AtEof(n);
    assert rs[1..] == AtEof(n);
  }

  // ---- datagram truncation -------------------------------------------------
  // The UDP relay receives into the same ten-byte buffer, and `recv` drops
  // whatever part of a datagram does not fit.

  /** As written: a datagram longer than the buffer reaches the peer cut to
      its first ten bytes. */
  lemma UdpTruncatesLongDatagram(addr: Addr, d: Datagram)
    requires |d| > BufferSize
    ensures UdpOutbound(addr, [Received(d)], BufferSize) == [UnreliablePacket(addr, d[..BufferSize])]
    ensures UdpOutbound(addr, [Received(d)], BufferSize)[0].payload != d
  {
  }

  /** Corrected: with a buffer as large as any UDP payload, every datagram
      received before the first failure is relayed whole. */
  lemma FullBufferKeepsDatagrams(addr: Addr, recvs: seq<UdpRecv>)
    ensures forall i :: 0 <= i < |UdpOutbound(addr, recvs, MaxDatagram)| ==>
      UdpOutbound(addr, recvs, MaxDatagram)[i] == UnreliablePacket(addr, recvs[i].datagram)
  {
  }
}
