/** End-to-end statements across the server, the two peers and the tunnel:
    the address exchange that lets host and client punch toward each other,
    and the byte stream a tunnel carries from one local TCP socket to the other. */
module Rendezvous {
  import opened Wire
  import Utf8
  import Server
  import HostSession
  import ClientSession
  import Tunnel

  /** A packet as its receiver sees it: laminar reports the sender's address. */
  function From(p: Packet, sender: Addr): Packet
  {
    p.(addr := sender)
  }

  /** A host registers `name` from `hostAddr`; a client at `clientAddr` asks
      for `name`. The server sends each the other's address; the host reads
      the client's address back, opens a session for it on a fresh channel
      and probes it; the client reads the host's address back, probes it and
      binds both relay halves to it. */
  lemma AddressExchange(
    reg: Server.Registry, maxHosts: nat, codec: AddrCodec,
    server: Addr, hostAddr: Addr, clientAddr: Addr, name: string,
    sessions: HostSession.Sessions, env: HostSession.Env)
    requires CodecRoundTrips(codec)
    requires name != [] && name !in reg.byName && |reg.byName| < maxHosts
    ensures
      var reg1 := Server.Step(reg, maxHosts, codec,
                    PacketEvent(From(HostSession.RegistrationPacket(server, name), hostAddr))).0;
      var (reg2, sent) := Server.Step(reg1, maxHosts, codec,
                    PacketEvent(From(ClientSession.RegistrationPacket(server, name), clientAddr)));
      && reg1.byName == reg.byName[name := hostAddr]
      && reg2 == reg1
      && |sent| == 2
      && sent[0].addr == hostAddr && sent[0].guarantee == Reliable && sent[0].ordering == Ordered
      && sent[1].addr == clientAddr && sent[1].guarantee == Reliable && sent[1].ordering == Ordered
      && var (st, acts) := HostSession.Dispatch(sessions, server, codec, env, PacketEvent(From(sent[0], server)));
      && st.clients == sessions.clients[clientAddr := sessions.next]
      && (env.socketOpen ==> acts == [HostSession.Transmit(Probe(clientAddr)), HostSession.Spawn(clientAddr, sessions.next)])
      && ClientSession.AcceptExchange(codec, true, sent[1].payload) == Ok(ClientSession.Tunnel(Probe(hostAddr), hostAddr, hostAddr))
  {
    Server.RegistrationBinds(reg, maxHosts, codec, hostAddr, name);
    var reg1 := Server.Step(reg, maxHosts, codec,
                  PacketEvent(From(HostSession.RegistrationPacket(server, name), hostAddr))).0;
    Server.LookupExchanges(reg1, maxHosts, codec, clientAddr, name);
    HostSession.ParseAddrBytes(codec, clientAddr);
    ClientSession.ExchangeReachesHost(codec, true, hostAddr);
  }

  /** A name registered twice keeps its first registrant: a later host
      registering the same name changes nothing, and a lookup still reaches
      the first host. */
  lemma FirstRegistrantWins(
    reg: Server.Registry, maxHosts: nat, codec: AddrCodec,
    server: Addr, first: Addr, second: Addr, clientAddr: Addr, name: string)
    requires name != [] && name !in reg.byName && |reg.byName| < maxHosts
    ensures
      var reg1 := Server.Step(reg, maxHosts, codec,
                    PacketEvent(From(HostSession.RegistrationPacket(server, name), first))).0;
      var reg2 := Server.Step(reg1, maxHosts, codec,
                    PacketEvent(From(HostSession.RegistrationPacket(server, name), second))).0;
      && reg2 == reg1
      && name in reg2.byName && reg2.byName[name] == first
      && Server.Lookup(reg2, codec, clientAddr, name)[0].addr == first
  {
    Server.RegistrationBinds(reg, maxHosts, codec, first, name);
    var reg1 := Server.Step(reg, maxHosts, codec,
                  PacketEvent(From(HostSession.RegistrationPacket(server, name), first))).0;
    Server.RegistrationBinds(reg1, maxHosts, codec, second, name);
  }

  /** The reliable payloads a peer at `me` receives: the other peer's probe
      `[0]` first, then that peer's relayed TCP reads. The packets are listed
      as the other peer sends them to `me`, with its unreliable datagrams
      after them; delivery rewrites only the address field, and the filter
      keeps the reliable ones in order wherever the datagrams sit. */
  lemma ProbeLeadsReliableStream(me: Addr, tcpReads: seq<Tunnel.TcpRead>, datagrams: seq<Packet>)
    requires forall i :: 0 <= i < |datagrams| ==> datagrams[i].guarantee == Unreliable
    ensures
      var inbound := [Probe(me)] + Tunnel.TcpOutbound(me, tcpReads) + datagrams;
      Tunnel.Payloads(Tunnel.OfClass(inbound, Reliable)) == [[0]] + Tunnel.Payloads(Tunnel.TcpOutbound(me, tcpReads))
  {
    var probe := [Probe(me)];
    var relay := Tunnel.TcpOutbound(me, tcpReads);
    Tunnel.OfClassAppend(probe + relay, datagrams, Reliable);
    Tunnel.OfClassAppend(probe, relay, Reliable);
    Tunnel.OfClassUniform(relay, Reliable);
    Tunnel.OfClassUniform(datagrams, Unreliable);
    assert Tunnel.OfClass(probe, Reliable) == probe;
    assert Tunnel.OfClass(probe + relay + datagrams, Reliable) == probe + relay;
    assert Tunnel.Payloads(probe + relay) == [[0]] + Tunnel.Payloads(relay);
  }

  /** The TCP path of a tunnel. One peer's relay turns its local reads into
      reliable packets and the transport delivers them, in order and intact,
      after that peer's probe and among any unreliable ones. The other peer's
      `receivers` picks out the reliable packets, its settle step discards
      the first queued one (the probe), and its write loop, meeting no write
      error, writes exactly the bytes the first peer read, in order. */
  method TcpThroughTunnel(peer: Addr, tcpReads: seq<Tunnel.TcpRead>, inbound: seq<Packet>)
    returns (written: seq<byte>)
    requires Tunnel.Payloads(Tunnel.OfClass(inbound, Reliable)) == [[0]] + Tunnel.Payloads(Tunnel.TcpOutbound(peer, tcpReads))
    ensures written == Tunnel.BytesRead(tcpReads)
  {
    var tcp, udp := Tunnel.Receivers(inbound);
    var settled := tcp[1..];
    assert Tunnel.Payloads(settled) == Tunnel.Payloads(tcp)[1..];
    var chunks, ok := Tunnel.WriteBack(settled, |settled|);
    Tunnel.WrittenIsPrefix(settled, chunks);
    Tunnel.TcpOutboundKeepsBytes(peer, tcpReads);
    written := Tunnel.Concat(chunks);
  }

  /** The message of the repository's end-to-end test: the ASCII bytes of "TEST MESSAGE". */
  const TestMessage: seq<byte> := [0x54, 0x45, 0x53, 0x54, 0x20, 0x4D, 0x45, 0x53, 0x53, 0x41, 0x47, 0x45]

  /** Its twelve bytes leave the relay as a ten-byte and a two-byte packet
      and are reassembled intact. */
  lemma TestMessageCrossesChunkBoundary(peer: Addr)
    ensures
      var ps := Tunnel.TcpOutbound(peer, Tunnel.Chunks(TestMessage));
      && |ps| == 2
      && |ps[0].payload| == 10 && |ps[1].payload| == 2
      && Tunnel.Concat(Tunnel.Payloads(ps)) == TestMessage
  {
    var rs := Tunnel.Chunks(TestMessage);
    var rest := TestMessage[10..];
    assert |rest| == 2;
    assert Tunnel.Chunks(rest) == [Tunnel.Read(rest)];
    assert rs == [Tunnel.Read(TestMessage[..10]), Tunnel.Read(rest)];
    Tunnel.TcpOutboundKeepsBytes(peer, rs);
  }
}
