/** The client peer: its request to the rendezvous server, the probe it sends
    once it knows the host's address, and the relay that passes only packet
    events on to its tunnel. */
module ClientSession {
  import opened Wire
  import Utf8
  import Server

  /** The payload of the client's request: role byte 0, then the host's name. */
  function RegistrationPayload(hostName: string): seq<byte>
  {
    [Server.ClientTag] + Utf8.Encode(hostName)
  }

  /** The packet `start` sends to the server, reliable and ordered. */
  function RegistrationPacket(server: Addr, hostName: string): (p: Packet)
    ensures p.addr == server && p.guarantee == Reliable && p.ordering == Ordered
    ensures |p.payload| >= 1 && p.payload[0] == Server.ClientTag
  {
    ReliableOrdered(server, RegistrationPayload(hostName))
  }

  /** The server's decoder recovers the client role and the requested name;
      an empty name yields a one-byte payload the server rejects as too short. */
  lemma RegistrationRoundTrip(hostName: string)
    ensures hostName != [] ==> Server.DecodeRequest(RegistrationPayload(hostName)) == Ok((Server.ClientTag, hostName))
    ensures hostName == [] ==> Server.DecodeRequest(RegistrationPayload(hostName)) == Err(Server.InvalidData)
  {
    var payload := RegistrationPayload(hostName);
    assert payload[1..] == Utf8.Encode(hostName);
    Utf8.DecodeEncode(hostName);
    Utf8.EncodeEmptyIff(hostName);
  }

  /** Why the client could not start its tunnel. `NoExchange` is a second
      event that is not a packet, which ends the handshake thread silently;
      `NotUtf8` stands for the `unwrap` of `String::from_utf8` in `start`,
      which aborts the thread; `BadAddress` and `SendFailed` are the two `?`
      returns of `handle_connection`. */
  datatype ClientError = NoExchange | NotUtf8 | BadAddress | SendFailed

  /** A started tunnel: the probe sent to the host and the peer address each
      relay half is bound to. */
  datatype Tunnel = Tunnel(probe: Packet, tcpPeer: Addr, udpPeer: Addr)

  /** `handle_connection`: parse the host's address, probe it, and point both
      relay halves at it. `socketOpen` says whether the socket's packet sender
      still accepts the probe. */
  function HandleConnection(codec: AddrCodec, socketOpen: bool, hostAddrText: string): (r: Result<Tunnel, ClientError>)
    ensures codec.parse(hostAddrText).None? <==> r == Err(BadAddress)
    ensures codec.parse(hostAddrText).Some? && !socketOpen <==> r == Err(SendFailed)
    ensures r.Ok? <==> codec.parse(hostAddrText).Some? && socketOpen
    ensures r.Ok? ==>
      var host := codec.parse(hostAddrText).value;
      r.value.probe == Probe(host) && r.value.tcpPeer == host && r.value.udpPeer == host
  {
    match codec.parse(hostAddrText)
    case None => Err(BadAddress)
    case Some(host) =>
      if socketOpen then Ok(Tunnel(Probe(host), host, host)) else Err(SendFailed)
  }

  /** The exchange packet's payload, read as text and handed to `HandleConnection`. */
  function AcceptExchange(codec: AddrCodec, socketOpen: bool, payload: seq<byte>): (r: Result<Tunnel, ClientError>)
    ensures (forall t :: payload != Utf8.Encode(t)) <==> r == Err(NotUtf8)
    ensures forall t :: payload == Utf8.Encode(t) ==> r == HandleConnection(codec, socketOpen, t)
  {
    Utf8.DecodeFailsIff(payload);
    Utf8.DecodeIffAll(payload);
    match Utf8.Decode(payload)
    case None => Err(NotUtf8)
    case Some(text) => HandleConnection(codec, socketOpen, text)
  }

  /** The handshake thread of `start`, given the event after the one its
      timed wait discards: only a packet carries the host's address. */
  function Handshake(codec: AddrCodec, socketOpen: bool, second: SocketEvent): (r: Result<Tunnel, ClientError>)
    ensures !second.PacketEvent? <==> r == Err(NoExchange)
    ensures r.Ok? ==> second.PacketEvent? && socketOpen
    ensures second.PacketEvent? ==> r == AcceptExchange(codec, socketOpen, second.packet.payload)
  {
    match second
    case PacketEvent(p) => AcceptExchange(codec, socketOpen, p.payload)
    case _ => Err(NoExchange)
  }

  /** The address text the server sends back is parsed to that very address:
      if the socket takes the probe, the client probes the host and binds both
      relay halves to it; otherwise the handshake fails with nothing started. */
  lemma ExchangeReachesHost(codec: AddrCodec, socketOpen: bool, host: Addr)
    requires CodecRoundTrips(codec)
    ensures AcceptExchange(codec, socketOpen, Server.AddrBytes(codec, host)) ==
      if socketOpen then Ok(Tunnel(Probe(host), host, host)) else Err(SendFailed)
  {
  }

  /** The packets among `events`, in order: the reference the relay meets. */
  function PacketsOf(events: seq<SocketEvent>): seq<Packet>
  {
    if events == [] then []
    else if events[0].PacketEvent? then [events[0].packet] + PacketsOf(events[1..])
    else PacketsOf(events[1..])
  }

  /** The relay thread of `handle_connection`: every packet event is passed on,
      in order; every other event is dropped. */
  method RelayEvents(events: seq<SocketEvent>) returns (relayed: seq<Packet>)
    ensures relayed == PacketsOf(events)
    ensures |relayed| <= |events|
  {
    relayed := [];
    var i := 0;
    while i < |events|
      invariant 0 <= i <= |events|
      invariant relayed + PacketsOf(events[i..]) == PacketsOf(events)
      invariant |relayed| <= i
    {
      assert events[i..][1..] == events[i + 1..];
      if events[i].PacketEvent? {
        relayed := relayed + [events[i].packet];
      }
      i := i + 1;
    }
    assert events[|events|..] == [];
  }

  /** `PacketsOf` keeps exactly the packet events: every relayed packet came
      from a packet event and every packet event is relayed. */
  lemma {:induction false} PacketsOfExact(events: seq<SocketEvent>)
    ensures forall p :: p in PacketsOf(events) <==> PacketEvent(p) in events
    ensures |PacketsOf(events)| <= |events|
  {
    if events != [] {
      PacketsOfExact(events[1..]);
      assert events == [events[0]] + events[1..];
    }
  }
}
