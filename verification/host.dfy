/** The host peer: its registration with the rendezvous server, and the loop
    that routes events on its punched socket to per-client sessions. */
module HostSession {
  import opened Wire
  import Utf8
  import Server

  /** The payload of the host's registration: role byte 1, then its name. */
  function RegistrationPayload(name: string): seq<byte>
  {
    [Server.HostTag] + Utf8.Encode(name)
  }

  /** The packet `start` sends to the server, reliable and ordered. */
  function RegistrationPacket(server: Addr, name: string): (p: Packet)
    ensures p.addr == server && p.guarantee == Reliable && p.ordering == Ordered
    ensures |p.payload| >= 1 && p.payload[0] == Server.HostTag
  {
    ReliableOrdered(server, RegistrationPayload(name))
  }

  /** The server's decoder recovers the host role and the very name the host
      registered; an empty name yields a one-byte payload the server rejects. */
  lemma RegistrationRoundTrip(name: string)
    ensures name != [] ==> Server.DecodeRequest(RegistrationPayload(name)) == Ok((Server.HostTag, name))
    ensures name == [] ==> Server.DecodeRequest(RegistrationPayload(name)) == Err(Server.InvalidData)
  {
    var payload := RegistrationPayload(name);
    assert payload[1..] == Utf8.Encode(name);
    Utf8.DecodeEncode(name);
    Utf8.EncodeEmptyIff(name);
  }

  /** A client session's channel; each introduction creates a fresh one. */
  type Channel = nat

  /** The `clients` map of `handle_connections`, and the next unused channel. */
  datatype Sessions = Sessions(clients: map<Addr, Channel>, next: Channel)

  const NoSessions: Sessions := Sessions(map[], 0)

  /** What the world answers to the loop's sends: whether the socket's packet
      sender still accepts packets, and which channels' receivers are gone. */
  datatype Env = Env(socketOpen: bool, closed: set<Channel>)

  /** The loop's effects, in order: a packet handed to the socket, a new
      client session started on a channel, a packet delivered to a channel. */
  datatype Action =
    | Transmit(packet: Packet)
    | Spawn(client: Addr, channel: Channel)
    | Forward(channel: Channel, packet: Packet)

  /** `String::from_utf8` then `SocketAddr::from_str` on an exchange payload. */
  function ParseAddr(codec: AddrCodec, payload: seq<byte>): (r: Option<Addr>)
    ensures (forall t :: payload != Utf8.Encode(t)) ==> r == None
    ensures forall t :: payload == Utf8.Encode(t) ==> r == codec.parse(t)
  {
    Utf8.DecodeFailsIff(payload);
    match Utf8.Decode(payload)
    case None => None
    case Some(text) =>
      Utf8.DecodeIffAll(payload);
      codec.parse(text)
  }

  /** The server's exchange payload carries an address the host reads back. */
  lemma ParseAddrBytes(codec: AddrCodec, a: Addr)
    requires CodecRoundTrips(codec)
    ensures ParseAddr(codec, Server.AddrBytes(codec, a)) == Some(a)
  {
  }

  /** One turn of `handle_connections`. */
  function Dispatch(st: Sessions, server: Addr, codec: AddrCodec, env: Env, e: SocketEvent): (r: (Sessions, seq<Action>))
    // a server packet that parses introduces a client on a fresh channel and probes it
    ensures e.PacketEvent? && e.packet.addr == server && ParseAddr(codec, e.packet.payload).Some? ==>
      var c := ParseAddr(codec, e.packet.payload).value;
      && r.0 == Sessions(st.clients[c := st.next], st.next + 1)
      && r.1 == (if env.socketOpen then [Transmit(Probe(c)), Spawn(c, st.next)] else [])
    // a server packet that does not parse changes nothing
    ensures e.PacketEvent? && e.packet.addr == server && ParseAddr(codec, e.packet.payload).None? ==>
      r == (st, [])
    // a packet from a known client reaches its channel, or evicts that one entry
    ensures e.PacketEvent? && e.packet.addr != server && e.packet.addr in st.clients ==>
      var ch := st.clients[e.packet.addr];
      if ch in env.closed then r == (st.(clients := st.clients - {e.packet.addr}), [])
      else r == (st, [Forward(ch, e.packet)])
    // a packet from anyone else is dropped
    ensures e.PacketEvent? && e.packet.addr != server && e.packet.addr !in st.clients ==>
      r == (st, [])
    ensures e.Disconnect? ==> r == (st.(clients := st.clients - {e.peer}), [])
    ensures e.Connect? || e.Timeout? ==> r == (st, [])
  {
    match e
    case PacketEvent(p) =>
      if p.addr == server then
        match ParseAddr(codec, p.payload)
        case None => (st, [])
        case Some(c) =>
          var st' := Sessions(st.clients[c := st.next], st.next + 1);
          if env.socketOpen then (st', [Transmit(Probe(c)), Spawn(c, st.next)]) else (st', [])
      else if p.addr in st.clients then
        var ch := st.clients[p.addr];
        if ch in env.closed then (st.(clients := st.clients - {p.addr}), [])
        else (st, [Forward(ch, p)])
      else (st, [])
    case Disconnect(a) => (st.(clients := st.clients - {a}), [])
    case _ => (st, [])
  }

  /** The loop over a sequence of events, each met in its own environment. */
  function Run(st: Sessions, server: Addr, codec: AddrCodec, inputs: seq<(Env, SocketEvent)>): (r: (Sessions, seq<Action>))
    ensures st.next <= r.0.next <= st.next + |inputs|
    ensures |r.1| <= 2 * |inputs|
    decreases |inputs|
  {
    if inputs == [] then (st, [])
    else
      var (st1, out1) := Dispatch(st, server, codec, inputs[0].0, inputs[0].1);
      var (st2, out2) := Run(st1, server, codec, inputs[1..]);
      (st2, out1 + out2)
  }

  /** Every channel in the map was handed out, and no two clients share one. */
  ghost predicate Fresh(st: Sessions)
  {
    && (forall a :: a in st.clients ==> st.clients[a] < st.next)
    && (forall a, b :: a in st.clients && b in st.clients && a != b ==> st.clients[a] != st.clients[b])
  }

  /** Packets are forwarded only when their sender is not the server. */
  ghost predicate NoServerForward(out: seq<Action>, server: Addr)
  {
    forall i :: 0 <= i < |out| && out[i].Forward? ==> out[i].packet.addr != server
  }

  /** A dispatch keeps channels fresh and distinct, never forwards a packet
      from the server, and forwards only to the channel its sender owns. */
  lemma DispatchKeepsFresh(st: Sessions, server: Addr, codec: AddrCodec, env: Env, e: SocketEvent)
    requires Fresh(st)
    ensures Fresh(Dispatch(st, server, codec, env, e).0)
    ensures NoServerForward(Dispatch(st, server, codec, env, e).1, server)
    ensures forall i :: 0 <= i < |Dispatch(st, server, codec, env, e).1| && Dispatch(st, server, codec, env, e).1[i].Forward? ==>
      var act := Dispatch(st, server, codec, env, e).1[i];
      act.packet.addr in st.clients && st.clients[act.packet.addr] == act.channel && act.channel !in env.closed
  {
  }

  /** Over a whole run: channels stay fresh and distinct, and no packet from
      the server is ever forwarded to a client session, even when the server's
      address is also a key of the map. */
  lemma {:induction false} RunNeverForwardsServer(st: Sessions, server: Addr, codec: AddrCodec, inputs: seq<(Env, SocketEvent)>)
    requires Fresh(st)
    ensures Fresh(Run(st, server, codec, inputs).0)
    ensures NoServerForward(Run(st, server, codec, inputs).1, server)
    decreases |inputs|
  {
    if inputs != [] {
      var (st1, out1) := Dispatch(st, server, codec, inputs[0].0, inputs[0].1);
      DispatchKeepsFresh(st, server, codec, inputs[0].0, inputs[0].1);
      RunNeverForwardsServer(st1, server, codec, inputs[1..]);
      var out2 := Run(st1, server, codec, inputs[1..]).1;
      assert Run(st, server, codec, inputs).1 == out1 + out2;
      forall i | 0 <= i < |out1 + out2| && (out1 + out2)[i].Forward?
        ensures (out1 + out2)[i].packet.addr != server
      {
        if i >= |out1| {
          assert (out1 + out2)[i] == out2[i - |out1|];
        }
      }
    }
  }
}
