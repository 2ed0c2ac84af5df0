/** The rendezvous server: the host registry and the handling of one inbound
    event. Each handler is one atomic step on an immutable registry; the
    server's mutex does nothing more than serialise these steps. */
module Server {
  import opened Wire
  import Utf8

  /** `Hosts`: the name → address map and the address → name map. */
  datatype Registry = Registry(byName: map<string, Addr>, byAddr: map<Addr, string>)

  const Empty: Registry := Registry(map[], map[])

  /** `ErrorKind::InvalidData` for a short payload, `FromUtf8Error` for a bad name. */
  datatype RequestError = InvalidData | InvalidUtf8

  /** What one handler leaves behind: the registry, the packets it handed to
      the socket in order, and the value it returned. */
  datatype Handled = Handled(registry: Registry, sent: seq<Packet>, result: Result<(), RequestError>)

  /** The role tags of a registration payload. */
  const ClientTag: byte := 0
  const HostTag: byte := 1

  /** Splits a registration payload into its role byte and its UTF-8 name. */
  function DecodeRequest(payload: seq<byte>): (r: Result<(byte, string), RequestError>)
    ensures r == Err(InvalidData) <==> |payload| < 2
    ensures r.Ok? ==> payload[0] == r.value.0 && payload[1..] == Utf8.Encode(r.value.1)
    ensures r == Err(InvalidUtf8) <==> |payload| >= 2 && forall s :: payload[1..] != Utf8.Encode(s)
  {
    if |payload| < 2 then Err(InvalidData)
    else
      Utf8.DecodeFailsIff(payload[1..]);
      match Utf8.Decode(payload[1..])
      case None => Err(InvalidUtf8)
      case Some(name) =>
        Utf8.EncodeDecode(payload[1..]);
        Ok((payload[0], name))
  }

  /** The text of an address as the server puts it on the wire:
      `format!("{}", addr).into_bytes()`. */
  function AddrBytes(codec: AddrCodec, a: Addr): seq<byte>
  {
    Utf8.Encode(codec.format(a))
  }

  /** `client`: the packets sent when the client at `clientAddr` asks for `name`. */
  function Lookup(reg: Registry, codec: AddrCodec, clientAddr: Addr, name: string): (sent: seq<Packet>)
    ensures name !in reg.byName ==> sent == []
    ensures name in reg.byName ==>
      var hostAddr := reg.byName[name];
      && |sent| == 2
      && sent[0] == ReliableOrdered(hostAddr, AddrBytes(codec, clientAddr))
      && sent[1] == ReliableOrdered(clientAddr, AddrBytes(codec, hostAddr))
  {
    if name in reg.byName then
      var hostAddr := reg.byName[name];
      [ReliableOrdered(hostAddr, AddrBytes(codec, clientAddr)),
       ReliableOrdered(clientAddr, AddrBytes(codec, hostAddr))]
    else []
  }

  /** `host`, as written: only the name → address map is written. */
  function RegisterHost(reg: Registry, addr: Addr, name: string, maxHosts: nat): (r: Registry)
    ensures r.byAddr == reg.byAddr
    ensures name in reg.byName ==> r == reg
    ensures |reg.byName| >= maxHosts ==> r == reg
    ensures name !in reg.byName && |reg.byName| < maxHosts ==>
      r.byName == reg.byName[name := addr] && |r.byName| == |reg.byName| + 1
    ensures |reg.byName| <= maxHosts ==> |r.byName| <= maxHosts
  {
    if |reg.byName| < maxHosts && name !in reg.byName then
      reg.(byName := reg.byName[name := addr])
    else reg
  }

  /** `handle_connection`: decode the payload, then look up (tag 0) or
      register (tag 1); any other tag is accepted and ignored. */
  function HandleConnection(reg: Registry, maxHosts: nat, codec: AddrCodec, p: Packet): (h: Handled)
    ensures |p.payload| < 2 ==> h == Handled(reg, [], Err(InvalidData))
    ensures |p.payload| >= 2 && (forall s :: p.payload[1..] != Utf8.Encode(s)) ==>
      h == Handled(reg, [], Err(InvalidUtf8))
    ensures h.result.Ok? <==> |p.payload| >= 2 && exists s :: p.payload[1..] == Utf8.Encode(s)
    ensures |p.payload| >= 2 && p.payload[0] != HostTag ==> h.registry == reg
    ensures |p.payload| >= 2 && p.payload[0] != ClientTag ==> h.sent == []
    ensures h.registry.byAddr == reg.byAddr
    ensures |reg.byName| <= maxHosts ==> |h.registry.byName| <= maxHosts
  {
    match DecodeRequest(p.payload)
    case Err(e) => Handled(reg, [], Err(e))
    case Ok((mode, name)) =>
      assert p.payload[1..] == Utf8.Encode(name);
      if mode == ClientTag then Handled(reg, Lookup(reg, codec, p.addr, name), Ok(()))
      else if mode == HostTag then Handled(RegisterHost(reg, p.addr, name, maxHosts), [], Ok(()))
      else Handled(reg, [], Ok(()))
  }

  /** The `Disconnect` arm of `start`: drop the departing host's name, if the
      address → name map knows it. */
  function RemoveHost(reg: Registry, addr: Addr): (r: Registry)
    ensures addr !in reg.byAddr ==> r == reg
    ensures addr in reg.byAddr ==>
      r.byName == reg.byName - {reg.byAddr[addr]} && r.byAddr == reg.byAddr - {addr}
  {
    if addr in reg.byAddr then
      var name := reg.byAddr[addr];
      Registry(reg.byName - {name}, reg.byAddr - {addr})
    else reg
  }

  /** One turn of the server loop: the registry after the event and the
      packets the event's handler sent. */
  function Step(reg: Registry, maxHosts: nat, codec: AddrCodec, e: SocketEvent): (r: (Registry, seq<Packet>))
    ensures |r.1| <= 2
    ensures forall i :: 0 <= i < |r.1| ==> r.1[i].guarantee == Reliable && r.1[i].ordering == Ordered
    ensures !e.PacketEvent? ==> r.1 == []
    ensures e.Disconnect? && e.peer !in reg.byAddr ==> r.0 == reg
    ensures e.Connect? || e.Timeout? ==> r.0 == reg
  {
    match e
    case PacketEvent(p) =>
      var h := HandleConnection(reg, maxHosts, codec, p);
      (h.registry, h.sent)
    case Disconnect(a) => (RemoveHost(reg, a), [])
    case _ => (reg, [])
  }

  /** The server loop over a sequence of events, with every packet sent. */
  function Run(reg: Registry, maxHosts: nat, codec: AddrCodec, events: seq<SocketEvent>): (r: (Registry, seq<Packet>))
    ensures |r.1| <= 2 * |events|
    ensures forall i :: 0 <= i < |r.1| ==> r.1[i].guarantee == Reliable && r.1[i].ordering == Ordered
    decreases |events|
  {
    if events == [] then (reg, [])
    else
      var (reg1, sent1) := Step(reg, maxHosts, codec, events[0]);
      var (reg2, sent2) := Run(reg1, maxHosts, codec, events[1..]);
      (reg2, sent1 + sent2)
  }

  /** What the server code keeps true: never more than `maxHosts` names, and
      an address → name map that nothing ever writes. */
  ghost predicate Invariant(reg: Registry, maxHosts: nat)
  {
    |reg.byName| <= maxHosts && reg.byAddr == map[]
  }

  /** Each step keeps the invariant, keeps every existing name bound to the
      address it was first registered with, and leaves the address → name
      map alone; a disconnect therefore changes nothing. */
  lemma StepKeepsInvariant(reg: Registry, maxHosts: nat, codec: AddrCodec, e: SocketEvent)
    requires Invariant(reg, maxHosts)
    ensures Invariant(Step(reg, maxHosts, codec, e).0, maxHosts)
    ensures forall n :: n in reg.byName ==>
      n in Step(reg, maxHosts, codec, e).0.byName && Step(reg, maxHosts, codec, e).0.byName[n] == reg.byName[n]
    ensures e.Disconnect? ==> Step(reg, maxHosts, codec, e) == (reg, [])
  {
  }

  /** The same over any run from a state that satisfies the invariant: the
      size bound holds, the first registrant of every name keeps it, and the
      address → name map stays empty. */
  lemma {:induction false} RunKeepsInvariant(reg: Registry, maxHosts: nat, codec: AddrCodec, events: seq<SocketEvent>)
    requires Invariant(reg, maxHosts)
    ensures Invariant(Run(reg, maxHosts, codec, events).0, maxHosts)
    ensures forall n :: n in reg.byName ==>
      n in Run(reg, maxHosts, codec, events).0.byName && Run(reg, maxHosts, codec, events).0.byName[n] == reg.byName[n]
    decreases |events|
  {
    if events != [] {
      StepKeepsInvariant(reg, maxHosts, codec, events[0]);
      RunKeepsInvariant(Step(reg, maxHosts, codec, events[0]).0, maxHosts, codec, events[1..]);
    }
  }

  /** A registered name answers a lookup with the two-packet exchange and
      an unregistered one with nothing; the registry is untouched either way. */
  lemma LookupExchanges(reg: Registry, maxHosts: nat, codec: AddrCodec, clientAddr: Addr, name: string)
    requires name != []
    ensures
      var h := HandleConnection(reg, maxHosts, codec, ReliableOrdered(clientAddr, [ClientTag] + Utf8.Encode(name)));
      && h.registry == reg
      && h.result == Ok(())
      && (name in reg.byName <==> h.sent != [])
      && (name in reg.byName ==>
            h.sent == [ReliableOrdered(reg.byName[name], AddrBytes(codec, clientAddr)),
                       ReliableOrdered(clientAddr, AddrBytes(codec, reg.byName[name]))])
  {
    var payload := [ClientTag] + Utf8.Encode(name);
    assert payload[1..] == Utf8.Encode(name);
    Utf8.DecodeEncode(name);
  }

  /** A host registration binds the name to the sender's address exactly when
      the name is free and the registry has room; otherwise it changes nothing. */
  lemma RegistrationBinds(reg: Registry, maxHosts: nat, codec: AddrCodec, hostAddr: Addr, name: string)
    requires name != []
    ensures
      var h := HandleConnection(reg, maxHosts, codec, ReliableOrdered(hostAddr, [HostTag] + Utf8.Encode(name)));
      && h.sent == []
      && h.result == Ok(())
      && (name !in reg.byName && |reg.byName| < maxHosts ==> h.registry.byName == reg.byName[name := hostAddr])
      && (name in reg.byName || |reg.byName| >= maxHosts ==> h.registry == reg)
  {
    var payload := [HostTag] + Utf8.Encode(name);
    assert payload[1..] == Utf8.Encode(name);
    Utf8.DecodeEncode(name);
  }

  // The address → name map is read by the disconnect arm but never written,
  // so a host that goes away keeps its name for the life of the server.
  // What follows exhibits that, then defines registration the way the
  // disconnect arm expects it.

  /** As written: a host registers, disconnects, and its name still answers
      lookups with the departed host's address. */
  lemma {:induction false} DisconnectLeavesStaleHost(maxHosts: nat, codec: AddrCodec, hostAddr: Addr, clientAddr: Addr, name: string)
    requires maxHosts > 0 && name != []
    ensures
      var reg1 := Step(Empty, maxHosts, codec, PacketEvent(ReliableOrdered(hostAddr, [HostTag] + Utf8.Encode(name)))).0;
      var reg2 := Step(reg1, maxHosts, codec, Disconnect(hostAddr)).0;
      && name in reg2.byName && reg2.byName[name] == hostAddr
      && |Lookup(reg2, codec, clientAddr, name)| == 2
  {
    RegistrationBinds(Empty, maxHosts, codec, hostAddr, name);
  }

  /** `host` as the disconnect arm needs it: both directions are written, and
      an address already holding a name may not take a second one, so the
      two maps stay inverse to each other. */
  function RegisterHostBoth(reg: Registry, addr: Addr, name: string, maxHosts: nat): (r: Registry)
    ensures name in reg.byName || addr in reg.byAddr || |reg.byName| >= maxHosts ==> r == reg
    ensures name !in reg.byName && addr !in reg.byAddr && |reg.byName| < maxHosts ==>
      r.byName == reg.byName[name := addr] && r.byAddr == reg.byAddr[addr := name]
  {
    if |reg.byName| < maxHosts && name !in reg.byName && addr !in reg.byAddr then
      Registry(reg.byName[name := addr], reg.byAddr[addr := name])
    else reg
  }

  /** The server step with host registration replaced by `RegisterHostBoth`;
      lookups, ignored tags, errors and disconnects are those of `Step`. */
  function StepCorrected(reg: Registry, maxHosts: nat, codec: AddrCodec, e: SocketEvent): (Registry, seq<Packet>)
  {
    match e
    case PacketEvent(p) =>
      (match DecodeRequest(p.payload)
       case Ok((mode, name)) =>
         if mode == HostTag then (RegisterHostBoth(reg, p.addr, name, maxHosts), [])
         else Step(reg, maxHosts, codec, e)
       case Err(_) => Step(reg, maxHosts, codec, e))
    case _ => Step(reg, maxHosts, codec, e)
  }

  /** The bounded, two-way registry the `Disconnect` arm of `start` expects
      (hole_punch/src/server.rs:40-47): each map is the inverse of the other. */
  ghost predicate Paired(reg: Registry, maxHosts: nat)
  {
    && |reg.byName| <= maxHosts
    && (forall n :: n in reg.byName ==> reg.byName[n] in reg.byAddr && reg.byAddr[reg.byName[n]] == n)
    && (forall a :: a in reg.byAddr ==> reg.byAddr[a] in reg.byName && reg.byName[reg.byAddr[a]] == a)
  }

  /** Every corrected step keeps the two maps inverse and the size bound. */
  lemma StepCorrectedKeepsPaired(reg: Registry, maxHosts: nat, codec: AddrCodec, e: SocketEvent)
    requires Paired(reg, maxHosts)
    ensures Paired(StepCorrected(reg, maxHosts, codec, e).0, maxHosts)
  {
    var r := StepCorrected(reg, maxHosts, codec, e).0;
    if e.Disconnect? && e.peer in reg.byAddr {
      var name := reg.byAddr[e.peer];
      assert r == Registry(reg.byName - {name}, reg.byAddr - {e.peer});
      assert reg.byName.Keys - {name} == r.byName.Keys;
      assert |r.byName| <= |reg.byName|;
    }
  }

  /** Corrected: a disconnect of a registered host frees its name, so a later
      lookup of that name sends nothing. */
  lemma CorrectedDisconnectUnregisters(reg: Registry, maxHosts: nat, codec: AddrCodec, name: string, clientAddr: Addr)
    requires Paired(reg, maxHosts) && name in reg.byName
    ensures
      var after := StepCorrected(reg, maxHosts, codec, Disconnect(reg.byName[name])).0;
      && name !in after.byName
      && reg.byName[name] !in after.byAddr
      && Lookup(after, codec, clientAddr, name) == []
      && (forall n :: n in reg.byName && n != name ==> n in after.byName && after.byName[n] == reg.byName[n])
  {
  }

  /** Corrected, on the scenario of `DisconnectLeavesStaleHost`: the name is gone. */
  lemma {:induction false} CorrectedScenarioForgetsHost(maxHosts: nat, codec: AddrCodec, hostAddr: Addr, clientAddr: Addr, name: string)
    requires maxHosts > 0 && name != []
    ensures
      var reg1 := StepCorrected(Empty, maxHosts, codec, PacketEvent(ReliableOrdered(hostAddr, [HostTag] + Utf8.Encode(name)))).0;
      var reg2 := StepCorrected(reg1, maxHosts, codec, Disconnect(hostAddr)).0;
      && reg1.byName == map[name := hostAddr]
      && name !in reg2.byName
      && Lookup(reg2, codec, clientAddr, name) == []
  {
    var payload := [HostTag] + Utf8.Encode(name);
    assert payload[1..] == Utf8.Encode(name);
    Utf8.DecodeEncode(name);
    assert DecodeRequest(payload) == Ok((HostTag, name));
    var reg1 := StepCorrected(Empty, maxHosts, codec, PacketEvent(ReliableOrdered(hostAddr, payload))).0;
    assert reg1 == Registry(map[name := hostAddr], map[hostAddr := name]);
    assert Paired(reg1, maxHosts);
    CorrectedDisconnectUnregisters(reg1, maxHosts, codec, name, clientAddr);
  }
}
