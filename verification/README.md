# hole_punch, modelled in Dafny

A model of the decision logic of the `hole_punch` NAT-traversal tunnel: the
rendezvous server's host registry and its handling of registrations, lookups
and disconnects; the host peer's per-client dispatcher; the client peer's
address handshake and event relay; and the tunnel multiplexer that splits
inbound punched packets by delivery class and relays local TCP reads and UDP
datagrams to the peer. Each handler is a pure step function over an immutable
state (the registry, the client-session map), and each relay is a function
over the sequence of outcomes the local socket produced.

Modules, one per source file plus two shared ones:

- `Wire` (`wire.dfy`): bytes, the abstract `Addr` type, laminar packets with
  their delivery and ordering guarantees, socket events, and `AddrCodec`, the
  pair of standard-library functions that format and parse addresses.
- `Utf8` (`utf8.dfy`): `String::into_bytes` and `String::from_utf8`, with the
  proof that decoding succeeds with `s` exactly on the encoding of `s`.
- `Server` (`server.dfy`): `hole_punch/src/server.rs`.
- `HostSession` (`host.dfy`): `hole_punch/src/host.rs`.
- `ClientSession` (`client.dfy`): `hole_punch/src/client.rs`.
- `Tunnel` (`tunnel.dfy`): `hole_punch/src/common.rs`.
- `Rendezvous` (`rendezvous.dfy`): statements across all of them, including
  the repository's end-to-end test message.

Addresses are abstract. `format!("{}", addr)` and `SocketAddr::from_str` are the
two fields of an `AddrCodec` value. Their round trip (`parse(format(a)) == Some(a)`)
is a fact about the standard library. It appears as the hypothesis
`CodecRoundTrips(codec)` on the lemmas that need it.

## Model

| member | source | states |
|---|---|---|
| Utf8.Encode | hole_punch/src/host.rs:15-16 | `into_bytes` writes between one and four bytes per character |
| Utf8.Decode | hole_punch/src/server.rs:72 | the text `String::from_utf8` returns has no more characters than the input has bytes, and at least a quarter as many |
| Utf8.DecodeIff | hole_punch/src/server.rs:72 | `String::from_utf8(b)` yields `s` exactly when `b` is the UTF-8 encoding of `s` (no overlong forms, surrogates or code points above U+10FFFF) |
| Utf8.DecodeEncode | hole_punch/src/host.rs:15-16 | the bytes `into_bytes` produces for a name always decode back to that name |
| Utf8.EncodeDecode | hole_punch/src/host.rs:46 | any byte string the decoder accepts is exactly the encoding of the text it returns |
| Utf8.DecodeFailsIff | hole_punch/src/server.rs:72 | decoding fails exactly when the bytes encode no string at all |
| Server.DecodeRequest | hole_punch/src/server.rs:66-72 | a payload shorter than 2 bytes is `InvalidData`; otherwise it is `InvalidUtf8` exactly when the bytes after the role byte encode no string; on success it returns the role byte and the name whose encoding follows it |
| Server.HandleConnection | hole_punch/src/server.rs:56-80 | short payloads and non-UTF-8 names return their error with the registry unchanged and nothing sent; the result is `Ok` exactly for well-formed payloads; only tag 1 may change the registry and only tag 0 may send; any other tag is accepted and ignored; the address → name map is never touched and the `max_hosts` bound is kept |
| Server.Lookup | hole_punch/src/server.rs:85-97 | `client`: an unregistered name sends nothing; a registered one sends the client's address text to the host and then the host's address text to the client, both reliable-ordered |
| Server.RegisterHost | hole_punch/src/server.rs:100-105 | a name already registered, or a full registry, leaves everything unchanged (first registrant wins); otherwise the name is bound to the sender and the size grows by one; the bound `max_hosts` is kept and the reverse map is not written |
| Server.RegistrationBinds | hole_punch/src/server.rs:74-78 | a host's registration packet binds its name to its address exactly when the name is free and there is room, sends nothing, and returns `Ok` |
| Server.LookupExchanges | hole_punch/src/server.rs:85-97 | a client's request for a registered name sends exactly two reliable-ordered packets, the client's address text to the host and then the host's address text to the client; an unregistered name sends nothing; the registry is unchanged |
| Server.RemoveHost | hole_punch/src/server.rs:40-47 | a disconnect from an address the reverse map knows removes that address and its name from both maps; any other disconnect changes nothing |
| Server.Step | hole_punch/src/server.rs:32-51 | one turn of the server loop sends at most two packets, all reliable-ordered, and only for a packet event; a disconnect from an unknown address, a connect or a timeout leaves the registry unchanged |
| Server.Run | hole_punch/src/server.rs:32-51 | over any sequence of events the server sends at most two packets per event, all reliable-ordered |
| Server.StepKeepsInvariant | hole_punch/src/server.rs:32-51 | every event keeps at most `max_hosts` names and an empty address → name map, never rebinds a registered name, and a disconnect leaves the registry unchanged |
| Server.RunKeepsInvariant | hole_punch/src/server.rs:28-51 | from the empty registry, over any sequence of events, the size bound holds, the reverse map stays empty and every name stays bound to its first registrant |
| Server.DisconnectLeavesStaleHost | hole_punch/src/server.rs:40-47 | as written: after a host registers and then disconnects, its name still resolves to the departed address and a lookup still sends the two-packet exchange |
| Server.RegisterHostBoth | hole_punch/src/server.rs:100-105 | corrected registration: when the name and the address are both unused and there is room, it binds both directions; otherwise nothing changes |
| Server.StepCorrectedKeepsPaired | hole_punch/src/server.rs:40-47 | with corrected registration, every event keeps the two maps inverse to each other and within `max_hosts` |
| Server.CorrectedDisconnectUnregisters | hole_punch/src/server.rs:40-47 | with corrected registration, a registered host's disconnect removes its name and address, leaves every other binding alone, and a later lookup of the name sends nothing |
| Server.CorrectedScenarioForgetsHost | hole_punch/src/server.rs:30-31 | the register-then-disconnect scenario of `DisconnectLeavesStaleHost`, corrected: the name is bound after registering and gone after the disconnect |
| HostSession.RegistrationPacket | hole_punch/src/host.rs:15-17 | the host's registration goes reliable-ordered to the server with role byte 1 first |
| HostSession.RegistrationRoundTrip | hole_punch/src/host.rs:15-16 | the server's decoder recovers role 1 and the same name from a non-empty name's payload; an empty name gives a one-byte payload the server rejects as `InvalidData` |
| HostSession.ParseAddr | hole_punch/src/host.rs:46-47 | a payload that encodes no text parses to nothing; a payload encoding text `t` parses as `SocketAddr::from_str(t)` |
| HostSession.ParseAddrBytes | hole_punch/src/host.rs:46-47 | the address text the server sends is parsed back to that very address |
| HostSession.Dispatch | hole_punch/src/host.rs:40-70 | a server packet that parses inserts or overwrites the client's entry with a fresh channel and, if the socket accepts it, sends the probe `[0]` and starts a session; one that does not parse changes nothing; a packet from a known client is forwarded to its channel, or only that entry is evicted when the channel is closed; unknown senders are dropped; a disconnect removes exactly that entry; other events change nothing |
| HostSession.Run | hole_punch/src/host.rs:40-71 | over any sequence of events the next fresh channel only grows, by at most one per event, and at most two actions are taken per event |
| HostSession.DispatchKeepsFresh | hole_punch/src/host.rs:44-69 | each step keeps every channel in the map fresh and distinct, never forwards a server packet, and forwards only to the open channel mapped from the packet's sender |
| HostSession.RunNeverForwardsServer | hole_punch/src/host.rs:45-62 | over any run, channels stay fresh and distinct and no packet from the server's address ever reaches a client session, even when that address is also a key of the map |
| ClientSession.RegistrationPacket | hole_punch/src/client.rs:23-25 | the client's request goes reliable-ordered to the server with role byte 0 first |
| ClientSession.RegistrationRoundTrip | hole_punch/src/client.rs:23-24 | the server's decoder recovers role 0 and the requested name; an empty name is rejected as too short |
| ClientSession.HandleConnection | hole_punch/src/client.rs:50-53 | an unparsable host address is `BadAddress`; a parsed one whose probe the socket refuses is `SendFailed`; it succeeds exactly when the address parses and the socket takes the probe, and then the probe `[0]` goes to the host and the TCP and UDP halves both target the host's address |
| ClientSession.AcceptExchange | hole_punch/src/client.rs:33-34 | an exchange payload that is not UTF-8 stops the handshake (where the code panics); UTF-8 text goes to `handle_connection` |
| ClientSession.Handshake | hole_punch/src/client.rs:31-37 | a second event that is not a packet ends the handshake with nothing started; a packet's payload goes to the exchange; a tunnel starts only from a packet and an open socket |
| ClientSession.ExchangeReachesHost | hole_punch/src/client.rs:50-53 | the address text the server sends is parsed back to the host's address: with an open socket the host is probed and bound to both relay halves, otherwise the handshake fails with `SendFailed` |
| ClientSession.RelayEvents | hole_punch/src/client.rs:57-63 | the relay loop passes on exactly the packet events, in order, and drops all others |
| ClientSession.PacketsOfExact | hole_punch/src/client.rs:57-63 | a packet is relayed exactly when it arrived as a packet event |
| Tunnel.Receivers | hole_punch/src/common.rs:18-30 | the TCP-bound stream is the order-preserving filter of the input to reliable packets, and the UDP-bound stream the filter to unreliable ones |
| Tunnel.ReceiversPartition | hole_punch/src/common.rs:23-26 | each inbound packet goes to exactly one stream, chosen by its delivery guarantee: sizes add up and the multisets union to the input |
| Tunnel.TcpOutbound | hole_punch/src/common.rs:37-40 | each successful read of at most 10 bytes becomes one reliable-ordered packet to the single peer address with exactly those bytes, in order, until the first failed read |
| Tunnel.TcpOutboundKeepsBytes | hole_punch/src/common.rs:38-41 | the payloads of the emitted packets, joined, equal the bytes read, in order |
| Tunnel.Chunks | hole_punch/src/common.rs:37-38 | a stream read in full ten-byte buffers yields non-empty reads that deliver exactly the stream |
| Tunnel.UdpOutbound | hole_punch/src/common.rs:56-59 | each received datagram becomes one unreliable packet to the single peer address holding exactly the datagram's first `min(length, buffer size)` bytes, until the first failed receive |
| Tunnel.WriteBack | hole_punch/src/common.rs:44-46 | inbound payloads are written in arrival order; the loop stops with an error at the first failing write, having written exactly the payloads before it |
| Tunnel.WrittenIsPrefix | hole_punch/src/common.rs:63-65 | what the write loop wrote is a prefix of the joined payloads, and all of them when no write failed |
| Tunnel.TcpOutboundAfterEof | hole_punch/src/common.rs:38-41 | as written: after the data, every read at end of stream emits one more empty reliable packet |
| Tunnel.TcpOutboundUntilEof | hole_punch/src/common.rs:38 | corrected relay: packets for non-empty reads only, stopping at the first error or end of stream |
| Tunnel.UntilEofKeepsBytes | hole_punch/src/common.rs:38-41 | the corrected relay still delivers every byte read, in order, whenever end of stream persists as it does on a stream socket |
| Tunnel.UntilEofStops | hole_punch/src/common.rs:38-41 | corrected, on the end-of-stream scenario: one packet for the data, none after |
| Tunnel.UdpTruncatesLongDatagram | hole_punch/src/common.rs:56-58 | as written: a datagram longer than ten bytes reaches the peer as its first ten bytes |
| Tunnel.FullBufferKeepsDatagrams | hole_punch/src/common.rs:56-58 | corrected: with a buffer as large as any UDP payload, every datagram is relayed whole |
| Rendezvous.AddressExchange | hole_punch/src/server.rs:85-97 | host registers, client asks: the server sends each the other's address reliable-ordered; the host reads the client's address, maps it to a fresh channel and probes it; the client reads the host's address, probes it and binds both relays to it |
| Rendezvous.FirstRegistrantWins | hole_punch/src/server.rs:102-103 | a second host registering a taken name changes nothing, and lookups still reach the first |
| Rendezvous.ProbeLeadsReliableStream | hole_punch/src/client.rs:51-53 | the reliable payloads a peer receives are the other peer's probe `[0]` followed by that peer's relayed TCP reads, whatever unreliable datagrams accompany them |
| Rendezvous.TcpThroughTunnel | hole_punch/src/common.rs:21-46 | when the reliable packets arrive in order after the peer's probe, among any unreliable ones, the settle step discards the probe (host.rs:90-91, client.rs:79-80) and the receiving peer writes exactly the bytes the sending peer read, in order |
| Rendezvous.TestMessageCrossesChunkBoundary | hole_punch/src/lib.rs:33-41 | the 12-byte test message leaves the relay as a 10-byte and a 2-byte packet and is reassembled intact |

## Left out

- Socket polling (`poll_socket`, hole_punch/src/common.rs:10-16) and laminar's internals: I/O driven by a timer, behind a library outside the repository. Inbound events are given as sequences.
- Threads, channels and the server's `Arc<Mutex>`: every handler is one atomic step, and the mutex only serialises those steps.
- The two-second settle sleep (hole_punch/src/host.rs:90, hole_punch/src/client.rs:79): timing. The `try_recv` after it is modelled as discarding the first queued reliable packet, the peer's probe, on the assumption that the probe has arrived by then.
- The client's five-second `recv_timeout` and the event it discards (hole_punch/src/client.rs:30-31): timing, and the unwraps there.
- Binding, connecting, accepting and peeking local TCP and UDP sockets (hole_punch/src/client.rs:12-15, 77, 86-87; hole_punch/src/host.rs:13, 88, 97-98): operating-system I/O.
- Tunnel.WriteBack: each write either succeeds whole or fails. The code calls `write`, which may write only part of a payload and return the count; that partial write is not modelled.
- Panics from `unwrap` on channel sends (hole_punch/src/server.rs:94-95, hole_punch/src/common.rs:24-25, 39-40, 58-59, hole_punch/src/client.rs:59): these happen only when a receiving thread has gone, which the model does not represent.
- ClientSession.AcceptExchange: the `unwrap` of `String::from_utf8` panics the handshake thread; the model returns the error value `NotUtf8` in its place.
- Printing of non-packet events in the client relay (hole_punch/src/client.rs:61): output only.
- ClientSession.Handshake: the `unwrap` of `handle_connection`'s result (hole_punch/src/client.rs:34) panics the handshake thread; the model returns the error value (`BadAddress` or `SendFailed`) in its place.
- Errors from sending the registration packet (hole_punch/src/host.rs:19, hole_punch/src/client.rs:27): the packet is assumed handed to the socket.
- `SocketAddr` formatting and parsing: standard-library code, kept as the fields of `AddrCodec`.
- The `moly` front end (configuration, GUI, argument dispatch): thin wrappers that only pass parameters to the entry points.

## Findings

| source | as written | input that shows it | evidently intended | confidence | as-written member | corrected member |
|---|---|---|---|---|---|---|
| hole_punch/src/server.rs:100-105 | `host` inserts only into the name → address map, but the `Disconnect` arm (lines 40-47) looks the departing peer up in the address → name map, which therefore is always empty | a host registers "test", then disconnects; a client then asks for "test" | a disconnecting host's name is removed, as the comment at lines 30-31 says, so the name can be registered again and lookups stop returning a dead address | high; not executed | Server.DisconnectLeavesStaleHost | Server.CorrectedDisconnectUnregisters |
| hole_punch/src/common.rs:38-41 | the TCP read loop runs while `read` returns `Ok`, and `Ok(0)` (end of stream) is `Ok` | the local application closes its TCP connection; every later read returns `Ok(0)` | the relay stops at end of stream instead of sending an empty reliable packet on every iteration of the read loop, for ever | high; not executed | Tunnel.TcpOutboundAfterEof | Tunnel.UntilEofKeepsBytes |
| hole_punch/src/common.rs:56-58 | datagrams are received into a ten-byte buffer, and `recv` discards whatever does not fit | an 11-byte datagram sent to the local UDP port | each datagram reaches the peer intact | medium; not executed | Tunnel.UdpTruncatesLongDatagram | Tunnel.FullBufferKeepsDatagrams |

The corrected registry adds one guard of its own. An address that already holds a name cannot register a second one, which keeps the two maps inverse to each other.
