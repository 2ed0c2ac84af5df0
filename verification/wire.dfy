/** Values that travel between the rendezvous server, hosts and clients:
    bytes, socket addresses, packets with their delivery classes, and the
    events a polled datagram socket produces. */
module Wire {

  type byte = b: int | 0 <= b < 0x100

  /** A socket address (IP and port). Its structure never matters to the
      model: it is compared, used as a map key and converted to and from text. */
  type Addr(==, !new)

  datatype Option<+T> = None | Some(value: T)

  datatype Result<+T, +E> = Ok(value: T) | Err(error: E)

  /** The two halves of a laminar packet's delivery class. */
  datatype Guarantee = Reliable | Unreliable
  datatype Ordering = Unordered | Sequenced | Ordered

  datatype Packet = Packet(addr: Addr, payload: seq<byte>, guarantee: Guarantee, ordering: Ordering)

  /** `Packet::reliable_ordered(addr, payload, None)` */
  function ReliableOrdered(addr: Addr, payload: seq<byte>): Packet
  {
    Packet(addr, payload, Reliable, Ordered)
  }

  /** `Packet::unreliable(addr, payload)` */
  function UnreliablePacket(addr: Addr, payload: seq<byte>): Packet
  {
    Packet(addr, payload, Unreliable, Unordered)
  }

  /** The one-byte punch probe `[0]` both peers send to open their NAT mapping. */
  function Probe(addr: Addr): Packet
  {
    ReliableOrdered(addr, [0])
  }

  /** The events a laminar socket's event receiver yields. */
  datatype SocketEvent =
    | PacketEvent(packet: Packet)
    | Connect(peer: Addr)
    | Timeout(peer: Addr)
    | Disconnect(peer: Addr)

  /** The standard library's `format!("{}", addr)` and `SocketAddr::from_str`,
      taken as given functions. */
  datatype AddrCodec = AddrCodec(format: Addr -> string, parse: string -> Option<Addr>)

  /** The standard library's promise that formatting then parsing an address
      gives it back. Lemmas that need it take it as a hypothesis. */
  ghost predicate CodecRoundTrips(c: AddrCodec)
  {
    forall a :: c.parse(c.format(a)) == Some(a)
  }
}
