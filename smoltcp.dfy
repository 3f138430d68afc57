/** The parts of the embedded TCP/IP stack (smoltcp) that the listen table
    uses, reduced to what the table observes: addresses and endpoints, the
    TCP state of a socket, its address pair, and the socket registry keyed by
    handle. */
module Smoltcp {
  import opened Wrappers

  /** A `u16` port number. */
  type Port = p: int | 0 <= p < 0x1_0000

  /** A `SocketHandle`: an index into the socket registry. */
  type Handle = nat

  datatype IpAddress = Ipv4(v4: bv32) | Ipv6(v6: bv128)

  /** `IpEndpoint`: a concrete address and port. */
  datatype IpEndpoint = IpEndpoint(addr: IpAddress, port: Port)

  /** `IpListenEndpoint`: the address is `None` for a wildcard listener. */
  datatype IpListenEndpoint = IpListenEndpoint(addr: Option<IpAddress>, port: Port)

  /** `(local_endpoint, remote_endpoint)` of a socket. */
  type AddrTuple = (IpEndpoint, IpEndpoint)

  /** `smoltcp::socket::tcp::State`. */
  datatype TcpState =
    | Closed | Listen | SynSent | SynReceived | Established
    | FinWait1 | FinWait2 | CloseWait | Closing | LastAck | TimeWait

  /** What the table can observe of a TCP socket: its state and, once a peer
      is known, its address pair. */
  datatype Socket = Socket(state: TcpState, tuple: Option<AddrTuple>)

  /** The stack keeps an address pair for every socket that is neither closed
      nor still waiting for a first SYN; `local_endpoint().unwrap()` relies on it. */
  predicate TupleKnown(s: Socket) {
    s.state != Closed && s.state != Listen ==> s.tuple.Some?
  }

  /** The freshly created socket after a successful `listen`: no peer yet. */
  const ListeningSocket: Socket := Socket(Listen, None)

  /** The socket registry (`SocketSet`): the live handles and their sockets. */
  class SocketSet {
    var sockets: map<Handle, Socket>

    ghost predicate Valid()
      reads this
    {
      forall h :: h in sockets ==> TupleKnown(sockets[h])
    }

    constructor ()
      ensures Valid() && sockets == map[]
    {
      sockets := map[];
    }

    /** `SocketSet::add`, with the new handle chosen by the caller. */
    method Add(h: Handle, s: Socket)
      requires Valid() && h !in sockets && TupleKnown(s)
      modifies this
      ensures Valid() && sockets == old(sockets)[h := s]
    {
      sockets := sockets[h := s];
    }

    /** `SocketSet::remove`: the handle must refer to a live socket (smoltcp
        panics otherwise). */
    method Remove(h: Handle)
      requires Valid() && h in sockets
      modifies this
      ensures Valid() && sockets == old(sockets) - {h}
    {
      sockets := sockets - {h};
    }

    /** The protocol stack moving a live socket on (handshake, reset, ...). */
    method Advance(h: Handle, s: Socket)
      requires Valid() && h in sockets && TupleKnown(s)
      modifies this
      ensures Valid() && sockets == old(sockets)[h := s]
    {
      sockets := sockets[h := s];
    }
  }
}
