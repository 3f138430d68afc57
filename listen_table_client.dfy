/** A caller of the listen table, written against the contracts alone: the
    backlog life cycle of one listener with a SYN queue of capacity 4. */
module ListenTableClient {
  import opened Wrappers
  import opened AxErrno
  import opened Smoltcp
  import opened ListenTable

  /** Listening twice on port 8080 fails until the port is unlistened. */
  method RelistenOnPort8080() returns (table: ListenTable)
    ensures table.Valid() && fresh(table.tcp) && fresh(table.sockets)
    ensures table.listenQueueSize == 4 && table.sockets.sockets == map[]
    ensures table.tcp[8080] == Some(Entry(IpListenEndpoint(None, 8080), []))
  {
    var sockets := new SocketSet();
    table := new ListenTable(4, sockets);
    var ep := IpListenEndpoint(None, 8080);
    var r := table.Listen(ep);
    assert r == Ok(());
    r := table.Listen(ep);
    assert r == Err(EADDRINUSE);
    table.Unlisten(8080);
    r := table.Listen(ep);
    assert r == Ok(());
  }

  /** Four SYNs fill the queue. */
  method FillBacklog(table: ListenTable, dst: IpEndpoint, peer: IpAddress)
    requires table.Valid() && table.listenQueueSize == 4 && table.sockets.sockets == map[]
    requires dst.port == 8080 && table.tcp[8080] == Some(Entry(IpListenEndpoint(None, 8080), []))
    modifies table.tcp, table.sockets
    ensures table.Valid()
    ensures table.tcp[8080] == Some(Entry(IpListenEndpoint(None, 8080), [1, 2, 3, 4]))
    ensures table.sockets.sockets == FourListening()
  {
    table.IncomingTcpPacket(IpEndpoint(peer, 1001), dst, 1, true);
    assert table.tcp[8080].value.synQueue == [1];
    table.IncomingTcpPacket(IpEndpoint(peer, 1002), dst, 2, true);
    assert table.tcp[8080].value.synQueue == [1, 2];
    table.IncomingTcpPacket(IpEndpoint(peer, 1003), dst, 3, true);
    assert table.tcp[8080].value.synQueue == [1, 2, 3];
    table.IncomingTcpPacket(IpEndpoint(peer, 1004), dst, 4, true);
    assert table.tcp[8080].value.synQueue == [1, 2, 3, 4];
  }

  /** With the queue full, a fifth SYN is dropped: neither the queue nor the
      registry changes. */
  method FifthSynDropped(table: ListenTable, dst: IpEndpoint, peer: IpAddress)
    requires table.Valid() && table.listenQueueSize == 4 && dst.port == 8080
    requires table.tcp[8080] == Some(Entry(IpListenEndpoint(None, 8080), [1, 2, 3, 4]))
    requires table.sockets.sockets == FourListening()
    modifies table.tcp, table.sockets
    ensures table.Valid()
    ensures table.tcp[8080] == Some(Entry(IpListenEndpoint(None, 8080), [1, 2, 3, 4]))
    ensures table.sockets.sockets == FourListening()
  {
    table.IncomingTcpPacket(IpEndpoint(peer, 1005), dst, 5, true);
  }

  function FourListening(): map<Handle, Socket> {
    map[1 := ListeningSocket, 2 := ListeningSocket, 3 := ListeningSocket, 4 := ListeningSocket]
  }

  /** While every queued socket is still in its handshake, `can_accept`
      says no and `accept` asks to try again, leaving the queue as it was. */
  method NothingAcceptableDuringHandshake(table: ListenTable)
    requires table.Valid()
    requires table.tcp[8080] == Some(Entry(IpListenEndpoint(None, 8080), [1, 2, 3, 4]))
    requires table.sockets.sockets == FourListening()
    modifies table.tcp
  {
    var sockets := table.sockets;
    var ready := table.CanAccept(8080);
    assert !IsConnected(sockets.sockets, 1) && !IsConnected(sockets.sockets, 2);
    assert !IsConnected(sockets.sockets, 3) && !IsConnected(sockets.sockets, 4);
    assert ready == Ok(false);
    var pending := table.Accept(8080);
    assert pending == Err(EAGAIN);
    assert table.tcp[8080].value.synQueue == [1, 2, 3, 4];
  }

  /** The protocol stack completes the third socket's handshake. */
  method CompleteThirdHandshake(table: ListenTable, tuple: AddrTuple)
    requires table.Valid()
    requires table.sockets.sockets == FourListening()
    modifies table.sockets
    ensures table.Valid()
    ensures table.sockets.sockets == ThirdEstablished(tuple)
  {
    table.sockets.Advance(3, Socket(Established, Some(tuple)));
    table.ValidWhileStackAdvances();
  }

  /** Once the third socket has completed its handshake, `can_accept` says
      yes. */
  method AcceptableAfterHandshake(table: ListenTable, tuple: AddrTuple)
    requires table.Valid()
    requires table.tcp[8080] == Some(Entry(IpListenEndpoint(None, 8080), [1, 2, 3, 4]))
    requires table.sockets.sockets == ThirdEstablished(tuple)
  {
    var ready := table.CanAccept(8080);
    assert IsConnected(table.sockets.sockets, [1, 2, 3, 4][2]);
    assert ready == Ok(true);
  }

  /** Socket 3 is the first connected one in [1, 2, 3, 4]. */
  lemma ThirdIsFirstConnected(tuple: AddrTuple)
    ensures AllLive([1, 2, 3, 4], ThirdEstablished(tuple))
    ensures FirstConnected([1, 2, 3, 4], ThirdEstablished(tuple)) == Some(2)
  {
    FirstConnectedIsLeast([1, 2, 3, 4], ThirdEstablished(tuple), 2);
  }

  /** Removing index 2 of [1, 2, 3, 4] moves the front into its place. */
  lemma SwapRemoveThird()
    ensures SwapRemoveFront([1, 2, 3, 4], 2).1 == [2, 1, 4]
  {
    var q: seq<Handle> := [1, 2, 3, 4];
    SwapRemoveFrontShape(q, 2);
    assert q[1..2] + [q[0]] + q[3..] == [2, 1, 4];
  }

  /** Accepting from the queue [1, 2, 3, 4] when only socket 3 is connected
      hands out socket 3 and leaves [2, 1, 4]. */
  lemma AcceptThirdOfFour(ep: IpListenEndpoint, tuple: AddrTuple)
    ensures AcceptFrom(Entry(ep, [1, 2, 3, 4]), ThirdEstablished(tuple)) == (Ok((3, tuple)), Entry(ep, [2, 1, 4]))
  {
    ThirdIsFirstConnected(tuple);
    SwapRemoveThird();
    var sockets := ThirdEstablished(tuple);
    assert Distinct([1, 2, 3, 4]);
    assert IsConnected(sockets, 3) && !IsClosed(sockets, 3);
  }

  function ThirdEstablished(tuple: AddrTuple): map<Handle, Socket> {
    map[1 := ListeningSocket, 2 := ListeningSocket, 3 := Socket(Established, Some(tuple)), 4 := ListeningSocket]
  }

  /** Once the third socket has completed its handshake, exactly that socket
      is accepted with its address pair, and the old front of the queue
      takes its place. */
  method AcceptAfterHandshake(table: ListenTable, tuple: AddrTuple)
    requires table.Valid()
    requires table.tcp[8080] == Some(Entry(IpListenEndpoint(None, 8080), [1, 2, 3, 4]))
    requires table.sockets.sockets == ThirdEstablished(tuple)
    modifies table.tcp
  {
    AcceptThirdOfFour(IpListenEndpoint(None, 8080), tuple);
    var accepted := table.Accept(8080);
    assert accepted == Ok((3, tuple));
    assert table.tcp[8080].value.synQueue == [2, 1, 4];
  }
}
