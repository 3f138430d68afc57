/** The TCP listen table of `axnet`: one slot per port, each holding at most
    one listen entry with a bounded queue (the SYN queue) of handles of
    sockets that are still completing, or have completed, their handshake. */
module ListenTable {
  import opened Wrappers
  import opened AxErrno
  import opened Smoltcp

  /** One slot per `u16` port. */
  const PORT_NUM: nat := 65536

  /** `ListenTableEntry`: the endpoint being listened on and its SYN queue
      (a `VecDeque<SocketHandle>`). */
  datatype Entry = Entry(listenEndpoint: IpListenEndpoint, synQueue: seq<Handle>)

  /** `ListenTableEntry::new`: a fresh entry with an empty SYN queue. */
  function NewEntry(ep: IpListenEndpoint): Entry {
    Entry(ep, [])
  }

  /** `ListenTableEntry::can_accept`: a wildcard entry accepts packets for any
      destination address, a bound entry only for its own address. */
  predicate AcceptsAddress(e: Entry, dst: IpAddress) {
    match e.listenEndpoint.addr
    case Some(addr) => addr == dst
    case None => true
  }

  /** `is_connected`: the socket has left `Listen` and `SynReceived`. */
  predicate IsConnected(sockets: map<Handle, Socket>, h: Handle)
    requires h in sockets
  {
    sockets[h].state != Listen && sockets[h].state != SynReceived
  }

  /** `is_closed`: the socket is in state `Closed` (it was reset). */
  predicate IsClosed(sockets: map<Handle, Socket>, h: Handle)
    requires h in sockets
  {
    sockets[h].state == Closed
  }

  predicate AllLive(q: seq<Handle>, sockets: map<Handle, Socket>) {
    forall h :: h in q ==> h in sockets
  }

  predicate Distinct<T(==)>(q: seq<T>) {
    forall i, j :: 0 <= i < j < |q| ==> q[i] != q[j]
  }

  /** The set of elements of a sequence. */
  function Elements<T>(q: seq<T>): set<T> {
    set x | x in q
  }

  predicate Disjoint<T(==)>(a: seq<T>, b: seq<T>) {
    forall x :: x in a ==> x !in b
  }

  /** `VecDeque::swap_remove_front(idx)`: `None` and no change when `idx` is
      out of range; otherwise element `idx` is swapped with the front and the
      front is popped, so the old front takes the place of the removed
      element and the rest keep their order. */
  function SwapRemoveFront<T>(q: seq<T>, idx: nat): (r: (Option<T>, seq<T>))
    ensures idx >= |q| ==> r == (None, q)
    ensures idx < |q| ==> r.0 == Some(q[idx]) && |r.1| == |q| - 1
    ensures idx < |q| ==> forall k :: 0 <= k < |r.1| ==> r.1[k] == q[if k + 1 == idx then 0 else k + 1]
  {
    if idx >= |q| then (None, q)
    else if idx == 0 then (Some(q[0]), q[1..])
    else
      var swapped := q[0 := q[idx]][idx := q[0]];
      (Some(swapped[0]), swapped[1..])
  }

  /** What is left after `swap_remove_front(idx)`: the elements between the
      front and `idx`, then the old front, then the elements after `idx`;
      the same elements as before, less the one removed. */
  lemma {:induction false} SwapRemoveFrontShape<T>(q: seq<T>, idx: nat)
    requires idx < |q|
    ensures 0 < idx ==> SwapRemoveFront(q, idx).1 == q[1..idx] + [q[0]] + q[idx + 1..]
    ensures idx == 0 ==> SwapRemoveFront(q, idx).1 == q[1..]
    ensures multiset(SwapRemoveFront(q, idx).1) == multiset(q) - multiset{q[idx]}
  {
    var r := SwapRemoveFront(q, idx).1;
    if idx == 0 {
      assert q == [q[0]] + q[1..];
    } else {
      var shape := q[1..idx] + [q[0]] + q[idx + 1..];
      assert |shape| == |r|;
      forall k | 0 <= k < |r| ensures r[k] == shape[k] {
        if k + 1 < idx {
          assert shape[k] == q[1..idx][k];
        } else if k + 1 > idx {
          assert shape[k] == q[idx + 1..][k - idx];
        }
      }
      assert r == shape;
      assert q == [q[0]] + q[1..idx] + [q[idx]] + q[idx + 1..];
    }
  }

  /** The index that `find_map` over the SYN queue yields: the lowest index
      of a connected socket, or `None` when no queued socket is connected. */
  function FirstConnected(q: seq<Handle>, sockets: map<Handle, Socket>): (r: Option<nat>)
    requires AllLive(q, sockets)
    ensures r.Some? ==> r.value < |q| && IsConnected(sockets, q[r.value])
    ensures r.Some? ==> forall j :: 0 <= j < r.value ==> !IsConnected(sockets, q[j])
    ensures r.None? <==> forall j :: 0 <= j < |q| ==> !IsConnected(sockets, q[j])
    decreases |q|
  {
    if q == [] then None
    else if IsConnected(sockets, q[0]) then Some(0)
    else
      match FirstConnected(q[1..], sockets)
      case None => None
      case Some(i) => Some(i + 1)
  }

  /** The `find_map` loop of `accept`. */
  method FindConnected(q: seq<Handle>, sockets: map<Handle, Socket>) returns (r: Option<nat>)
    requires AllLive(q, sockets)
    ensures r == FirstConnected(q, sockets)
    ensures r.Some? ==> r.value < |q| && IsConnected(sockets, q[r.value])
    ensures r.None? <==> forall j :: 0 <= j < |q| ==> !IsConnected(sockets, q[j])
  {
    var i := 0;
    while i < |q|
      invariant 0 <= i <= |q|
      invariant forall j :: 0 <= j < i ==> !IsConnected(sockets, q[j])
    {
      if IsConnected(sockets, q[i]) {
        FirstConnectedIsLeast(q, sockets, i);
        return Some(i);
      }
      i := i + 1;
    }
    r := None;
  }

  /** Connected index `i` with nothing connected before it is the one
      `FirstConnected` finds. */
  lemma FirstConnectedIsLeast(q: seq<Handle>, sockets: map<Handle, Socket>, i: nat)
    requires AllLive(q, sockets)
    requires i < |q| && IsConnected(sockets, q[i])
    requires forall j :: 0 <= j < i ==> !IsConnected(sockets, q[j])
    ensures FirstConnected(q, sockets) == Some(i)
  {
    var r := FirstConnected(q, sockets);
    assert r.Some?;
    assert !(r.value < i) && !(i < r.value);
  }

  /** `can_accept` on a listening port is true exactly when `accept` finds a
      socket to hand out rather than failing with `EAGAIN`. */
  lemma CanAcceptIffAcceptFinds(q: seq<Handle>, sockets: map<Handle, Socket>)
    requires AllLive(q, sockets)
    ensures (exists i :: 0 <= i < |q| && IsConnected(sockets, q[i])) <==> FirstConnected(q, sockets).Some?
  {
    if FirstConnected(q, sockets).Some? {
      var i := FirstConnected(q, sockets).value;
      assert 0 <= i < |q| && IsConnected(sockets, q[i]);
    }
  }

  /** Removing one element with `swap_remove_front` keeps a queue free of
      duplicates, keeps only handles that were queued, and drops the removed
      handle. */
  lemma SwapRemoveFrontKeepsDistinct(q: seq<Handle>, idx: nat)
    requires idx < |q| && Distinct(q)
    ensures Distinct(SwapRemoveFront(q, idx).1)
    ensures forall h :: h in SwapRemoveFront(q, idx).1 ==> h in q && h != q[idx]
  {
    var r := SwapRemoveFront(q, idx).1;
    forall i, j | 0 <= i < j < |r| ensures r[i] != r[j] {
      var si := if i + 1 == idx then 0 else i + 1;
      var sj := if j + 1 == idx then 0 else j + 1;
      assert r[i] == q[si] && r[j] == q[sj];
      assert si != sj;
    }
    forall h | h in r ensures h in q && h != q[idx] {
      var k :| 0 <= k < |r| && r[k] == h;
      var s := if k + 1 == idx then 0 else k + 1;
      assert r[k] == q[s] && s != idx;
    }
  }

  /** What `accept` does to a listening entry, given the registry: `EAGAIN`
      and no change when no queued socket is connected; otherwise the
      lowest-index connected handle leaves the queue (by
      `swap_remove_front`) and is either reported as reset (`ECONNRESET`) or
      returned with its address pair. */
  function AcceptFrom(e: Entry, sockets: map<Handle, Socket>): (out: (LinuxResult<(Handle, AddrTuple)>, Entry))
    requires AllLive(e.synQueue, sockets) && Distinct(e.synQueue)
    requires forall h :: h in sockets ==> TupleKnown(sockets[h])
    ensures out.1.listenEndpoint == e.listenEndpoint
    ensures out.0 == Err(EAGAIN) <==> forall j :: 0 <= j < |e.synQueue| ==> !IsConnected(sockets, e.synQueue[j])
    ensures out.0 == Err(EAGAIN) ==> out.1 == e
    ensures out.0 != Err(EAGAIN) ==>
              var idx := FirstConnected(e.synQueue, sockets).value;
              var h := e.synQueue[idx];
              out.1.synQueue == SwapRemoveFront(e.synQueue, idx).1 &&
              |out.1.synQueue| == |e.synQueue| - 1 && h !in out.1.synQueue &&
              (out.0 == Err(ECONNRESET) <==> IsClosed(sockets, h)) &&
              (!IsClosed(sockets, h) ==> TupleKnown(sockets[h]) && out.0 == Ok((h, sockets[h].tuple.value)))
    ensures out.0.Ok? ==> IsConnected(sockets, out.0.value.0) && !IsClosed(sockets, out.0.value.0)
    ensures out.0 == Err(EAGAIN) || out.0 == Err(ECONNRESET) || out.0.Ok?
  {
    match FirstConnected(e.synQueue, sockets)
    case None => (Err(EAGAIN), e)
    case Some(idx) =>
      var (removed, rest) := SwapRemoveFront(e.synQueue, idx);
      var h := removed.value;
      SwapRemoveFrontKeepsDistinct(e.synQueue, idx);
      var e' := e.(synQueue := rest);
      assert TupleKnown(sockets[h]);
      if IsClosed(sockets, h) then (Err(ECONNRESET), e')
      else (Ok((h, sockets[h].tuple.value)), e')
  }

  /** The listen table: 65536 slots, the socket registry it releases handles
      to, and the capacity `LISTEN_QUEUE_SIZE` of every SYN queue. */
  class ListenTable {
    const listenQueueSize: nat
    const tcp: array<Option<Entry>>
    const sockets: SocketSet

    /** An entry in slot `p` listens on port `p`, which is never 0; its SYN
        queue is within capacity, holds no handle twice, and holds only live
        handles. */
    ghost predicate EntryValid(e: Entry, p: int)
      reads sockets
    {
      e.listenEndpoint.port == p && p != 0 &&
      |e.synQueue| <= listenQueueSize &&
      Distinct(e.synQueue) &&
      AllLive(e.synQueue, sockets.sockets)
    }

    /** The table invariant: every occupied slot holds a valid entry and no
        handle is queued under two ports. */
    ghost predicate Valid()
      reads this, tcp, sockets
    {
      tcp.Length == PORT_NUM && sockets.Valid() &&
      (forall p :: 0 <= p < PORT_NUM && tcp[p].Some? ==> EntryValid(tcp[p].value, p)) &&
      (forall p, p' :: 0 <= p < PORT_NUM && 0 <= p' < PORT_NUM && p != p' && tcp[p].Some? && tcp[p'].Some? ==>
         Disjoint(tcp[p].value.synQueue, tcp[p'].value.synQueue))
    }

    /** `ListenTable::new`: every slot is empty. */
    constructor (listenQueueSize: nat, sockets: SocketSet)
      requires sockets.Valid()
      ensures Valid() && fresh(tcp)
      ensures this.listenQueueSize == listenQueueSize && this.sockets == sockets
      ensures forall p :: 0 <= p < PORT_NUM ==> tcp[p] == None
    {
      this.listenQueueSize := listenQueueSize;
      this.sockets := sockets;
      tcp := new Option<Entry>[PORT_NUM](_ => None);
    }

    /** The protocol stack moving sockets on (handshakes, resets) neither
        adds nor removes live handles, so the table stays valid. */
    twostate lemma ValidWhileStackAdvances()
      requires old(Valid()) && unchanged(tcp) && sockets.Valid()
      requires sockets.sockets.Keys == old(sockets.sockets.Keys)
      ensures Valid()
    {
      forall p | 0 <= p < PORT_NUM && tcp[p].Some?
        ensures EntryValid(tcp[p].value, p)
      {
        assert old(EntryValid(tcp[p].value, p));
      }
    }

    /** `can_listen`: the slot of `port` is free. */
    method CanListen(port: Port) returns (r: bool)
      requires Valid()
      ensures r <==> tcp[port] == None
    {
      r := tcp[port].None?;
    }

    /** `listen`: install a fresh entry on a free port, or fail with
        `EADDRINUSE`. Port 0 is a caller bug (an assertion in the source). */
    method Listen(ep: IpListenEndpoint) returns (r: LinuxResult<()>)
      requires Valid()
      requires ep.port != 0
      modifies tcp
      ensures Valid()
      ensures old(tcp[ep.port]).None? ==> r == Ok(()) && tcp[ep.port] == Some(Entry(ep, []))
      ensures old(tcp[ep.port]).Some? ==> r == Err(EADDRINUSE) && tcp[ep.port] == old(tcp[ep.port])
      ensures forall p :: 0 <= p < PORT_NUM && p != ep.port ==> tcp[p] == old(tcp[p])
    {
      var port := ep.port;
      if tcp[port].None? {
        tcp[port] := Some(NewEntry(ep));
        r := Ok(());
      } else {
        r := Err(EADDRINUSE);
      }
    }

    /** `Drop for ListenTableEntry`: remove every queued handle from the
        socket registry. */
    method DropEntry(e: Entry)
      requires sockets.Valid()
      requires Distinct(e.synQueue) && AllLive(e.synQueue, sockets.sockets)
      modifies sockets
      ensures sockets.Valid()
      ensures sockets.sockets == old(sockets.sockets) - Elements(e.synQueue)
    {
      var q := e.synQueue;
      var i := 0;
      while i < |q|
        invariant 0 <= i <= |q|
        invariant sockets.Valid()
        invariant sockets.sockets == old(sockets.sockets) - Elements(q[..i])
      {
        assert q[i] !in q[..i];
        assert Elements(q[..i + 1]) == Elements(q[..i]) + {q[i]} by {
          assert q[..i + 1] == q[..i] + [q[i]];
        }
        sockets.Remove(q[i]);
        i := i + 1;
      }
      assert q[..i] == q;
    }

    /** `unlisten`: empty the slot; dropping the old entry releases every
        handle still in its SYN queue. */
    method Unlisten(port: Port)
      requires Valid()
      modifies tcp, sockets
      ensures Valid()
      ensures tcp[port] == None
      ensures forall p :: 0 <= p < PORT_NUM && p != port ==> tcp[p] == old(tcp[p])
      ensures old(tcp[port]).None? ==> sockets.sockets == old(sockets.sockets)
      ensures old(tcp[port]).Some? ==>
                sockets.sockets == old(sockets.sockets) - Elements(old(tcp[port]).value.synQueue)
    {
      var slot := tcp[port];
      tcp[port] := None;
      if slot.Some? {
        DropEntry(slot.value);
        forall p | 0 <= p < PORT_NUM && tcp[p].Some?
          ensures EntryValid(tcp[p].value, p)
        {
          assert Disjoint(tcp[p].value.synQueue, slot.value.synQueue);
        }
      }
    }

    /** `can_accept`: `EINVAL` without a listener, otherwise whether some
        queued socket has left `Listen`/`SynReceived` (the `any` loop). */
    method CanAccept(port: Port) returns (r: LinuxResult<bool>)
      requires Valid()
      ensures tcp[port].None? ==> r == Err(EINVAL)
      ensures tcp[port].Some? ==>
                r == Ok(exists i :: 0 <= i < |tcp[port].value.synQueue| &&
                                    IsConnected(sockets.sockets, tcp[port].value.synQueue[i]))
    {
      var slot := tcp[port];
      if slot.None? {
        return Err(EINVAL);
      }
      var q := slot.value.synQueue;
      assert EntryValid(slot.value, port);
      var i := 0;
      while i < |q|
        invariant 0 <= i <= |q|
        invariant forall j :: 0 <= j < i ==> !IsConnected(sockets.sockets, q[j])
      {
        if IsConnected(sockets.sockets, q[i]) {
          return Ok(true);
        }
        i := i + 1;
      }
      r := Ok(false);
    }

    /** `accept`: `EINVAL` without a listener, `EAGAIN` (queue untouched)
        when no queued socket is connected; otherwise the lowest-index
        connected handle is removed with `swap_remove_front` and returned with
        its address pair, or reported as `ECONNRESET` if its socket is closed. */
    method Accept(port: Port) returns (r: LinuxResult<(Handle, AddrTuple)>)
      requires Valid()
      modifies tcp
      ensures Valid()
      ensures forall p :: 0 <= p < PORT_NUM && p != port ==> tcp[p] == old(tcp[p])
      ensures old(tcp[port]).None? ==> r == Err(EINVAL) && tcp[port] == None
      ensures old(tcp[port]).Some? ==>
                tcp[port] == Some(AcceptFrom(old(tcp[port]).value, sockets.sockets).1) &&
                r == AcceptFrom(old(tcp[port]).value, sockets.sockets).0
    {
      var slot := tcp[port];
      if slot.None? {
        return Err(EINVAL);
      }
      var e := slot.value;
      assert EntryValid(e, port);
      var found := FindConnected(e.synQueue, sockets.sockets);
      if found.None? {
        return Err(EAGAIN);
      }
      var idx := found.value;
      var (removed, rest) := SwapRemoveFront(e.synQueue, idx);
      var h := removed.value;
      SwapRemoveFrontKeepsDistinct(e.synQueue, idx);
      tcp[port] := Some(e.(synQueue := rest));
      if IsClosed(sockets.sockets, h) {
        r := Err(ECONNRESET);
      } else {
        r := Ok((h, sockets.sockets[h].tuple.value));
      }
    }

    /** `incoming_tcp_packet`: a SYN for `dst` is queued as the fresh handle
        `h` only if `dst.port` has a listener, the listener accepts
        `dst.addr`, its SYN queue is below capacity, and the new socket's
        `listen` succeeded (`listenOk`). Anything else changes nothing. The
        source endpoint is only logged. */
    method IncomingTcpPacket(src: IpEndpoint, dst: IpEndpoint, h: Handle, listenOk: bool)
      requires Valid()
      requires h !in sockets.sockets
      modifies tcp, sockets
      ensures Valid()
      ensures forall p :: 0 <= p < PORT_NUM && p != dst.port ==> tcp[p] == old(tcp[p])
      ensures Admits(old(tcp[dst.port]), dst, listenOk) ==>
                tcp[dst.port] == Some(old(tcp[dst.port]).value.(synQueue := old(tcp[dst.port]).value.synQueue + [h])) &&
                sockets.sockets == old(sockets.sockets)[h := ListeningSocket]
      ensures !Admits(old(tcp[dst.port]), dst, listenOk) ==>
                tcp[dst.port] == old(tcp[dst.port]) && sockets.sockets == old(sockets.sockets)
    {
      var slot := tcp[dst.port];
      if slot.None? {
        return;
      }
      var e := slot.value;
      if !AcceptsAddress(e, dst.addr) {
        return;
      }
      if |e.synQueue| >= listenQueueSize {
        return;
      }
      if listenOk {
        sockets.Add(h, ListeningSocket);
        tcp[dst.port] := Some(e.(synQueue := e.synQueue + [h]));
        forall p | 0 <= p < PORT_NUM && p != dst.port && tcp[p].Some?
          ensures Disjoint(tcp[p].value.synQueue, tcp[dst.port].value.synQueue)
        {
          assert EntryValid(old(tcp[p]).value, p);
        }
      }
    }

    /** Whether `incoming_tcp_packet` queues a new handle, given the slot it
        finds and the outcome of the new socket's `listen`. */
    predicate Admits(slot: Option<Entry>, dst: IpEndpoint, listenOk: bool) {
      slot.Some? && AcceptsAddress(slot.value, dst.addr) &&
      |slot.value.synQueue| < listenQueueSize && listenOk
    }
  }
}
