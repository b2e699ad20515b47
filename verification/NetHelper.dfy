/** send_to_peer, recv_from_peer and the popping of a message (Lib/net_helper/net_helper-x.c), on the
    network manager on the heap: each does what TwoHosts says of a call. */
module NetHelper {
  import opened Buckets
  import opened Bytes
  import opened Fragmentation
  import opened IntrusiveLists
  import opened NetworkManagers
  import opened Refinement
  import opened TwoHosts
  import opened Wrappers
  import E = EndToEnd
  import R = Receive
  import W = Wire

  ghost function State(nm: NetworkManager): Manager
    reads nm, nm.out
  {
    Manager(nm.endpoints, nm.out.queue)
  }

  function ConfigOf(nm: NetworkManager): E.Config {
    E.Config(nm.fragSize, nm.maxAge)
  }

  /** A valid network manager has the property that TwoHosts asks of every state of a sender. */
  lemma ValidIsSound(nm: NetworkManager)
    requires nm.Valid()
    ensures AllSound(State(nm))
  {
    forall dst ensures Sound(State(nm), dst) {
      ManagerOwns(nm, dst);
    }
  }

  /** send_to_peer: -1 for no data, else its size. */
  method SendToPeer(nm: NetworkManager, to: NodeId, data: bytes, now: int) returns (res: int, ghost k: nat)
    requires nm.Valid() && E.ConfigOk(ConfigOf(nm)) && now >= nm.clock
    requires |Refreshed(Values(EndpointAt(nm.endpoints, to).outgoing), now, nm.maxAge)| < 0x1_0000
    modifies nm`endpoints, nm`clock, nm.out, nm.out.head, nm.out.queue, nm.out.live
    ensures nm.Valid() && res == if data == [] then -1 else |data|
    ensures Does(ConfigOf(nm), old(State(nm)), EnqueuePacket(to, data, now, k), State(nm))
  {
    res, k := nm.EnqueueOutgoingPacket(to, data, now);
    if res >= 0 {
      res := |data|;
    }
  }

  /** The first message leaves the queue, to be sent. */
  method PopMessage(nm: NetworkManager) returns (m: ListHead?)
    requires nm.Valid() && E.ConfigOk(ConfigOf(nm))
    modifies nm.out, nm.out.head, nm.out.queue
    ensures nm.Valid() && Does(ConfigOf(nm), old(State(nm)), PopMsg, State(nm))
    ensures m == if old(nm.out.queue) == [] then null else old(nm.out.queue)[0]
  {
    m := nm.PopOutgoingMsg();
  }

  /** recv_from_peer on a request: the fragment asked for is queued again. */
  method ReceiveRequest(nm: NetworkManager, from: NodeId, f: W.Msg, now: int) returns (res: int, ghost k: nat)
    requires nm.Valid() && E.ConfigOk(ConfigOf(nm)) && now >= nm.clock && f.Request?
    modifies nm`endpoints, nm`clock, nm.out, nm.out.head, nm.out.queue, nm.out.live
    ensures nm.Valid()
    ensures Does(ConfigOf(nm), old(State(nm)), EnqueueFragment(from, f.pid, f.id, now, res, k), State(nm))
  {
    res, k := nm.EnqueueOutgoingFragment(from, f.pid, f.id, now);
  }

  /** recv_from_peer on a fragment: file it, and pop its packet if that is complete. data is what the
      pop writes to the front of a buffer of this size. */
  method ReceiveFragment(nm: NetworkManager, from: NodeId, f: W.Msg, size: nat, now: int, later: int)
      returns (ready: bool, data: Option<bytes>, ghost links: seq<ListHead>, ghost mid: Manager)
    requires nm.Valid() && E.ConfigOk(ConfigOf(nm)) && nm.clock <= now <= later && f.Fragment?
    modifies nm`endpoints, nm`clock, nm.out, nm.out.head, nm.out.queue
    ensures nm.Valid() && Files(ConfigOf(nm), from, old(State(nm)), f, now, links, mid)
    ensures PopsTo(ConfigOf(nm), from, old(State(nm)), f, now, later, size, ready, data, mid, State(nm))
    ensures data.Some? ==> |data.value| <= size
  {
    var state, ids;
    state, ids, links := nm.AddIncomingFragment(from, f.pid, f.fragNum, f.id, f.data, now);
    mid := State(nm);
    ready, data := state == PKT_READY, None;
    if ready {
      data := PopReady(nm, from, f.pid, size, later);
    }
  }

  method PopReady(nm: NetworkManager, from: NodeId, pid: uint16, size: nat, later: int) returns (data: Option<bytes>)
    requires nm.Valid() && nm.clock <= later && from in nm.endpoints
    modifies nm`endpoints, nm`clock
    ensures nm.Valid()
    ensures State(nm) == Manager(PoppedAt(old(nm.endpoints), from, later, nm.maxAge, pid), old(nm.out.queue))
    ensures data == Report(Popped(old(nm.endpoints)[from].incoming, later, nm.maxAge, pid).1, size).1
    ensures data.Some? ==> |data.value| <= size
  {
    var res;
    res, data := nm.PopIncomingPacket(from, pid, size, later);
    ReportFits(Popped(old(nm.endpoints)[from].incoming, later, nm.maxAge, pid).1, size);
  }

  lemma ReportFits(frags: Option<Frags>, size: nat)
    ensures Report(frags, size).1.Some? ==> |Report(frags, size).1.value| <= size
  {
    if frags.Some? {
      assert frags.value[..0] == [];
    }
  }

  /** The effect after filing. */
  ghost predicate PopsTo(c: E.Config, from: NodeId, m: Manager, f: W.Msg, now: int, later: int, size: nat,
                         ready: bool, data: Option<bytes>, mid: Manager, m': Manager)
    requires f.Fragment?
  {
    && (ready <==> Filled(m.endpoints, from, now, c.maxAge, f.pid, f.fragNum, f.id, f.data).1 == PKT_READY)
    && if ready then
         && m' == Manager(PoppedAt(mid.endpoints, from, later, c.maxAge, f.pid), mid.queue)
         && data == Report(Popped(EndpointAt(mid.endpoints, from).incoming, later, c.maxAge, f.pid).1, size).1
       else m' == mid
  }

  /** The bytes go to the front of the buffer, and their number to the caller. */
  method WriteBack(ghost nm: NetworkManager, buffer: array<byte>, ready: bool, data: Option<bytes>) returns (res: nat)
    requires nm.Valid() && (data.Some? ==> |data.value| <= buffer.Length)
    modifies buffer
    ensures nm.Valid() && State(nm) == old(State(nm)) && res <= buffer.Length
    ensures buffer[..res] == Outcoming(ready, data, old(buffer[..]))
    ensures buffer[res..] == old(buffer[..])[res..]
  {
    res := 0;
    if ready && data.Some? {
      res := |data.value|;
      Store(buffer, 0, data.value);
    } else if ready {
      res := buffer.Length;
    }
  }

  /** What the caller takes for data. */
  function Outcoming(ready: bool, data: Option<bytes>, raw: bytes): bytes {
    if !ready then [] else if data.Some? then data.value else raw
  }

  lemma ToldAs(c: E.Config, from: NodeId, m: Manager, f: W.Msg, now: int, later: int, ready: bool, data: Option<bytes>,
               mid: Manager, m': Manager, t: Told)
    requires f.Fragment? && PopsTo(c, from, m, f, now, later, |t.raw|, ready, data, mid, m')
    requires t.now == now && t.later == later && t.result == Outcoming(ready, data, t.raw)
    ensures Pops(c, from, m, f, t, mid, m')
  {
  }

  /** The fragment comes in the datagram d, which is in the buffer raw: this is what TwoHosts says of an
      arrival. */
  method FileAndPop(nm: NetworkManager, from: NodeId, f: W.Msg, size: nat, ghost d: bytes, ghost raw: bytes,
                    now: int, later: int)
      returns (ready: bool, data: Option<bytes>, ghost t: Told, ghost links: seq<ListHead>, ghost mid: Manager,
               ghost after: Manager)
    requires nm.Valid() && E.ConfigOk(ConfigOf(nm)) && nm.clock <= now <= later && |raw| == size
    requires R.IsFragment(d) && W.Decoded(d).value == f && d <= raw
    modifies nm`endpoints, nm`clock, nm.out, nm.out.head, nm.out.queue
    ensures nm.Valid() && State(nm) == after && (data.Some? ==> |data.value| <= size)
    ensures t == Told(d, now, later, raw, Outcoming(ready, data, raw))
    ensures Receives(ConfigOf(nm), from, old(State(nm)), t, links, mid, after)
  {
    ready, data, links, mid := ReceiveFragment(nm, from, f, size, now, later);
    t, after := Told(d, now, later, raw, Outcoming(ready, data, raw)), State(nm);
    ToldAs(ConfigOf(nm), from, old(State(nm)), f, now, later, ready, data, mid, after, t);
  }

  ghost predicate IsRequest(call: Call, from: NodeId, f: W.Msg, now: int)
    requires f.Request?
  {
    && call.EnqueueFragment? && call.dst == from && call.pid == f.pid && call.fid == f.id && call.now == now
  }

  /** recv_from_peer, when recvfrom put a datagram of this length to the front of the buffer. The packet,
      if one is complete, is written over it; the result is its size, 0 if there is none, and the size
      of the buffer if the packet expired before it was popped. */
  method RecvFromPeer(nm: NetworkManager, from: NodeId, buffer: array<byte>, len: nat, now: int, later: int)
      returns (res: nat, ghost call: Call, ghost links: seq<ListHead>, ghost mid: Manager)
    requires nm.Valid() && E.ConfigOk(ConfigOf(nm)) && nm.clock <= now <= later
    requires 0 < len <= buffer.Length && W.Decoded(buffer[..len]).Some?
    modifies nm`endpoints, nm`clock, nm.out, nm.out.head, nm.out.queue, nm.out.live, buffer
    ensures nm.Valid() && res <= buffer.Length
    ensures old(W.Decoded(buffer[..len]).value.Fragment?) ==>
              Receives(ConfigOf(nm), from, old(State(nm)),
                       Told(old(buffer[..len]), now, later, old(buffer[..]), buffer[..res]), links, mid, State(nm))
    ensures old(W.Decoded(buffer[..len]).value.Request?) ==>
              && res == 0 && buffer[..] == old(buffer[..])
              && IsRequest(call, from, old(W.Decoded(buffer[..len]).value), now)
              && Does(ConfigOf(nm), old(State(nm)), call, State(nm))
  {
    var f := W.Decoded(buffer[..len]).value;
    call, links, mid := PopMsg, [], State(nm);
    if f.Fragment? {
      var ready, data;
      ghost var t, after;
      ready, data, t, links, mid, after :=
        FileAndPop(nm, from, f, buffer.Length, buffer[..len], buffer[..], now, later);
      res := WriteBack(nm, buffer, ready, data);
    } else {
      var r;
      ghost var k;
      r, k := ReceiveRequest(nm, from, f, now);
      call := EnqueueFragment(from, f.pid, f.id, now, r, k);
      res := 0;
    }
  }
}
