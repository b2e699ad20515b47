/** The network manager of Lib/net_helper/nhx/network_manager.c with its endpoints
    (endpoint.c): the fragments of the live outgoing packets and the queue they wait in. */
module NetworkManagers {
  import opened Buckets
  import opened Bytes
  import opened Fragmentation
  import opened IntrusiveLists
  import opened OutQueues
  import opened Wrappers

  /** A live outgoing packet; fragment f is the owner of links[f]. */
  datatype OutPacket = OutPacket(pid: uint16, created: int, links: seq<ListHead>)

  datatype Endpoint = Endpoint(outId: uint16, outgoing: seq<OutPacket>, incoming: Bucket)

  const NEW_ENDPOINT := Endpoint(0, [], [])

  // ---- outgoing packets, on values ----

  ghost function ValueOf(p: OutPacket): Packet {
    Packet(p.pid, p.created, seq(|p.links|, f requires 0 <= f < |p.links| => FragmentData(p.links[f])))
  }

  ghost function FragmentData(l: ListHead): Option<bytes> {
    if l.owner.Fragment? then Some(l.owner.data) else None
  }

  ghost function Values(ps: seq<OutPacket>): (b: Bucket)
    ensures |b| == |ps|
    ensures forall i | 0 <= i < |ps| :: b[i] == ValueOf(ps[i])
  {
    seq(|ps|, i requires 0 <= i < |ps| => ValueOf(ps[i]))
  }

  /** The links of the packets ps. */
  ghost function OutLinks(ps: seq<OutPacket>): set<ListHead> {
    if ps == [] then {} else Members(ps[0].links) + OutLinks(ps[1..])
  }

  ghost function LiveLinks(endpoints: map<NodeId, Endpoint>): set<ListHead> {
    set dst, l | dst in endpoints && l in OutLinks(endpoints[dst].outgoing) :: l
  }

  ghost predicate OwnsLinks(dst: NodeId, p: OutPacket) {
    forall f | 0 <= f < |p.links| ::
      p.links[f].owner.Fragment? && p.links[f].owner.to == dst
      && p.links[f].owner.pid == p.pid && p.links[f].owner.fid == f
  }

  ghost predicate EndpointOk(dst: NodeId, e: Endpoint, clock: int) {
    && (forall i | 0 <= i < |e.outgoing| :: OwnsLinks(dst, e.outgoing[i]))
    && WellFormed(Values(e.outgoing), clock)
    && Window(Values(e.outgoing), e.outId)
    && WellFormed(e.incoming, clock)
  }

  ghost predicate EndpointsOk(endpoints: map<NodeId, Endpoint>, clock: int) {
    forall dst | dst in endpoints :: EndpointOk(dst, endpoints[dst], clock)
  }

  ghost function EndpointAt(endpoints: map<NodeId, Endpoint>, dst: NodeId): Endpoint {
    if dst in endpoints then endpoints[dst] else NEW_ENDPOINT
  }

  // ---- lemmas about links ----

  lemma {:induction false} OutLinksOwned(dst: NodeId, ps: seq<OutPacket>, l: ListHead)
    requires (forall i | 0 <= i < |ps| :: OwnsLinks(dst, ps[i])) && l in OutLinks(ps)
    ensures l.owner.Fragment? && l.owner.to == dst
    ensures exists i :: 0 <= i < |ps| && l in ps[i].links && l.owner.pid == ps[i].pid
  {
    if l in ps[0].links {
      var f :| 0 <= f < |ps[0].links| && ps[0].links[f] == l;
    } else {
      OutLinksOwned(dst, ps[1..], l);
      var i :| 0 <= i < |ps[1..]| && l in ps[1..][i].links && l.owner.pid == ps[1..][i].pid;
      assert ps[i + 1] == ps[1..][i];
    }
  }

  lemma {:induction false} OutLinksOf(ps: seq<OutPacket>, i: nat)
    requires i < |ps|
    ensures Members(ps[i].links) <= OutLinks(ps)
  {
    if i > 0 {
      OutLinksOf(ps[1..], i - 1);
    }
  }

  lemma {:induction false} OutLinksConcat(ps: seq<OutPacket>, qs: seq<OutPacket>)
    ensures OutLinks(ps + qs) == OutLinks(ps) + OutLinks(qs)
  {
    if ps == [] {
      assert ps + qs == qs;
    } else {
      assert (ps + qs)[1..] == ps[1..] + qs;
      OutLinksConcat(ps[1..], qs);
    }
  }

  /** Different packets of one endpoint have different links. */
  lemma FirstApart(dst: NodeId, ps: seq<OutPacket>)
    requires ps != [] && (forall i | 0 <= i < |ps| :: OwnsLinks(dst, ps[i])) && PidsDistinct(Values(ps))
    ensures Members(ps[0].links) !! OutLinks(ps[1..])
    ensures Distinct(ps[0].links)
  {
    var b := Values(ps);
    forall l | l in Members(ps[0].links) ensures l !in OutLinks(ps[1..]) {
      var f :| 0 <= f < |ps[0].links| && ps[0].links[f] == l;
      if l in OutLinks(ps[1..]) {
        OutLinksOwned(dst, ps[1..], l);
      }
    }
  }

  /** The links of an endpoint are apart from those of all others. */
  lemma LiveUpdate(endpoints: map<NodeId, Endpoint>, dst: NodeId, e: Endpoint, clock: int)
    requires EndpointsOk(endpoints, clock)
    requires forall i | 0 <= i < |e.outgoing| :: OwnsLinks(dst, e.outgoing[i])
    ensures LiveLinks(endpoints[dst := e]) ==
            LiveLinks(endpoints) - OutLinks(EndpointAt(endpoints, dst).outgoing) + OutLinks(e.outgoing)
  {
    var after, live := endpoints[dst := e], LiveLinks(endpoints);
    var mine := OutLinks(EndpointAt(endpoints, dst).outgoing);
    forall l | l in LiveLinks(after) ensures l in live - mine + OutLinks(e.outgoing) {
      var d :| d in after && l in OutLinks(after[d].outgoing);
      if d != dst {
        OutLinksOwned(d, endpoints[d].outgoing, l);
        if l in mine { OutLinksOwned(dst, endpoints[dst].outgoing, l); }
      }
    }
    forall l | l in live - mine + OutLinks(e.outgoing) ensures l in LiveLinks(after) {
      if l in OutLinks(e.outgoing) {
        assert after[dst] == e;
      } else {
        var d :| d in endpoints && l in OutLinks(endpoints[d].outgoing);
        assert after[d] == endpoints[d];
      }
    }
  }

  lemma LiveSame(endpoints: map<NodeId, Endpoint>, dst: NodeId, e: Endpoint)
    requires e.outgoing == EndpointAt(endpoints, dst).outgoing
    ensures LiveLinks(endpoints[dst := e]) == LiveLinks(endpoints)
  {
    var after := endpoints[dst := e];
    forall l | l in LiveLinks(after) ensures l in LiveLinks(endpoints) {
      var d :| d in after && l in OutLinks(after[d].outgoing);
      assert d in endpoints && l in OutLinks(endpoints[d].outgoing);
    }
    forall l | l in LiveLinks(endpoints) ensures l in LiveLinks(after) {
      var d :| d in endpoints && l in OutLinks(endpoints[d].outgoing);
      assert d in after && l in OutLinks(after[d].outgoing);
    }
  }

  /** The messages of a packet split into fragments. */
  function FragmentMsgs(dst: NodeId, pid: uint16, pieces: seq<bytes>): seq<Owner> {
    seq(|pieces|, f requires 0 <= f < |pieces| => Owner.Fragment(dst, pid, f, pieces[f]))
  }

  function RequestMsgs(src: NodeId, pid: uint16, ids: seq<nat>): seq<Owner> {
    seq(|ids|, k requires 0 <= k < |ids| => Owner.Request(src, pid, ids[k]))
  }

  /** The links ask from for exactly the missing indices that have a present one above them, once each,
      the highest first. */
  ghost predicate AskForGaps(links: seq<ListHead>, from: NodeId, pid: uint16, frags: Frags) {
    && (forall k | 0 <= k < |links| ::
          links[k].owner.Request? && links[k].owner.to == from && links[k].owner.pid == pid)
    && (forall k, l | 0 <= k < l < |links| :: links[k].owner.fid > links[l].owner.fid)
    && (forall k | 0 <= k < |links| :: IsGap(frags, links[k].owner.fid))
    && (forall i: nat | IsGap(frags, i) :: exists k :: 0 <= k < |links| && links[k].owner.fid == i)
  }

  /** ... of the packet with this id. */
  ghost predicate AskedFor(eps: map<NodeId, Endpoint>, from: NodeId, pid: uint16, links: seq<ListHead>) {
    && from in eps
    && exists i :: 0 <= i < |eps[from].incoming| && eps[from].incoming[i].pid == pid
                   && AskForGaps(links, from, pid, eps[from].incoming[i].frags)
  }

  lemma GapsAreAsked(eps: map<NodeId, Endpoint>, from: NodeId, now: int, maxAge: nat, pid: uint16, fragNum: uint16,
                     id: uint16, data: bytes, links: seq<ListHead>)
    requires var filled := Filled(eps, from, now, maxAge, pid, fragNum, id, data);
             filled.1 != PKT_ERROR && Owners(links, RequestMsgs(from, pid, filled.2))
    ensures AskedFor(Filled(eps, from, now, maxAge, pid, fragNum, id, data).0, from, pid, links)
  {
    var i := FilledAsks(eps, from, now, maxAge, pid, fragNum, id, data);
    AskedIn(Filled(eps, from, now, maxAge, pid, fragNum, id, data).0, i, id, from, pid,
            Filled(eps, from, now, maxAge, pid, fragNum, id, data).2, links);
  }

  lemma FilledAsks(eps: map<NodeId, Endpoint>, from: NodeId, now: int, maxAge: nat, pid: uint16, fragNum: uint16,
                   id: uint16, data: bytes)
      returns (i: nat)
    requires Filled(eps, from, now, maxAge, pid, fragNum, id, data).1 != PKT_ERROR
    ensures FiledIn(Filled(eps, from, now, maxAge, pid, fragNum, id, data).0, from, i, pid, id,
                    Filled(eps, from, now, maxAge, pid, fragNum, id, data).2)
  {
    i := FilingAsks(EndpointAt(eps, from).incoming, now, maxAge, pid, fragNum, id, data);
  }

  ghost predicate FiledIn(eps: map<NodeId, Endpoint>, from: NodeId, i: nat, pid: uint16, id: uint16, asked: seq<nat>) {
    from in eps && FiledAt(eps[from].incoming, i, pid, id, asked)
  }

  lemma AskedIn(eps: map<NodeId, Endpoint>, i: nat, id: uint16, from: NodeId, pid: uint16, asked: seq<nat>,
                links: seq<ListHead>)
    requires FiledIn(eps, from, i, pid, id, asked) && Owners(links, RequestMsgs(from, pid, asked))
    ensures AskedFor(eps, from, pid, links)
  {
    LinksAsk(links, from, pid, eps[from].incoming[i].frags, id);
  }

  lemma LinksAsk(links: seq<ListHead>, from: NodeId, pid: uint16, frags: Frags, id: nat)
    requires id < |frags| && frags[id].Some? && Owners(links, RequestMsgs(from, pid, Requested(frags)))
    ensures AskForGaps(links, from, pid, frags)
  {
    var ids := Requested(frags);
    RequestedAreGaps(frags, id);
    forall k | 0 <= k < |links| ensures links[k].owner == Request(from, pid, ids[k]) && ids[k] in ids {}
    forall i: nat | IsGap(frags, i) ensures exists k :: 0 <= k < |links| && links[k].owner.fid == i {
      var k :| 0 <= k < |ids| && ids[k] == i;
      assert links[k].owner.fid == i;
    }
  }

  class NetworkManager {
    const out: OutQueue
    var endpoints: map<NodeId, Endpoint>
    const fragSize: nat
    const maxAge: nat
    /** The last reading of the clock. */
    ghost var clock: int

    ghost predicate Valid()
      reads this, out, out.head, out.queue, out.live
    {
      && fragSize > 0
      && out.Valid()
      && EndpointsOk(endpoints, clock)
      && out.live == LiveLinks(endpoints)
    }

    constructor (fragSize: nat, maxAge: nat)
      requires fragSize > 0
      ensures Valid() && endpoints == map[] && out.queue == [] && fresh(out) && fresh(out.head) && out.live == {}
    {
      out := new OutQueue();
      endpoints := map[];
      this.fragSize, this.maxAge, clock := fragSize, maxAge, 0;
    }

    /** Every queued fragment belongs to a live outgoing packet of the endpoint it is for. */
    lemma QueuedIsLive(l: ListHead)
      requires Valid() && l in out.queue && l.owner.Fragment?
      ensures l.owner.to in endpoints
      ensures var ps := endpoints[l.owner.to].outgoing;
              exists i :: 0 <= i < |ps| && l in ps[i].links && ps[i].pid == l.owner.pid
    {
      var dst :| dst in endpoints && l in OutLinks(endpoints[dst].outgoing);
      OutLinksOwned(dst, endpoints[dst].outgoing, l);
    }

    /** ord_set_find on the endpoints, creating the endpoint if there is none. */
    method FindOrCreate(node: NodeId) returns (e: Endpoint)
      requires Valid()
      modifies this`endpoints
      ensures Valid() && e == EndpointAt(old(endpoints), node)
      ensures endpoints == old(endpoints)[node := e]
    {
      if node in endpoints {
        e := endpoints[node];
      } else {
        e := NEW_ENDPOINT;
      }
      LiveSame(endpoints, node, e);
      endpoints := endpoints[node := e];
    }

    /** packet_bucket_destroy_packet on the oldest packet: its fragments leave the queue. */
    method DropFirst(dst: NodeId)
      requires Valid() && dst in endpoints && endpoints[dst].outgoing != []
      modifies this`endpoints, out, out.head, out.queue, out.live
      ensures Valid()
      ensures var e := old(endpoints)[dst];
              && endpoints == old(endpoints)[dst := e.(outgoing := e.outgoing[1..])]
              && out.queue == MinusAll(old(out.queue), Members(e.outgoing[0].links))
      ensures out.live <= old(out.live) && forall i | 0 <= i < |out.queue| :: out.queue[i] in old(out.queue)
    {
      var e := endpoints[dst];
      var ps := e.outgoing;
      FirstApart(dst, ps);
      OutLinksOf(ps, 0);
      assert forall f | 0 <= f < |ps[0].links| :: ps[0].links[f] in Members(ps[0].links);
      MinusAllMembers(out.queue, Members(ps[0].links));
      LiveUpdate(endpoints, dst, e.(outgoing := ps[1..]), clock);
      DropOk(dst, e, clock);
      out.UnlinkAll(ps[0].links);
      endpoints := endpoints[dst := e.(outgoing := ps[1..])];
    }

    /** One more of the oldest packets goes. */
    method DropNext(dst: NodeId, ghost k: nat, ghost e: Endpoint, ghost eps0: map<NodeId, Endpoint>,
                    ghost q0: seq<ListHead>)
      requires Valid() && Dropped(k, e, dst, eps0, q0, endpoints, out.queue) && endpoints[dst].outgoing != []
      modifies this`endpoints, out, out.head, out.queue, out.live
      ensures Valid() && Dropped(k + 1, e, dst, eps0, q0, endpoints, out.queue)
      ensures endpoints[dst].outgoing == old(endpoints)[dst].outgoing[1..]
      ensures out.live <= old(out.live) && forall i | 0 <= i < |out.queue| :: out.queue[i] in old(out.queue)
    {
      DroppedStep(k, e, dst, eps0, q0, endpoints, out.queue);
      DropFirst(dst);
    }

    /** packet_bucket_periodic_refresh of an outgoing bucket: the k oldest packets go, and their
        fragments with them. */
    method RefreshOutgoing(dst: NodeId, now: int) returns (ghost k: nat)
      requires Valid() && dst in endpoints
      modifies this`endpoints, out, out.head, out.queue, out.live
      ensures Valid()
      ensures Dropped(k, old(endpoints)[dst], dst, old(endpoints), old(out.queue), endpoints, out.queue)
      ensures Values(endpoints[dst].outgoing) == Refreshed(Values(old(endpoints)[dst].outgoing), now, maxAge)
      ensures out.live <= old(out.live) && forall i | 0 <= i < |out.queue| :: out.queue[i] in old(out.queue)
    {
      ghost var e := endpoints[dst];
      k := 0;
      DroppedNone(e, dst, endpoints, out.queue);
      RefreshStart(e.outgoing, now, maxAge);
      var timeCheck := true;
      while endpoints[dst].outgoing != [] && timeCheck
        invariant Valid() && Dropped(k, e, dst, old(endpoints), old(out.queue), endpoints, out.queue)
        invariant out.live <= old(out.live) && forall i | 0 <= i < |out.queue| :: out.queue[i] in old(out.queue)
        invariant RefreshedTo(e.outgoing, endpoints[dst].outgoing, now, maxAge, timeCheck)
        decreases |endpoints[dst].outgoing|, timeCheck
      {
        timeCheck, k := RefreshStep(dst, now, k, e, old(endpoints), old(out.queue));
      }
    }

    /** One round: the oldest packet goes if it is too old. */
    method RefreshStep(dst: NodeId, now: int, ghost k: nat, ghost e: Endpoint, ghost eps0: map<NodeId, Endpoint>,
                       ghost q0: seq<ListHead>) returns (more: bool, ghost k': nat)
      requires Valid() && Dropped(k, e, dst, eps0, q0, endpoints, out.queue) && endpoints[dst].outgoing != []
      requires RefreshedTo(e.outgoing, endpoints[dst].outgoing, now, maxAge, true)
      modifies this`endpoints, out, out.head, out.queue, out.live
      ensures Valid() && Dropped(k', e, dst, eps0, q0, endpoints, out.queue)
      ensures RefreshedTo(e.outgoing, endpoints[dst].outgoing, now, maxAge, more)
      ensures |endpoints[dst].outgoing| == |old(endpoints)[dst].outgoing| - if more then 1 else 0
      ensures out.live <= old(out.live) && forall i | 0 <= i < |out.queue| :: out.queue[i] in old(out.queue)
    {
      RefreshNext(e.outgoing, endpoints[dst].outgoing, now, maxAge);
      more, k' := false, k;
      if now - endpoints[dst].outgoing[0].created >= maxAge {
        DropNext(dst, k, e, eps0, q0);
        more, k' := true, k + 1;
      }
    }

    /** network_manager_enqueue_outgoing_packet: the new fragments go to the front of the queue, in
        order. The collision that packet_bucket_add_packet would run into needs 65536 live packets. */
    method EnqueueOutgoingPacket(dst: NodeId, data: bytes, now: int) returns (res: int, ghost k: nat)
      requires Valid() && now >= clock
      requires |Refreshed(Values(EndpointAt(endpoints, dst).outgoing), now, maxAge)| < 0x1_0000
      modifies this`endpoints, this`clock, out, out.head, out.queue, out.live
      ensures Valid()
      ensures data == [] ==> res == -1 && endpoints == old(endpoints) && out.queue == old(out.queue)
      ensures data != [] ==>
                && res == 0
                && Enqueued(k, dst, data, now, maxAge, fragSize, old(endpoints), old(out.queue), endpoints, out.queue)
    {
      res, k := -1, 0;
      if data != [] {
        k := EndpointEnqueue(dst, data, now);
        res := 0;
      }
    }

    /** Find or create the endpoint, refresh its outgoing bucket and add the packet to it. */
    method EndpointEnqueue(dst: NodeId, data: bytes, now: int) returns (ghost k: nat)
      requires Valid() && now >= clock && data != []
      requires |Refreshed(Values(EndpointAt(endpoints, dst).outgoing), now, maxAge)| < 0x1_0000
      modifies this`endpoints, this`clock, out, out.head, out.queue, out.live
      ensures Valid()
      ensures Enqueued(k, dst, data, now, maxAge, fragSize, old(endpoints), old(out.queue), endpoints, out.queue)
    {
      Tick(now);
      k := RefreshEndpoint(dst, now);
      ghost var eps, q := endpoints, out.queue;
      AppendPacket(dst, data, now);
      EnqueuedInTwo(k, dst, data, now, maxAge, fragSize, old(endpoints), old(out.queue), eps, q, endpoints, out.queue);
    }

    /** The endpoint, found or created, with its outgoing bucket refreshed. */
    method RefreshEndpoint(dst: NodeId, now: int) returns (ghost k: nat)
      requires Valid()
      modifies this`endpoints, out, out.head, out.queue, out.live
      ensures Valid()
      ensures RefreshedAt(k, dst, old(endpoints), old(out.queue), endpoints, out.queue, now, maxAge)
      ensures out.live <= old(out.live) && forall i | 0 <= i < |out.queue| :: out.queue[i] in old(out.queue)
    {
      var e := FindOrCreate(dst);
      ghost var eps := endpoints;
      k := RefreshOutgoing(dst, now);
      RefreshedIs(k, dst, old(endpoints), old(out.queue), eps, endpoints, out.queue, now, maxAge);
    }

    /** endpoint_enqueue_outgoing_packet on a refreshed bucket. */
    method AppendPacket(dst: NodeId, data: bytes, now: int)
      requires Valid() && now == clock && data != []
      requires dst in endpoints && |endpoints[dst].outgoing| < 0x1_0000
      modifies this`endpoints, out, out.head, out.queue, out.live
      ensures Valid()
      ensures Appended(dst, data, now, fragSize, old(endpoints), old(out.queue), endpoints, out.queue)
    {
      var e := endpoints[dst];
      var links := out.SpliceNew(FragmentMsgs(dst, e.outId, Split(data, fragSize)));
      var p := OutPacket(e.outId, now, links);
      PacketAppended(dst, e, p, data, fragSize, now);
      LiveUpdate(endpoints, dst, Grown(e, p), clock);
      endpoints := endpoints[dst := Grown(e, p)];
    }

    /** network_manager_add_incoming_fragment: file the fragment with its sender's endpoint; requests
        for the gaps go to the front of the queue, in order. */
    method AddIncomingFragment(from: NodeId, pid: uint16, fragNum: uint16, id: uint16, data: bytes, now: int)
        returns (res: PacketState, ids: seq<nat>, links: seq<ListHead>)
      requires Valid() && now >= clock
      modifies this`endpoints, this`clock, out, out.head, out.queue
      ensures Valid() && clock == now
      ensures (endpoints, res, ids) == Filled(old(endpoints), from, now, maxAge, pid, fragNum, id, data)
      ensures Owners(links, RequestMsgs(from, pid, ids)) && out.queue == links + old(out.queue)
      ensures res != PKT_ERROR ==> AskedFor(endpoints, from, pid, links)
    {
      Tick(now);
      res, ids := EndpointAddFragment(from, pid, fragNum, id, data, now);
      links := SendRequests(from, pid, ids);
      if res != PKT_ERROR {
        GapsAreAsked(old(endpoints), from, now, maxAge, pid, fragNum, id, data, links);
      }
    }

    /** frag_request_create for each id, and the splice to the front of the queue. */
    method SendRequests(from: NodeId, pid: uint16, ids: seq<nat>) returns (links: seq<ListHead>)
      requires Valid()
      modifies out, out.head, out.queue
      ensures Valid()
      ensures Owners(links, RequestMsgs(from, pid, ids)) && out.queue == links + old(out.queue)
    {
      links := out.SpliceNew(RequestMsgs(from, pid, ids));
      assert forall l | l in links :: !l.owner.Fragment?;
    }

    /** endpoint_add_incoming_fragment, in the endpoint found or created. */
    method EndpointAddFragment(from: NodeId, pid: uint16, fragNum: uint16, id: uint16, data: bytes, now: int)
        returns (res: PacketState, ids: seq<nat>)
      requires Valid() && now == clock
      modifies this`endpoints
      ensures Valid()
      ensures (endpoints, res, ids) == Filled(old(endpoints), from, now, maxAge, pid, fragNum, id, data)
    {
      var e := FindOrCreate(from);
      AddFragmentWellFormed(e.incoming, now, maxAge, pid, fragNum, id, data);
      var (b, state, asked) := AddedFragment(e.incoming, now, maxAge, pid, fragNum, id, data);
      SetIncoming(from, b);
      res, ids := state, asked;
      UpdateTwice(old(endpoints), from, e, e.(incoming := b));
    }

    ghost method Tick(now: int)
      requires Valid() && now >= clock
      modifies this`clock
      ensures Valid() && clock == now
    {
      ClockForward(endpoints, clock, now);
      clock := now;
    }

    /** The incoming bucket of an endpoint becomes b. */
    method SetIncoming(node: NodeId, b: Bucket)
      requires Valid() && node in endpoints && WellFormed(b, clock)
      modifies this`endpoints
      ensures Valid() && endpoints == old(endpoints)[node := old(endpoints)[node].(incoming := b)]
    {
      LiveSame(endpoints, node, endpoints[node].(incoming := b));
      endpoints := endpoints[node := endpoints[node].(incoming := b)];
    }

    /** network_manager_pop_incoming_packet: the result code and what is written to the front of a
        buffer of this size, if anything; the packet is gone afterwards. */
    method PopIncomingPacket(src: NodeId, pid: uint16, size: nat, now: int) returns (res: int, data: Option<bytes>)
      requires Valid() && now >= clock
      modifies this`endpoints, this`clock
      ensures Valid()
      ensures if src !in old(endpoints) then res == -2 && data == None && endpoints == old(endpoints)
              else
                var e := old(endpoints)[src];
                var (b, frags) := Popped(e.incoming, now, maxAge, pid);
                endpoints == old(endpoints)[src := e.(incoming := b)] && (res, data) == Report(frags, size)
      ensures res in {-2, 0, 1} && (data == None <==> res == -2)
    {
      Tick(now);
      res, data := -2, None;
      if src in endpoints {
        PopWellFormed(endpoints[src].incoming, now, maxAge, pid);
        var (b, frags) := Popped(endpoints[src].incoming, now, maxAge, pid);
        SetIncoming(src, b);
        var report := Report(frags, size);
        res, data := report.0, report.1;
      }
    }

    /** network_manager_pop_outgoing_net_msg. */
    method PopOutgoingMsg() returns (m: ListHead?)
      requires Valid()
      modifies out, out.head, out.queue
      ensures Valid()
      ensures if old(out.queue) == [] then m == null && out.queue == []
              else m == old(out.queue)[0] && out.queue == old(out.queue)[1..] && m.next == null
    {
      m := out.Pop();
    }

    /** network_manager_enqueue_outgoing_fragment: a requested fragment of a live packet is appended
        to the queue unless it still waits there. */
    method EnqueueOutgoingFragment(dst: NodeId, pid: uint16, fid: uint16, now: int) returns (res: int, ghost k: nat)
      requires Valid() && now >= clock
      modifies this`endpoints, this`clock, out, out.head, out.queue, out.live
      ensures Valid()
      ensures dst !in old(endpoints) ==> res == -2 && endpoints == old(endpoints) && out.queue == old(out.queue)
      ensures dst in old(endpoints) ==>
                && dst in endpoints
                && Values(endpoints[dst].outgoing) == Refreshed(Values(old(endpoints)[dst].outgoing), now, maxAge)
                && Resent(res, LinkOf(endpoints[dst].outgoing, pid, fid), k, old(endpoints)[dst], dst,
                          old(endpoints), old(out.queue), endpoints, out.queue)
    {
      res, k := -2, 0;
      if dst in endpoints {
        Tick(now);
        k := RefreshOutgoing(dst, now);
        res := Resend(dst, pid, fid);
      }
    }

    method Resend(dst: NodeId, pid: uint16, fid: uint16) returns (res: int)
      requires Valid() && dst in endpoints
      modifies out, out.head, out.queue, out.live
      ensures Valid()
      ensures Requeued(res, LinkOf(endpoints[dst].outgoing, pid, fid), old(out.queue), out.queue)
    {
      res := -2;
      var f := LinkOf(endpoints[dst].outgoing, pid, fid);
      if f.Some? {
        LinkLive(endpoints, dst, pid, fid);
        res := out.Requeue(f.value);
      }
    }

    /** The first loop of network_manager_destroy: with the last endpoint gone, only requests are
        queued, in their old order, as the cast in the second loop assumes. */
    method DestroyEndpoints()
      requires Valid()
      modifies this`endpoints, out, out.head, out.queue, out.live
      ensures Valid() && endpoints == map[] && out.live == {}
      ensures out.queue == RequestsOf(old(out.queue))
      ensures forall i | 0 <= i < |out.queue| :: out.queue[i] in old(out.queue)
    {
      ghost var gone: set<ListHead> := {};
      MinusAllNone(out.queue);
      while endpoints != map[]
        invariant Valid() && Gone(old(out.queue), old(out.live), gone, out.queue, out.live)
        invariant forall i | 0 <= i < |out.queue| :: out.queue[i] in old(out.queue)
        decreases |endpoints|
      {
        gone := DestroySome(old(out.queue), old(out.live), gone);
      }
      OnlyRequests(old(out.queue), old(out.live), gone, out.queue, out.live);
    }

    /** One round: some endpoint goes. */
    method DestroySome(ghost q0: seq<ListHead>, ghost live0: set<ListHead>, ghost gone: set<ListHead>)
        returns (ghost gone': set<ListHead>)
      requires Valid() && endpoints != map[] && Gone(q0, live0, gone, out.queue, out.live)
      modifies this`endpoints, out, out.head, out.queue, out.live
      ensures Valid() && |endpoints| < |old(endpoints)| && Gone(q0, live0, gone', out.queue, out.live)
      ensures forall i | 0 <= i < |out.queue| :: out.queue[i] in old(out.queue)
    {
      var dst :| dst in endpoints;
      ghost var mine := OutLinks(endpoints[dst].outgoing);
      gone' := gone + mine;
      MinusAllTwice(q0, gone, mine);
      DestroyEndpoint(dst);
    }

    /** endpoint_destroy: every outgoing packet goes, with its fragments. */
    method DestroyEndpoint(dst: NodeId)
      requires Valid() && dst in endpoints
      modifies this`endpoints, out, out.head, out.queue, out.live
      ensures Valid() && endpoints == old(endpoints) - {dst}
      ensures out.queue == MinusAll(old(out.queue), OutLinks(old(endpoints)[dst].outgoing))
      ensures out.live == old(out.live) - OutLinks(old(endpoints)[dst].outgoing)
      ensures OutLinks(old(endpoints)[dst].outgoing) <= old(out.live)
      ensures forall i | 0 <= i < |out.queue| :: out.queue[i] in old(out.queue)
    {
      ghost var e, k: nat := endpoints[dst], 0;
      DroppedNone(e, dst, endpoints, out.queue);
      while endpoints[dst].outgoing != []
        invariant Valid() && Dropped(k, e, dst, old(endpoints), old(out.queue), endpoints, out.queue)
        invariant out.live <= old(out.live) && forall i | 0 <= i < |out.queue| :: out.queue[i] in old(out.queue)
        decreases |endpoints[dst].outgoing|
      {
        DropNext(dst, k, e, old(endpoints), old(out.queue));
        k := k + 1;
      }
      AllDropped(k, e, dst, old(endpoints), old(out.queue), endpoints, out.queue, clock);
      endpoints := endpoints - {dst};
    }

    /** network_manager_destroy ends with an empty queue. */
    method Destroy()
      requires Valid()
      modifies this`endpoints, out, out.head, out.queue, out.live
      ensures endpoints == map[] && out.queue == []
    {
      DestroyEndpoints();
      out.DestroyRequests();
    }
  }

  /** The links gone are off the queue and not live any more. */
  ghost predicate Gone(q0: seq<ListHead>, live0: set<ListHead>, gone: set<ListHead>, q: seq<ListHead>,
                       live: set<ListHead>) {
    q == MinusAll(q0, gone) && live == live0 - gone && gone <= live0
  }

  /** With every fragment gone, the requests are left. */
  lemma OnlyRequests(q0: seq<ListHead>, live0: set<ListHead>, gone: set<ListHead>, q: seq<ListHead>,
                     live: set<ListHead>)
    requires Gone(q0, live0, gone, q, live) && live == {}
    requires forall l | l in q0 :: l in live0 || l.owner.Request?
    requires forall l | l in live0 :: l.owner.Fragment?
    ensures q == RequestsOf(q0)
  {
    forall l | l in live0 ensures l in gone {
      assert l in gone || l in live;
    }
    MinusFragments(q0, gone);
  }

  /** The refresh has come from ps to rest; it goes on while more is set. */
  ghost predicate RefreshedTo(ps: seq<OutPacket>, rest: seq<OutPacket>, now: int, maxAge: nat, more: bool) {
    Refreshed(Values(ps), now, maxAge) ==
      if more && rest != [] then Refreshed(Values(rest), now, maxAge) else Values(rest)
  }

  lemma RefreshStart(ps: seq<OutPacket>, now: int, maxAge: nat)
    ensures RefreshedTo(ps, ps, now, maxAge, true)
  {
  }

  lemma RefreshNext(ps: seq<OutPacket>, rest: seq<OutPacket>, now: int, maxAge: nat)
    requires rest != [] && RefreshedTo(ps, rest, now, maxAge, true)
    ensures if now - rest[0].created >= maxAge then RefreshedTo(ps, rest[1..], now, maxAge, true)
            else RefreshedTo(ps, rest, now, maxAge, false)
  {
    assert Values(rest)[1..] == Values(rest[1..]);
  }

  lemma UpdateTwice(eps: map<NodeId, Endpoint>, n: NodeId, e: Endpoint, e': Endpoint)
    ensures eps[n := e][n := e'] == eps[n := e']
  {
  }

  lemma AllDropped(k: nat, e: Endpoint, dst: NodeId, eps0: map<NodeId, Endpoint>, q0: seq<ListHead>,
                   eps: map<NodeId, Endpoint>, q: seq<ListHead>, clock: int)
    requires dst in eps0 && eps0[dst] == e && EndpointsOk(eps0, clock)
    requires Dropped(k, e, dst, eps0, q0, eps, q) && eps[dst].outgoing == []
    ensures q == MinusAll(q0, OutLinks(e.outgoing))
    ensures eps - {dst} == eps0 - {dst}
    ensures LiveLinks(eps - {dst}) == LiveLinks(eps) == LiveLinks(eps0) - OutLinks(e.outgoing)
    ensures OutLinks(e.outgoing) <= LiveLinks(eps0)
  {
    assert e.outgoing[..k] == e.outgoing;
    LiveUpdate(eps0, dst, eps[dst], clock);
    var rest := eps - {dst};
    forall l | l in LiveLinks(eps) ensures l in LiveLinks(rest) {
      var d :| d in eps && l in OutLinks(eps[d].outgoing);
      assert d in rest && rest[d] == eps[d];
    }
    forall l | l in LiveLinks(rest) ensures l in LiveLinks(eps) {
      var d :| d in rest && l in OutLinks(rest[d].outgoing);
      assert d in eps && rest[d] == eps[d];
    }
  }

  ghost predicate Requeued(res: int, f: Option<ListHead>, q0: seq<ListHead>, q: seq<ListHead>) {
    match f
    case None => res == -2 && q == q0
    case Some(l) => if l in q0 then res == 1 && q == q0 else res == 0 && q == q0 + [l]
  }

  /** After the refresh, the fragment asked for was appended unless it was queued. */
  ghost predicate Resent(res: int, f: Option<ListHead>, k: nat, e: Endpoint, dst: NodeId,
                         eps0: map<NodeId, Endpoint>, q0: seq<ListHead>, eps: map<NodeId, Endpoint>, q: seq<ListHead>)
  {
    && k <= |e.outgoing|
    && var rest := MinusAll(q0, OutLinks(e.outgoing[..k]));
       && Dropped(k, e, dst, eps0, q0, eps, rest)
       && Requeued(res, f, rest, q)
  }

  /** The result: -2 if there is no such fragment; else 1 if it was queued and 0 if it is now, at the end. */
  lemma ResentExact(res: int, f: Option<ListHead>, k: nat, e: Endpoint, dst: NodeId, eps0: map<NodeId, Endpoint>,
                    q0: seq<ListHead>, eps: map<NodeId, Endpoint>, q: seq<ListHead>)
    requires Resent(res, f, k, e, dst, eps0, q0, eps, q)
    requires f.Some? ==> f.value !in OutLinks(e.outgoing[..k])
    ensures f == None <==> res == -2
    ensures f.Some? ==> res == (if f.value in q0 then 1 else 0) && f.value in q
    ensures res == 0 ==> q[|q| - 1] == f.value
  {
    MinusAllMembers(q0, OutLinks(e.outgoing[..k]));
  }

  /** packet_bucket_get_fragment on a refreshed outgoing bucket. */
  function LinkOf(ps: seq<OutPacket>, pid: uint16, fid: uint16): Option<ListHead> {
    if ps == [] then None
    else if ps[|ps| - 1].pid == pid then
      if fid < |ps[|ps| - 1].links| then Some(ps[|ps| - 1].links[fid]) else None
    else LinkOf(ps[..|ps| - 1], pid, fid)
  }

  /** The link found is that of the fragment asked for. */
  lemma {:induction false} LinkOfExact(dst: NodeId, ps: seq<OutPacket>, pid: uint16, fid: uint16)
    requires forall i | 0 <= i < |ps| :: OwnsLinks(dst, ps[i])
    ensures match LinkOf(ps, pid, fid)
            case Some(l) =>
              && l in OutLinks(ps)
              && l.owner.Fragment? && l.owner.to == dst && l.owner.pid == pid && l.owner.fid == fid
            case None =>
              forall i | 0 <= i < |ps| && ps[i].pid == pid && PidsDistinct(Values(ps)) :: fid >= |ps[i].links|
  {
    if ps != [] {
      var last := |ps| - 1;
      if ps[last].pid == pid {
        OutLinksOf(ps, last);
        if PidsDistinct(Values(ps)) {
          assert forall i | 0 <= i < last :: Values(ps)[i].pid != Values(ps)[last].pid;
        }
      } else {
        LinkOfExact(dst, ps[..last], pid, fid);
        OutLinksConcat(ps[..last], [ps[last]]);
        assert ps == ps[..last] + [ps[last]];
        if PidsDistinct(Values(ps)) {
          assert Values(ps[..last]) == Values(ps)[..last];
        }
      }
    }
  }

  lemma LinkLive(endpoints: map<NodeId, Endpoint>, dst: NodeId, pid: uint16, fid: uint16)
    requires dst in endpoints && LinkOf(endpoints[dst].outgoing, pid, fid).Some?
    requires forall i | 0 <= i < |endpoints[dst].outgoing| :: OwnsLinks(dst, endpoints[dst].outgoing[i])
    ensures LinkOf(endpoints[dst].outgoing, pid, fid).value in LiveLinks(endpoints)
  {
    LinkOfExact(dst, endpoints[dst].outgoing, pid, fid);
  }

  /** The result of a pop: 0 for the whole packet, 1 if the buffer was too small, -2 for no packet; and
      the bytes written, see FragmentedPacket.DumpData. */
  function Report(frags: Option<Frags>, size: nat): (int, Option<bytes>) {
    match frags
    case Some(fs) => (if Fitting(fs, size, 0) == |fs| then 0 else 1, Some(Dumped(fs, size)))
    case None => (-2, None)
  }

  /** A packet with data is popped with 0 exactly when the buffer is larger than the data, which is then
      written whole, and with 1 otherwise, when what is written fits the buffer; no packet gives -2 and
      writes nothing. */
  lemma ReportExact(frags: Frags, size: nat)
    requires Join(frags) != []
    ensures |Join(frags)| < size ==> Report(Some(frags), size) == (0, Some(Join(frags)))
    ensures |Join(frags)| >= size ==> Report(Some(frags), size).0 == 1 && |Report(Some(frags), size).1.value| <= size
    ensures Report(None, size) == (-2, None)
  {
    DumpAll(frags, size);
    ReportPart(frags, size);
  }

  lemma ReportPart(frags: Frags, size: nat)
    requires Join(frags) != []
    ensures Fitting(frags, size, 0) == |frags| <==> |Join(frags)| < size
    ensures |Dumped(frags, size)| <= size
  {
    assert frags[..|frags|] == frags && frags[..0] == [];
    if |Join(frags)| < size && Fitting(frags, size, 0) < |frags| {
      JoinMonotone(frags, Fitting(frags, size, 0) + 1);
    }
  }

  /** Filing a fragment with the endpoint of its sender: the endpoints, the state, the ids to ask for. */
  ghost function Filled(eps: map<NodeId, Endpoint>, from: NodeId, now: int, maxAge: nat,
                        pid: uint16, fragNum: uint16, id: uint16, data: bytes)
      : (map<NodeId, Endpoint>, PacketState, seq<nat>)
  {
    var e := EndpointAt(eps, from);
    var (b, state, asked) := AddedFragment(e.incoming, now, maxAge, pid, fragNum, id, data);
    (eps[from := e.(incoming := b)], state, asked)
  }

  /** The endpoint, maybe a new one, without its k oldest packets, which are the expired ones. */
  ghost predicate RefreshedAt(k: nat, dst: NodeId, eps0: map<NodeId, Endpoint>, q0: seq<ListHead>,
                              eps: map<NodeId, Endpoint>, q: seq<ListHead>, now: int, maxAge: nat) {
    && dst in eps
    && Dropped(k, EndpointAt(eps0, dst), dst, eps0[dst := EndpointAt(eps0, dst)], q0, eps, q)
    && Values(eps[dst].outgoing) == Refreshed(Values(EndpointAt(eps0, dst).outgoing), now, maxAge)
  }

  lemma RefreshedIs(k: nat, dst: NodeId, eps0: map<NodeId, Endpoint>, q0: seq<ListHead>, eps1: map<NodeId, Endpoint>,
                    eps: map<NodeId, Endpoint>, q: seq<ListHead>, now: int, maxAge: nat)
    requires eps1 == eps0[dst := EndpointAt(eps0, dst)] && Dropped(k, eps1[dst], dst, eps1, q0, eps, q)
    requires Values(eps[dst].outgoing) == Refreshed(Values(eps1[dst].outgoing), now, maxAge)
    ensures RefreshedAt(k, dst, eps0, q0, eps, q, now, maxAge)
  {
  }

  /** One more packet at the end of endpoint dst, its fragments at the front of the queue. */
  ghost predicate Appended(dst: NodeId, data: bytes, now: int, fragSize: nat,
                           eps0: map<NodeId, Endpoint>, q0: seq<ListHead>, eps: map<NodeId, Endpoint>, q: seq<ListHead>)
    requires fragSize > 0
  {
    && dst in eps0 && dst in eps
    && var e, e' := eps0[dst], eps[dst];
       && eps == eps0[dst := e']
       && e'.incoming == e.incoming && e'.outId == NextId(e.outId)
       && Values(e'.outgoing) == Values(e.outgoing) + [NewPacket(e.outId, now, data, fragSize)]
       && q == e'.outgoing[|e'.outgoing| - 1].links + q0
  }

  /** An outgoing packet was enqueued: the k expired ones went, with their fragments; the new one
      came, with its fragments at the front of the queue. */
  ghost predicate Enqueued(k: nat, dst: NodeId, data: bytes, now: int, maxAge: nat, fragSize: nat,
                           eps0: map<NodeId, Endpoint>, q0: seq<ListHead>, eps: map<NodeId, Endpoint>, q: seq<ListHead>)
    requires fragSize > 0
  {
    && dst in eps && eps == eps0[dst := eps[dst]]
    && EndpointNext(EndpointAt(eps0, dst), eps[dst], data, now, maxAge, fragSize)
    && QueueNext(k, EndpointAt(eps0, dst), eps[dst], q0, q)
  }

  ghost predicate EndpointNext(e: Endpoint, e': Endpoint, data: bytes, now: int, maxAge: nat, fragSize: nat)
    requires fragSize > 0
  {
    && e'.incoming == e.incoming && e'.outId == NextId(e.outId)
    && Values(e'.outgoing) == AddedPacket(Values(e.outgoing), now, maxAge, e.outId, data, fragSize)
  }

  ghost predicate QueueNext(k: nat, e: Endpoint, e': Endpoint, q0: seq<ListHead>, q: seq<ListHead>) {
    && k <= |e.outgoing| && |e'.outgoing| == |e.outgoing| - k + 1
    && q == e'.outgoing[|e'.outgoing| - 1].links + MinusAll(q0, OutLinks(e.outgoing[..k]))
  }

  lemma EnqueuedInTwo(k: nat, dst: NodeId, data: bytes, now: int, maxAge: nat, fragSize: nat,
                      eps0: map<NodeId, Endpoint>, q0: seq<ListHead>, eps1: map<NodeId, Endpoint>, q1: seq<ListHead>,
                      eps: map<NodeId, Endpoint>, q: seq<ListHead>)
    requires fragSize > 0 && RefreshedAt(k, dst, eps0, q0, eps1, q1, now, maxAge)
    requires Appended(dst, data, now, fragSize, eps1, q1, eps, q)
    ensures Enqueued(k, dst, data, now, maxAge, fragSize, eps0, q0, eps, q)
  {
    AppendedCount(dst, data, now, fragSize, eps1, q1, eps, q);
    EndpointsJoin(k, EndpointAt(eps0, dst), dst, eps0, q0, eps1, q1, eps);
    EndpointJoins(EndpointAt(eps0, dst), eps1[dst], eps[dst], data, now, maxAge, fragSize);
    QueueJoins(k, EndpointAt(eps0, dst), eps1[dst], eps[dst], q0, q1, q);
  }

  /** The fragments of an enqueued packet come first in the queue, in order, and then what was queued. */
  lemma NewFragmentsFirst(k: nat, dst: NodeId, data: bytes, now: int, maxAge: nat, fragSize: nat, e: Endpoint,
                          q0: seq<ListHead>, e': Endpoint, q: seq<ListHead>)
    requires fragSize > 0 && EndpointNext(e, e', data, now, maxAge, fragSize) && QueueNext(k, e, e', q0, q)
    requires forall i | 0 <= i < |e'.outgoing| :: OwnsLinks(dst, e'.outgoing[i])
    ensures FragNum(|data|, fragSize) <= |q|
    ensures forall f | 0 <= f < FragNum(|data|, fragSize) ::
              q[f].owner == Owner.Fragment(dst, e.outId, f, Split(data, fragSize)[f])
    ensures forall l | l in q[FragNum(|data|, fragSize)..] :: l in q0
  {
    NewLinks(e, e', dst, data, now, maxAge, fragSize);
    LinksThenRest(e'.outgoing[|e'.outgoing| - 1].links, q0, OutLinks(e.outgoing[..k]), q);
  }

  lemma LinksThenRest(links: seq<ListHead>, q0: seq<ListHead>, gone: set<ListHead>, q: seq<ListHead>)
    requires q == links + MinusAll(q0, gone)
    ensures |links| <= |q| && forall f | 0 <= f < |links| :: q[f] == links[f]
    ensures forall l | l in q[|links|..] :: l in q0
  {
    MinusAllMembers(q0, gone);
    assert q[|links|..] == MinusAll(q0, gone);
  }

  lemma NewLinks(e: Endpoint, e': Endpoint, dst: NodeId, data: bytes, now: int, maxAge: nat, fragSize: nat)
    requires fragSize > 0 && EndpointNext(e, e', data, now, maxAge, fragSize)
    requires forall i | 0 <= i < |e'.outgoing| :: OwnsLinks(dst, e'.outgoing[i])
    ensures e'.outgoing != []
    ensures var links := e'.outgoing[|e'.outgoing| - 1].links;
            && |links| == FragNum(|data|, fragSize)
            && forall f | 0 <= f < |links| ::
                 links[f].owner == Owner.Fragment(dst, e.outId, f, Split(data, fragSize)[f])
  {
    var n := |e'.outgoing| - 1;
    assert |Values(e'.outgoing)| == n + 1;
    assert Values(e'.outgoing)[n] == ValueOf(e'.outgoing[n]) == NewPacket(e.outId, now, data, fragSize);
    forall f | 0 <= f < |e'.outgoing[n].links|
      ensures e'.outgoing[n].links[f].owner == Owner.Fragment(dst, e.outId, f, Split(data, fragSize)[f])
    {
      assert ValueOf(e'.outgoing[n]).frags[f] == FragmentData(e'.outgoing[n].links[f]);
      assert OwnsLinks(dst, e'.outgoing[n]);
    }
  }

  lemma EndpointJoins(e: Endpoint, e1: Endpoint, e': Endpoint, data: bytes, now: int, maxAge: nat, fragSize: nat)
    requires fragSize > 0 && e1.incoming == e.incoming && e1.outId == e.outId
    requires Values(e1.outgoing) == Refreshed(Values(e.outgoing), now, maxAge)
    requires e'.incoming == e1.incoming && e'.outId == NextId(e1.outId)
    requires Values(e'.outgoing) == Values(e1.outgoing) + [NewPacket(e1.outId, now, data, fragSize)]
    ensures EndpointNext(e, e', data, now, maxAge, fragSize)
  {
  }

  lemma QueueJoins(k: nat, e: Endpoint, e1: Endpoint, e': Endpoint, q0: seq<ListHead>, q1: seq<ListHead>,
                   q: seq<ListHead>)
    requires k <= |e.outgoing| && q1 == MinusAll(q0, OutLinks(e.outgoing[..k]))
    requires |e1.outgoing| == |e.outgoing| - k && |e'.outgoing| == |e1.outgoing| + 1
    requires q == e'.outgoing[|e'.outgoing| - 1].links + q1
    ensures QueueNext(k, e, e', q0, q)
  {
  }

  lemma AppendedCount(dst: NodeId, data: bytes, now: int, fragSize: nat, eps0: map<NodeId, Endpoint>, q0: seq<ListHead>,
                      eps: map<NodeId, Endpoint>, q: seq<ListHead>)
    requires fragSize > 0 && Appended(dst, data, now, fragSize, eps0, q0, eps, q)
    ensures |eps[dst].outgoing| == |eps0[dst].outgoing| + 1
  {
    assert |Values(eps[dst].outgoing)| == |Values(eps0[dst].outgoing)| + 1;
  }

  lemma EndpointsJoin(k: nat, e: Endpoint, dst: NodeId, eps0: map<NodeId, Endpoint>, q0: seq<ListHead>,
                      eps1: map<NodeId, Endpoint>, q1: seq<ListHead>, eps: map<NodeId, Endpoint>)
    requires Dropped(k, e, dst, eps0[dst := e], q0, eps1, q1) && dst in eps && eps == eps1[dst := eps[dst]]
    ensures eps == eps0[dst := eps[dst]]
    ensures |eps1[dst].outgoing| == |e.outgoing| - k
  {
  }

  function Grown(e: Endpoint, p: OutPacket): Endpoint {
    e.(outId := NextId(e.outId), outgoing := e.outgoing + [p])
  }

  lemma PacketAppended(dst: NodeId, e: Endpoint, p: OutPacket, data: bytes, fragSize: nat, clock: int)
    requires EndpointOk(dst, e, clock) && |e.outgoing| < 0x1_0000 && fragSize > 0
    requires p.pid == e.outId && p.created == clock
    requires Owners(p.links, FragmentMsgs(dst, e.outId, Split(data, fragSize)))
    ensures ValueOf(p) == NewPacket(e.outId, clock, data, fragSize)
    ensures Values(e.outgoing + [p]) == Values(e.outgoing) + [ValueOf(p)]
    ensures EndpointOk(dst, Grown(e, p), clock)
    ensures OutLinks(e.outgoing + [p]) == OutLinks(e.outgoing) + Members(p.links)
    ensures FragmentsOf(p.links) == Members(p.links)
  {
    var b := Values(e.outgoing);
    CollisionExact(b, e.outId);
    AppendSorted(b, clock, ValueOf(p));
    WindowAppend(b, e.outId, ValueOf(p));
    OutLinksConcat(e.outgoing, [p]);
    assert OutLinks([p]) == Members(p.links) by { assert [p][1..] == []; }
    forall l | l in p.links ensures l.owner.Fragment? {
      var f :| 0 <= f < |p.links| && p.links[f] == l;
    }
    assert Values(e.outgoing + [p]) == b + [ValueOf(p)];
  }

  lemma ClockForward(endpoints: map<NodeId, Endpoint>, clock: int, now: int)
    requires EndpointsOk(endpoints, clock) && clock <= now
    ensures EndpointsOk(endpoints, now)
  {
  }

  /** The k oldest packets of endpoint dst, which was e, are gone, and their fragments off the queue. */
  ghost predicate Dropped(k: nat, e: Endpoint, dst: NodeId, eps0: map<NodeId, Endpoint>, q0: seq<ListHead>,
                          eps: map<NodeId, Endpoint>, q: seq<ListHead>) {
    && k <= |e.outgoing|
    && eps == eps0[dst := e.(outgoing := e.outgoing[k..])]
    && q == MinusAll(q0, OutLinks(e.outgoing[..k]))
  }

  lemma DroppedNone(e: Endpoint, dst: NodeId, eps: map<NodeId, Endpoint>, q: seq<ListHead>)
    requires dst in eps && eps[dst] == e
    ensures Dropped(0, e, dst, eps, q, eps, q)
  {
    MinusAllNone(q);
    assert e.outgoing[0..] == e.outgoing && e.outgoing[..0] == [];
  }

  lemma DroppedStep(k: nat, e: Endpoint, dst: NodeId, eps0: map<NodeId, Endpoint>, q0: seq<ListHead>,
                    eps: map<NodeId, Endpoint>, q: seq<ListHead>)
    requires Dropped(k, e, dst, eps0, q0, eps, q) && eps[dst].outgoing != []
    ensures var ps := eps[dst].outgoing;
            && Dropped(k + 1, e, dst, eps0, q0, eps[dst := eps[dst].(outgoing := ps[1..])],
                       MinusAll(q, Members(ps[0].links)))
            && Values(ps[1..]) == Values(ps)[1..]
  {
    var ps := e.outgoing;
    assert ps[..k + 1] == ps[..k] + [ps[k]] && ps[k..][1..] == ps[k + 1..];
    OutLinksConcat(ps[..k], [ps[k]]);
    assert OutLinks([ps[k]]) == Members(ps[k].links) by { assert [ps[k]][1..] == []; }
    MinusAllTwice(q0, OutLinks(ps[..k]), Members(ps[k].links));
  }

  lemma DropOk(dst: NodeId, e: Endpoint, clock: int)
    requires EndpointOk(dst, e, clock) && e.outgoing != []
    ensures EndpointOk(dst, e.(outgoing := e.outgoing[1..]), clock)
  {
    var b, c := Values(e.outgoing), Values(e.outgoing[1..]);
    assert c == b[1..];
    forall i | 0 <= i < |c| ensures c[i].pid == WindowPid(|c|, e.outId, i) {
      assert b[i + 1].pid == WindowPid(|b|, e.outId, i + 1);
    }
  }
}
