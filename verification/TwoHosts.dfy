/** Two hosts with a network manager each, and the network between them: whatever calls the managers
    get, and in whatever order, the packets from the one to the other take a run of EndToEnd. */
module TwoHosts {
  import opened Buckets
  import opened Bytes
  import opened Fragmentation
  import opened IntrusiveLists
  import opened OutQueues
  import opened NetworkManagers
  import opened Refinement
  import opened Wrappers
  import D = Delivery
  import E = EndToEnd
  import U = EndToEndReuse
  import T = DeliveryTrace
  import R = Receive
  import W = Wire

  datatype Manager = Manager(endpoints: map<NodeId, Endpoint>, queue: seq<ListHead>)

  /** The calls of a network manager. k is the number of packets that the refresh drops, res the
      result, links are those of the requests queued. */
  datatype Call =
    | EnqueuePacket(dst: NodeId, data: bytes, now: int, k: nat)
    | PopMsg
    | EnqueueFragment(dst: NodeId, pid: uint16, fid: uint16, now: int, res: int, k: nat)
    | AddFragment(from: NodeId, pid: uint16, fragNum: uint16, id: uint16, data: bytes, now: int, links: seq<ListHead>)
    | PopPacket(src: NodeId, pid: uint16, now: int)

  /** What the methods of NetworkManager ensure, as NetHelper shows. */
  ghost predicate Does(c: E.Config, m: Manager, call: Call, m': Manager)
    requires E.ConfigOk(c)
  {
    match call
    case EnqueuePacket(dst, data, now, k) =>
      if data == [] then m' == m
      else
        && |Refreshed(Values(EndpointAt(m.endpoints, dst).outgoing), now, c.maxAge)| < 0x1_0000
        && Enqueued(k, dst, data, now, c.maxAge, c.fragSize, m.endpoints, m.queue, m'.endpoints, m'.queue)
    case PopMsg =>
      m'.endpoints == m.endpoints && m'.queue == if m.queue == [] then [] else m.queue[1..]
    case EnqueueFragment(dst, pid, fid, now, res, k) =>
      if dst !in m.endpoints then m' == m else Asked(c, m, dst, pid, fid, now, res, k, m')
    case AddFragment(from, pid, fragNum, id, data, now, links) =>
      FiledBy(from, pid, Filled(m.endpoints, from, now, c.maxAge, pid, fragNum, id, data), links, m, m')
    case PopPacket(src, pid, now) =>
      m' == Manager(PoppedAt(m.endpoints, src, now, c.maxAge, pid), m.queue)
  }

  ghost predicate FiledBy(from: NodeId, pid: uint16, filled: (map<NodeId, Endpoint>, PacketState, seq<nat>),
                          links: seq<ListHead>, m: Manager, m': Manager) {
    && m'.endpoints == filled.0
    && Owners(links, RequestMsgs(from, pid, filled.2)) && m'.queue == links + m.queue
  }

  ghost predicate Asked(c: E.Config, m: Manager, dst: NodeId, pid: uint16, fid: uint16, now: int, res: int, k: nat,
                        m': Manager)
    requires dst in m.endpoints
  {
    && dst in m'.endpoints
    && Values(m'.endpoints[dst].outgoing) == Refreshed(Values(m.endpoints[dst].outgoing), now, c.maxAge)
    && Resent(res, LinkOf(m'.endpoints[dst].outgoing, pid, fid), k, m.endpoints[dst], dst,
              m.endpoints, m.queue, m'.endpoints, m'.queue)
  }

  ghost function PoppedAt(eps: map<NodeId, Endpoint>, src: NodeId, now: int, maxAge: nat, pid: uint16)
      : map<NodeId, Endpoint> {
    if src !in eps then eps
    else eps[src := eps[src].(incoming := Popped(eps[src].incoming, now, maxAge, pid).0)]
  }

  /** A valid network manager has this for every peer: NetHelper.ValidIsSound. */
  ghost predicate Sound(m: Manager, dst: NodeId) {
    && Owned(dst, EndpointAt(m.endpoints, dst).outgoing)
    && QueuedFrom(m.queue, dst, EndpointAt(m.endpoints, dst).outgoing)
  }

  // ---- the two hosts ----

  /** One call of recv_from_peer that got a fragment: the datagram, the two readings of the clock, the
      buffer with the datagram in it, and the bytes that the caller was told are data. */
  datatype Told = Told(datagram: bytes, now: int, later: int, raw: bytes, result: bytes)

  /** sent: the datagrams sent to the receiver. given: the packets enqueued for it. told: its receives
      of fragments from the sender. */
  datatype Hosts = Hosts(
    sender: Manager, receiver: Manager, sent: set<bytes>, given: seq<bytes>, told: seq<Told>, clock: int)

  /** A call at either host; or recv_from_peer at the receiver gets a datagram from the sender, files
      its fragment, which leads to mid, and pops the packet if it is complete. */
  datatype Event =
    | AtSender(call: Call)
    | AtReceiver(call: Call)
    | Arrive(told: Told, links: seq<ListHead>, mid: Manager)

  ghost function TimeOf(call: Call, clock: int): int {
    if call.PopMsg? then clock else call.now
  }

  /** The packets enqueued for dst, with that of this call. */
  ghost function Given(given: seq<bytes>, call: Call, dst: NodeId): seq<bytes> {
    if call.EnqueuePacket? && call.dst == dst && call.data != [] then given + [call.data] else given
  }

  /** The datagrams sent to dst; a message popped is sent at once. */
  ghost function Sent(sent: set<bytes>, m: Manager, call: Call, dst: NodeId): set<bytes> {
    if call.PopMsg? && m.queue != [] && IsFor(m.queue[0], dst) then
      var l := m.queue[0];
      var k := CountOf(EndpointAt(m.endpoints, dst).outgoing, l.owner.pid);
      if Fit(l, k) then sent + {W.Encoded(MessageOf(l, k))} else sent
    else sent
  }

  /** Fragments and packets from src are the business of recv_from_peer alone. */
  ghost predicate Meddles(call: Call, src: NodeId) {
    (call.AddFragment? && call.from == src) || (call.PopPacket? && call.src == src)
  }

  ghost predicate Happens(c: E.Config, a: NodeId, b: NodeId, w: Hosts, e: Event, w': Hosts)
    requires E.ConfigOk(c)
  {
    match e
    case AtSender(call) => Sending(c, b, w, call, w')
    case AtReceiver(call) =>
      && !Meddles(call, a) && w.clock <= TimeOf(call, w.clock) && Does(c, w.receiver, call, w'.receiver)
      && w' == w.(receiver := w'.receiver, clock := TimeOf(call, w.clock))
    case Arrive(t, links, mid) =>
      && t.datagram in w.sent && w.clock <= t.now <= t.later
      && Receives(c, a, w.receiver, t, links, mid, w'.receiver)
      && w' == w.(receiver := w'.receiver, told := w.told + [t], clock := t.later)
  }

  /** What recv_from_peer does with a fragment from src. */
  ghost predicate Receives(c: E.Config, src: NodeId, m: Manager, t: Told, links: seq<ListHead>, mid: Manager,
                           m': Manager) {
    && t.datagram <= t.raw && R.IsFragment(t.datagram)
    && Files(c, src, m, W.Decoded(t.datagram).value, t.now, links, mid)
    && Pops(c, src, m, W.Decoded(t.datagram).value, t, mid, m')
  }

  ghost predicate Sending(c: E.Config, b: NodeId, w: Hosts, call: Call, w': Hosts)
    requires E.ConfigOk(c)
  {
    && w.clock <= TimeOf(call, w.clock) && Does(c, w.sender, call, w'.sender)
    && w' == w.(sender := w'.sender, sent := Sent(w.sent, w.sender, call, b), given := Given(w.given, call, b),
                clock := TimeOf(call, w.clock))
  }

  /** The fragment is filed, as by AddFragment. */
  ghost predicate Files(c: E.Config, a: NodeId, m: Manager, f: W.Msg, now: int, links: seq<ListHead>, mid: Manager)
    requires f.Fragment?
  {
    FiledBy(a, f.pid, Filled(m.endpoints, a, now, c.maxAge, f.pid, f.fragNum, f.id, f.data), links, m, mid)
  }

  /** The pop, as by PopPacket, and what the caller is told. When it fails, the size stays that of the
      buffer. */
  ghost predicate Pops(c: E.Config, a: NodeId, m: Manager, f: W.Msg, t: Told, mid: Manager, m': Manager)
    requires f.Fragment?
  {
    if Filled(m.endpoints, a, t.now, c.maxAge, f.pid, f.fragNum, f.id, f.data).1 == PKT_READY then
      && m' == Manager(PoppedAt(mid.endpoints, a, t.later, c.maxAge, f.pid), mid.queue)
      && var frags := Popped(EndpointAt(mid.endpoints, a).incoming, t.later, c.maxAge, f.pid).1;
         t.result == Outcome(frags, t.raw)
    else
      m' == mid && t.result == []
  }

  ghost function Outcome(frags: Option<Frags>, raw: bytes): bytes {
    match Report(frags, |raw|).1
    case Some(data) => data
    case None => raw
  }

  // ---- the run of EndToEnd ----

  ghost function Datagrams(s: E.System): set<bytes> {
    set m | m in s.network :: m.1
  }

  /** The receipt r is of the call t: same datagram, times, buffer and result. */
  ghost predicate Records(network: set<(nat, bytes)>, r: E.Receipt, t: Told) {
    && (r.serial, t.datagram) in network && R.IsFragment(t.datagram) && r.fid == W.Decoded(t.datagram).value.id
    && r.now == t.now && r.later == t.later && r.raw == t.raw && r.result == t.result && t.datagram <= t.raw
  }

  ghost predicate AllRecorded(network: set<(nat, bytes)>, log: seq<E.Receipt>, told: seq<Told>) {
    |log| == |told| && forall i | 0 <= i < |log| :: Records(network, log[i], told[i])
  }

  ghost predicate SenderIs(c: E.Config, b: NodeId, w: Hosts, s: E.System)
    requires E.ConfigOk(c)
  {
    && E.SenderInv(c, s) && Represents(s, b, EndpointAt(w.sender.endpoints, b), w.sender.queue)
    && s.history == w.given && Datagrams(s) == w.sent
  }

  ghost predicate ReceiverIs(a: NodeId, w: Hosts, s: E.System) {
    s.receiver == EndpointAt(w.receiver.endpoints, a).incoming && AllRecorded(s.network, s.log, w.told)
  }

  /** s is the hosts' state, as far as packets from a to b are concerned. */
  ghost predicate Simulates(c: E.Config, a: NodeId, b: NodeId, w: Hosts, s: E.System)
    requires E.ConfigOk(c)
  {
    SenderIs(c, b, w, s) && ReceiverIs(a, w, s) && s.clock <= w.clock
  }

  // ---- calls that are none of the peer's business ----

  ghost predicate SameOut(e: Endpoint, e': Endpoint) {
    e'.outgoing == e.outgoing && e'.outId == e.outId
  }

  lemma SameRepresents(s: E.System, b: NodeId, e: Endpoint, e': Endpoint, q: seq<ListHead>)
    requires Represents(s, b, e, q) && SameOut(e, e')
    ensures Represents(s, b, e', q)
  {
  }

  lemma RequestsSpare(s: E.System, b: NodeId, e: Endpoint, q: seq<ListHead>, links: seq<ListHead>, src: NodeId,
                      pid: uint16, ids: seq<nat>)
    requires Represents(s, b, e, q) && Owners(links, RequestMsgs(src, pid, ids))
    ensures Represents(s, b, e, links + q)
  {
    QueueNone(links, b, s.sender, |s.history|);
    QueueConcat(links, q, b, s.sender, |s.history|);
  }

  /** A fragment asked for by another peer. */
  lemma AskedSparesOthers(s: E.System, c: E.Config, m: Manager, dst: NodeId, pid: uint16, fid: uint16, now: int,
                          res: int, k: nat, m': Manager, b: NodeId, e: Endpoint)
    requires b != dst && dst in m.endpoints && Asked(c, m, dst, pid, fid, now, res, k, m')
    requires Represents(s, b, e, m.queue)
    requires Owned(dst, m.endpoints[dst].outgoing) && Owned(dst, m'.endpoints[dst].outgoing)
    ensures Represents(s, b, e, m'.queue)
  {
    var rest := MinusAll(m.queue, OutLinks(m.endpoints[dst].outgoing[..k]));
    var f := LinkOf(m'.endpoints[dst].outgoing, pid, fid);
    OthersKept(dst, m.endpoints[dst].outgoing, k, m.queue, b, s.sender, |s.history|);
    LinkOfExact(dst, m'.endpoints[dst].outgoing, pid, fid);
    AppendSpares(s, b, e, rest, m'.queue, res, f);
  }

  lemma AppendSpares(s: E.System, b: NodeId, e: Endpoint, rest: seq<ListHead>, q: seq<ListHead>, res: int,
                     f: Option<ListHead>)
    requires Represents(s, b, e, rest) && Requeued(res, f, rest, q) && (f.Some? ==> !IsFor(f.value, b))
    ensures Represents(s, b, e, q)
  {
    if f.Some? {
      QueueNone([f.value], b, s.sender, |s.history|);
      QueueConcat(rest, [f.value], b, s.sender, |s.history|);
    }
  }

  // ---- calls at the sender ----

  ghost predicate AllSound(m: Manager) {
    forall dst :: Sound(m, dst)
  }

  /** The call is the action act of the sender's side. */
  lemma SenderActs(c: E.Config, a: NodeId, b: NodeId, s0: E.System, w: Hosts, s: E.System, act: E.Action, w': Hosts,
                   u: E.System)
    requires E.ConfigOk(c) && D.CanReach(c, s0, s) && Simulates(c, a, b, w, s)
    requires !act.Deliver? && E.Enabled(c, s, act) && u == E.Next(c, s, act)
    requires w'.receiver == w.receiver && w'.told == w.told && u.history == w'.given && Datagrams(u) == w'.sent
    requires Represents(u, b, EndpointAt(w'.sender.endpoints, b), w'.sender.queue) && u.clock <= w'.clock
    ensures D.CanReach(c, s0, u) && Simulates(c, a, b, w', u)
  {
    E.SendInv(c, s, act);
    E.SenderSteps(c, s, act);
    NetworkGrows(c, s, act);
    RecordedGrows(s.network, u.network, s.log, w.told);
    assert u in E.After(c, s, act);
    D.ReachOn(c, s0, s, act, u);
  }

  lemma NetworkGrows(c: E.Config, s: E.System, act: E.Action)
    requires E.ConfigOk(c) && !act.Deliver? && E.Enabled(c, s, act)
    ensures s.network <= E.Next(c, s, act).network
  {
  }

  lemma RecordedGrows(network: set<(nat, bytes)>, network': set<(nat, bytes)>, log: seq<E.Receipt>, told: seq<Told>)
    requires AllRecorded(network, log, told) && network <= network'
    ensures AllRecorded(network', log, told)
  {
    forall i | 0 <= i < |log| ensures Records(network', log[i], told[i]) {
      assert Records(network, log[i], told[i]);
    }
  }

  /** An enqueued packet for b. */
  lemma EnqueueForPeer(c: E.Config, a: NodeId, b: NodeId, s0: E.System, w: Hosts, s: E.System, call: Call, w': Hosts)
      returns (u: E.System)
    requires E.ConfigOk(c) && D.CanReach(c, s0, s) && Simulates(c, a, b, w, s) && Sending(c, b, w, call, w')
    requires call.EnqueuePacket? && call.dst == b && call.data != [] && Sound(w.sender, b) && Sound(w'.sender, b)
    ensures D.CanReach(c, s0, u) && Simulates(c, a, b, w', u)
  {
    var act := E.Enqueue(call.data, call.now);
    EnqueuedByCall(c, s, w.sender, b, call.data, call.now, call.k, w'.sender);
    u := E.Next(c, s, act);
    EnqueueSame(c, s, call.data, call.now);
    SenderActs(c, a, b, s0, w, s, act, w', u);
  }

  lemma EnqueuedByCall(c: E.Config, s: E.System, m: Manager, b: NodeId, data: bytes, now: int, k: nat, m': Manager)
    requires E.ConfigOk(c) && data != [] && Does(c, m, EnqueuePacket(b, data, now, k), m')
    requires Represents(s, b, EndpointAt(m.endpoints, b), m.queue) && Sound(m, b) && Sound(m', b)
    ensures Represents(E.NextEnqueue(c, s, data, now), b, EndpointAt(m'.endpoints, b), m'.queue)
  {
    EnqueuedIsStep(c, s, k, b, data, now, m.endpoints, m.queue, m'.endpoints, m'.queue);
  }

  lemma EnqueueSame(c: E.Config, s: E.System, data: bytes, now: int)
    requires E.ConfigOk(c)
    ensures var u := E.NextEnqueue(c, s, data, now);
            u.history == s.history + [data] && Datagrams(u) == Datagrams(s) && u.clock == now
  {
  }

  /** b asks for a fragment. */
  lemma AskedByPeer(c: E.Config, a: NodeId, b: NodeId, s0: E.System, w: Hosts, s: E.System, call: Call, w': Hosts)
      returns (u: E.System)
    requires E.ConfigOk(c) && D.CanReach(c, s0, s) && Simulates(c, a, b, w, s)
    requires call.EnqueueFragment? && call.dst == b && b in w.sender.endpoints && w.clock <= call.now
    requires Asked(c, w.sender, b, call.pid, call.fid, call.now, call.res, call.k, w'.sender)
    requires w' == w.(sender := w'.sender, clock := call.now) && Sound(w.sender, b) && Sound(w'.sender, b)
    ensures D.CanReach(c, s0, u) && Simulates(c, a, b, w', u)
  {
    var act := E.Resend(call.pid, call.fid, call.now);
    AskedIsStep(c, s, w.sender, b, call.pid, call.fid, call.now, call.res, call.k, w'.sender);
    u := E.Next(c, s, act);
    ResendSame(c, s, call.pid, call.fid, call.now);
    SenderActs(c, a, b, s0, w, s, act, w', u);
  }

  lemma AskedCall(c: E.Config, b: NodeId, w: Hosts, call: Call, w': Hosts)
    requires E.ConfigOk(c) && Sending(c, b, w, call, w') && call.EnqueueFragment? && call.dst == b
    requires b in w.sender.endpoints
    ensures Asked(c, w.sender, b, call.pid, call.fid, call.now, call.res, call.k, w'.sender)
    ensures w' == w.(sender := w'.sender, clock := call.now) && w.clock <= call.now
  {
  }

  lemma AskedIsStep(c: E.Config, s: E.System, m: Manager, b: NodeId, pid: uint16, fid: uint16, now: int, res: int,
                    k: nat, m': Manager)
    requires E.ConfigOk(c) && b in m.endpoints && Asked(c, m, b, pid, fid, now, res, k, m')
    requires Represents(s, b, EndpointAt(m.endpoints, b), m.queue) && Sound(m, b) && Sound(m', b)
    ensures Represents(E.NextResend(c, s, pid, fid, now), b, EndpointAt(m'.endpoints, b), m'.queue)
  {
    ResentIsStep(c, s, k, b, pid, fid, now, res, m.endpoints, m.queue, m'.endpoints, m'.queue);
  }

  lemma ResendSame(c: E.Config, s: E.System, pid: uint16, fid: uint16, now: int)
    ensures var u := E.NextResend(c, s, pid, fid, now);
            u.history == s.history && Datagrams(u) == Datagrams(s) && u.clock == now
  {
  }

  /** The first message is a fragment for b. */
  lemma PopForPeer(c: E.Config, a: NodeId, b: NodeId, s0: E.System, w: Hosts, s: E.System, call: Call, w': Hosts)
      returns (u: E.System)
    requires E.ConfigOk(c) && D.CanReach(c, s0, s) && Simulates(c, a, b, w, s) && Sending(c, b, w, call, w')
    requires call.PopMsg? && w.sender.queue != [] && IsFor(w.sender.queue[0], b) && Sound(w.sender, b)
    ensures D.CanReach(c, s0, u) && Simulates(c, a, b, w', u)
  {
    var l, e := w.sender.queue[0], EndpointAt(w.sender.endpoints, b);
    u := PopIsStep(c, s, b, e, w.sender.queue);
    SenderActs(c, a, b, s0, w, s, E.Transmit, w', u);
  }

  lemma PopIsStep(c: E.Config, s: E.System, b: NodeId, e: Endpoint, q: seq<ListHead>) returns (u: E.System)
    requires E.ConfigOk(c) && E.SenderInv(c, s) && Represents(s, b, e, q)
    requires Owned(b, e.outgoing) && QueuedFrom(q, b, e.outgoing) && q != [] && IsFor(q[0], b)
    ensures E.Enabled(c, s, E.Transmit) && u == E.Next(c, s, E.Transmit)
    ensures Represents(u, b, e, q[1..]) && u.history == s.history && u.clock == s.clock
    ensures var k := CountOf(e.outgoing, q[0].owner.pid);
            Fit(q[0], k) && Datagrams(u) == Datagrams(s) + {W.Encoded(MessageOf(q[0], k))}
  {
    TransmitRefines(c, s, b, e, q);
    TransmitSame(s);
    u := E.NextTransmit(s);
    OneSent(s, u, q[0], CountOf(e.outgoing, q[0].owner.pid));
  }

  lemma TransmitSame(s: E.System)
    requires s.queue != []
    ensures var u := E.NextTransmit(s); u.history == s.history && u.clock == s.clock
  {
  }

  lemma OneSent(s: E.System, u: E.System, l: ListHead, k: nat)
    requires l.owner.Fragment? && Sends(s, l, k, u)
    ensures Datagrams(u) == Datagrams(s) + {W.Encoded(MessageOf(l, k))}
  {
    forall d | d in Datagrams(u) ensures d in Datagrams(s) + {W.Encoded(MessageOf(l, k))} {
      var m :| m in u.network && m.1 == d;
      assert m in s.network || m == (s.queue[0].0, W.Encoded(MessageOf(l, k)));
    }
    assert (s.queue[0].0, W.Encoded(MessageOf(l, k))) in u.network;
    forall m | m in s.network ensures m in u.network {}
  }

  /** Any other call leaves the sender's side for b as it is. */
  lemma OtherCall(c: E.Config, m: Manager, call: Call, m': Manager, b: NodeId, s: E.System)
    requires E.ConfigOk(c) && Does(c, m, call, m') && Represents(s, b, EndpointAt(m.endpoints, b), m.queue)
    requires AllSound(m) && AllSound(m') && !ForPeer(m, call, b)
    ensures Represents(s, b, EndpointAt(m'.endpoints, b), m'.queue)
  {
    var e, e' := EndpointAt(m.endpoints, b), EndpointAt(m'.endpoints, b);
    match call
    case EnqueuePacket(dst, data, now, k) =>
      if data != [] {
        EnqueuedElsewhere(k, dst, data, now, c.maxAge, c.fragSize, m.endpoints, m.queue, m'.endpoints, m'.queue, b);
        OtherEnqueue(m, dst, k, m', b, s);
      }
    case PopMsg => OtherPop(m, m', b, s);
    case EnqueueFragment(dst, pid, fid, now, res, k) =>
      if dst in m.endpoints { OtherAsked(c, m, dst, pid, fid, now, res, k, m', b, s); }
    case AddFragment(from, pid, fragNum, id, data, now, links) =>
      SameRepresents(s, b, e, e', m.queue);
      RequestsSpare(s, b, e', m.queue, links, from, pid,
                    Filled(m.endpoints, from, now, c.maxAge, pid, fragNum, id, data).2);
    case PopPacket(src, pid, now) => SameRepresents(s, b, e, e', m.queue);
  }

  /** The calls that are an action of the sender's side for b. */
  ghost predicate ForPeer(m: Manager, call: Call, b: NodeId) {
    match call
    case EnqueuePacket(dst, data, _, _) => dst == b && data != []
    case PopMsg => m.queue != [] && IsFor(m.queue[0], b)
    case EnqueueFragment(dst, _, _, _, _, _) => dst == b && b in m.endpoints
    case _ => false
  }

  lemma OtherEnqueue(m: Manager, dst: NodeId, k: nat, m': Manager, b: NodeId, s: E.System)
    requires dst != b && EndpointAt(m'.endpoints, b) == EndpointAt(m.endpoints, b)
    requires QueueNext(k, EndpointAt(m.endpoints, dst), EndpointAt(m'.endpoints, dst), m.queue, m'.queue)
    requires Represents(s, b, EndpointAt(m.endpoints, b), m.queue) && AllSound(m) && AllSound(m')
    ensures Represents(s, b, EndpointAt(m'.endpoints, b), m'.queue)
  {
    assert Sound(m, dst) && Sound(m', dst);
    EnqueueSparesOthers(s, k, dst, EndpointAt(m.endpoints, dst), m.queue, EndpointAt(m'.endpoints, dst), m'.queue, b,
                        EndpointAt(m.endpoints, b));
  }

  lemma EnqueuedElsewhere(k: nat, dst: NodeId, data: bytes, now: int, maxAge: nat, fragSize: nat,
                          eps0: map<NodeId, Endpoint>, q0: seq<ListHead>, eps: map<NodeId, Endpoint>, q: seq<ListHead>,
                          b: NodeId)
    requires fragSize > 0 && b != dst && Enqueued(k, dst, data, now, maxAge, fragSize, eps0, q0, eps, q)
    ensures QueueNext(k, EndpointAt(eps0, dst), EndpointAt(eps, dst), q0, q)
    ensures EndpointAt(eps, b) == EndpointAt(eps0, b)
  {
  }

  lemma OtherPop(m: Manager, m': Manager, b: NodeId, s: E.System)
    requires m'.endpoints == m.endpoints && m'.queue == if m.queue == [] then [] else m.queue[1..]
    requires Represents(s, b, EndpointAt(m.endpoints, b), m.queue)
    requires m.queue != [] ==> !IsFor(m.queue[0], b)
    ensures Represents(s, b, EndpointAt(m'.endpoints, b), m'.queue)
  {
  }

  lemma OtherAsked(c: E.Config, m: Manager, dst: NodeId, pid: uint16, fid: uint16, now: int, res: int, k: nat,
                   m': Manager, b: NodeId, s: E.System)
    requires dst != b && dst in m.endpoints && Asked(c, m, dst, pid, fid, now, res, k, m')
    requires Represents(s, b, EndpointAt(m.endpoints, b), m.queue) && AllSound(m) && AllSound(m')
    ensures Represents(s, b, EndpointAt(m'.endpoints, b), m'.queue)
  {
    assert Sound(m, dst) && Sound(m', dst);
    AskedSparesOthers(s, c, m, dst, pid, fid, now, res, k, m', b, EndpointAt(m.endpoints, b));
    assert EndpointAt(m'.endpoints, b) == EndpointAt(m.endpoints, b);
  }

  /** A call at the sender is an action of the sender's side, or none. */
  lemma AtSenderRefines(c: E.Config, a: NodeId, b: NodeId, s0: E.System, w: Hosts, s: E.System, call: Call, w': Hosts)
      returns (u: E.System)
    requires E.ConfigOk(c) && D.CanReach(c, s0, s) && Simulates(c, a, b, w, s) && Sending(c, b, w, call, w')
    requires AllSound(w.sender) && AllSound(w'.sender)
    ensures D.CanReach(c, s0, u) && Simulates(c, a, b, w', u)
  {
    if ForPeer(w.sender, call, b) {
      SoundAt(w.sender, b);
      SoundAt(w'.sender, b);
      u := AtSenderActs(c, a, b, s0, w, s, call, w');
    } else {
      u := s;
      AtSenderIdle(c, a, b, w, s, call, w');
    }
  }

  lemma SoundAt(m: Manager, b: NodeId)
    requires AllSound(m)
    ensures Sound(m, b)
  {
  }

  lemma AtSenderActs(c: E.Config, a: NodeId, b: NodeId, s0: E.System, w: Hosts, s: E.System, call: Call, w': Hosts)
      returns (u: E.System)
    requires E.ConfigOk(c) && D.CanReach(c, s0, s) && Simulates(c, a, b, w, s) && Sending(c, b, w, call, w')
    requires ForPeer(w.sender, call, b) && Sound(w.sender, b) && Sound(w'.sender, b)
    ensures D.CanReach(c, s0, u) && Simulates(c, a, b, w', u)
  {
    if call.EnqueuePacket? {
      u := EnqueueForPeer(c, a, b, s0, w, s, call, w');
    } else if call.PopMsg? {
      u := PopForPeer(c, a, b, s0, w, s, call, w');
    } else {
      AskedCall(c, b, w, call, w');
      u := AskedByPeer(c, a, b, s0, w, s, call, w');
    }
  }

  lemma AtSenderIdle(c: E.Config, a: NodeId, b: NodeId, w: Hosts, s: E.System, call: Call, w': Hosts)
    requires E.ConfigOk(c) && Simulates(c, a, b, w, s) && Sending(c, b, w, call, w') && !ForPeer(w.sender, call, b)
    requires AllSound(w.sender) && AllSound(w'.sender)
    ensures Simulates(c, a, b, w', s)
  {
    OtherCall(c, w.sender, call, w'.sender, b, s);
  }

  // ---- calls at the receiver ----

  /** Only receives of fragments from a touch what is under assembly from a. */
  lemma IncomingKept(c: E.Config, m: Manager, call: Call, m': Manager, a: NodeId)
    requires E.ConfigOk(c) && Does(c, m, call, m') && !Meddles(call, a)
    ensures EndpointAt(m'.endpoints, a).incoming == EndpointAt(m.endpoints, a).incoming
  {
    match call
    case EnqueuePacket(dst, data, now, k) =>
      if data != [] {
        EnqueuedIncoming(k, dst, data, now, c.maxAge, c.fragSize, m.endpoints, m.queue, m'.endpoints, m'.queue, a);
      }
    case EnqueueFragment(dst, pid, fid, now, res, k) =>
      if dst in m.endpoints { AskedIncoming(c, m, dst, pid, fid, now, res, k, m', a); }
    case PopMsg =>
    case AddFragment(from, pid, fragNum, id, data, now, links) =>
      FilledElsewhere(m.endpoints, from, now, c.maxAge, pid, fragNum, id, data, a);
    case PopPacket(src, pid, now) => PoppedElsewhere(m.endpoints, src, now, c.maxAge, pid, a);
  }

  lemma FilledElsewhere(eps: map<NodeId, Endpoint>, from: NodeId, now: int, maxAge: nat, pid: uint16, fragNum: uint16,
                        id: uint16, data: bytes, a: NodeId)
    requires from != a
    ensures EndpointAt(Filled(eps, from, now, maxAge, pid, fragNum, id, data).0, a) == EndpointAt(eps, a)
  {
  }

  lemma PoppedElsewhere(eps: map<NodeId, Endpoint>, src: NodeId, now: int, maxAge: nat, pid: uint16, a: NodeId)
    requires src != a
    ensures EndpointAt(PoppedAt(eps, src, now, maxAge, pid), a) == EndpointAt(eps, a)
  {
  }

  lemma EnqueuedIncoming(k: nat, dst: NodeId, data: bytes, now: int, maxAge: nat, fragSize: nat,
                         eps0: map<NodeId, Endpoint>, q0: seq<ListHead>, eps: map<NodeId, Endpoint>, q: seq<ListHead>,
                         a: NodeId)
    requires fragSize > 0 && Enqueued(k, dst, data, now, maxAge, fragSize, eps0, q0, eps, q)
    ensures EndpointAt(eps, a).incoming == EndpointAt(eps0, a).incoming
  {
    UpdatedAt(eps0, dst, eps[dst], eps, a);
    NextIncoming(EndpointAt(eps0, dst), eps[dst], data, now, maxAge, fragSize);
  }

  lemma UpdatedAt(eps0: map<NodeId, Endpoint>, dst: NodeId, e: Endpoint, eps: map<NodeId, Endpoint>, a: NodeId)
    requires eps == eps0[dst := e]
    ensures EndpointAt(eps, a) == if a == dst then e else EndpointAt(eps0, a)
  {
  }

  lemma NextIncoming(e: Endpoint, e': Endpoint, data: bytes, now: int, maxAge: nat, fragSize: nat)
    requires fragSize > 0 && EndpointNext(e, e', data, now, maxAge, fragSize)
    ensures e'.incoming == e.incoming
  {
  }

  lemma AskedIncoming(c: E.Config, m: Manager, dst: NodeId, pid: uint16, fid: uint16, now: int, res: int, k: nat,
                      m': Manager, a: NodeId)
    requires dst in m.endpoints && Asked(c, m, dst, pid, fid, now, res, k, m')
    ensures EndpointAt(m'.endpoints, a).incoming == EndpointAt(m.endpoints, a).incoming
  {
  }

  /** recv_from_peer on a fragment is a receive. */
  lemma ReceivedAtHost(c: E.Config, a: NodeId, m: Manager, t: Told, links: seq<ListHead>, mid: Manager, m': Manager)
    requires Receives(c, a, m, t, links, mid, m')
    ensures IsReception(EndpointAt(m.endpoints, a).incoming, c.maxAge, W.Decoded(t.datagram).value, t,
                        EndpointAt(m'.endpoints, a).incoming)
  {
    ReceivedMsg(c, a, m, W.Decoded(t.datagram).value, t, links, mid, m');
  }

  lemma ReceivedMsg(c: E.Config, a: NodeId, m: Manager, f: W.Msg, t: Told, links: seq<ListHead>, mid: Manager,
                    m': Manager)
    requires f.Fragment? && Files(c, a, m, f, t.now, links, mid) && Pops(c, a, m, f, t, mid, m')
    ensures IsReception(EndpointAt(m.endpoints, a).incoming, c.maxAge, f, t, EndpointAt(m'.endpoints, a).incoming)
  {
    FiledAtHost(a, m.endpoints, t.now, c.maxAge, f, mid.endpoints);
    ReceivedBucket(c, a, m, f, t, mid, m');
    ReceivedResult(c, a, m, f, t, mid, m');
  }

  /** The receive t of message f, on the bucket b, leaves b'. */
  ghost predicate IsReception(b: Bucket, maxAge: nat, f: W.Msg, t: Told, b': Bucket)
    requires f.Fragment?
  {
    var r := R.Received(b, maxAge, t.now, t.later, f, t.raw);
    b' == r.bucket && t.result == r.result
  }

  /** The bucket after filing, and what filing reported. */
  ghost predicate FilingAt(a: NodeId, eps: map<NodeId, Endpoint>, now: int, maxAge: nat, f: W.Msg,
                           eps': map<NodeId, Endpoint>)
    requires f.Fragment?
  {
    var filing := R.Filing(EndpointAt(eps, a).incoming, maxAge, now, f);
    && a in eps' && eps'[a].incoming == filing.0
    && (Filled(eps, a, now, maxAge, f.pid, f.fragNum, f.id, f.data).1 == PKT_READY <==> filing.1)
  }

  lemma ReceivedBucket(c: E.Config, a: NodeId, m: Manager, f: W.Msg, t: Told, mid: Manager, m': Manager)
    requires f.Fragment? && Pops(c, a, m, f, t, mid, m')
    requires FilingAt(a, m.endpoints, t.now, c.maxAge, f, mid.endpoints)
    ensures EndpointAt(m'.endpoints, a).incoming ==
            R.Received(EndpointAt(m.endpoints, a).incoming, c.maxAge, t.now, t.later, f, t.raw).bucket
  {
    PoppedBucket(c, a, m, f, t, mid, m');
    BucketIs(EndpointAt(m.endpoints, a).incoming, c.maxAge, t.now, t.later, f, t.raw);
  }

  lemma PoppedBucket(c: E.Config, a: NodeId, m: Manager, f: W.Msg, t: Told, mid: Manager, m': Manager)
    requires f.Fragment? && Pops(c, a, m, f, t, mid, m')
    requires FilingAt(a, m.endpoints, t.now, c.maxAge, f, mid.endpoints)
    ensures var filing := R.Filing(EndpointAt(m.endpoints, a).incoming, c.maxAge, t.now, f);
            EndpointAt(m'.endpoints, a).incoming ==
              if filing.1 then Popped(filing.0, t.later, c.maxAge, f.pid).0 else filing.0
  {
    PoppedFrom(c, a, m, f, t, mid, m', R.Filing(EndpointAt(m.endpoints, a).incoming, c.maxAge, t.now, f).0,
               R.Filing(EndpointAt(m.endpoints, a).incoming, c.maxAge, t.now, f).1);
  }

  lemma PoppedFrom(c: E.Config, a: NodeId, m: Manager, f: W.Msg, t: Told, mid: Manager, m': Manager, b: Bucket,
                   ready: bool)
    requires f.Fragment? && Pops(c, a, m, f, t, mid, m') && a in mid.endpoints && mid.endpoints[a].incoming == b
    requires Filled(m.endpoints, a, t.now, c.maxAge, f.pid, f.fragNum, f.id, f.data).1 == PKT_READY <==> ready
    ensures EndpointAt(m'.endpoints, a).incoming == if ready then Popped(b, t.later, c.maxAge, f.pid).0 else b
  {
  }

  lemma ReceivedResult(c: E.Config, a: NodeId, m: Manager, f: W.Msg, t: Told, mid: Manager, m': Manager)
    requires f.Fragment? && Pops(c, a, m, f, t, mid, m')
    requires FilingAt(a, m.endpoints, t.now, c.maxAge, f, mid.endpoints)
    ensures t.result == R.Received(EndpointAt(m.endpoints, a).incoming, c.maxAge, t.now, t.later, f, t.raw).result
  {
    ResultIs(EndpointAt(m.endpoints, a).incoming, c.maxAge, t.now, t.later, f, t.raw);
  }

  lemma FiledAtHost(a: NodeId, eps: map<NodeId, Endpoint>, now: int, maxAge: nat, f: W.Msg,
                    eps': map<NodeId, Endpoint>)
    requires f.Fragment? && eps' == Filled(eps, a, now, maxAge, f.pid, f.fragNum, f.id, f.data).0
    ensures FilingAt(a, eps, now, maxAge, f, eps')
  {
    FilledIs(eps, a, now, maxAge, f);
  }

  lemma FilledIs(eps: map<NodeId, Endpoint>, a: NodeId, now: int, maxAge: nat, f: W.Msg)
    requires f.Fragment?
    ensures var e, filled := EndpointAt(eps, a), Filled(eps, a, now, maxAge, f.pid, f.fragNum, f.id, f.data);
            var filing := R.Filing(e.incoming, maxAge, now, f);
            filled.0 == eps[a := e.(incoming := filing.0)] && (filled.1 == PKT_READY <==> filing.1)
  {
  }

  lemma BucketIs(b: Bucket, maxAge: nat, now: int, later: int, f: W.Msg, raw: bytes)
    requires f.Fragment?
    ensures var filing := R.Filing(b, maxAge, now, f);
            R.Received(b, maxAge, now, later, f, raw).bucket ==
              if filing.1 then Popped(filing.0, later, maxAge, f.pid).0 else filing.0
  {
  }

  lemma ResultIs(b: Bucket, maxAge: nat, now: int, later: int, f: W.Msg, raw: bytes)
    requires f.Fragment?
    ensures var filing := R.Filing(b, maxAge, now, f);
            R.Received(b, maxAge, now, later, f, raw).result ==
              if filing.1 then Outcome(Popped(filing.0, later, maxAge, f.pid).1, raw) else []
  {
    var filing, r := R.Filing(b, maxAge, now, f), R.Received(b, maxAge, now, later, f, raw);
    var created := R.Assembly(b, maxAge, now, f.pid, f.fragNum).created;
    if filing.1 {
      var popped := Popped(filing.0, later, maxAge, f.pid);
      OutcomeIs(popped.1, raw);
      assert r == R.Reception(popped.0, f.id, created, true, Outcome(popped.1, raw));
    } else {
      assert r == R.Reception(filing.0, f.id, created, false, []);
    }
  }

  lemma OutcomeIs(frags: Option<Frags>, raw: bytes)
    ensures Outcome(frags, raw) == if frags.Some? then Dumped(frags.value, |raw|) else raw
  {
  }

  /** A datagram that arrives is a delivery. */
  lemma ArriveRefines(c: E.Config, a: NodeId, b: NodeId, s0: E.System, w: Hosts, s: E.System, e: Event, w': Hosts)
      returns (u: E.System)
    requires E.ConfigOk(c) && D.CanReach(c, s0, s) && Simulates(c, a, b, w, s) && Happens(c, a, b, w, e, w')
    requires e.Arrive?
    ensures D.CanReach(c, s0, u) && Simulates(c, a, b, w', u)
  {
    var t, f := e.told, W.Decoded(e.told.datagram).value;
    var n := SerialOfDatagram(s, t.datagram);
    ReceivedAtHost(c, a, w.receiver, t, e.links, e.mid, w'.receiver);
    var r := R.Received(s.receiver, c.maxAge, t.now, t.later, f, t.raw);
    u := E.Delivered(s, n, t.now, t.later, t.raw, r);
    DeliveredSends(c, s, u);
    DeliveryReached(c, s0, s, n, t, u);
    DeliveredSame(s, n, t, r);
    ReceivedFid(s.receiver, c.maxAge, t.now, t.later, f, t.raw);
    RecordedMore(s.network, s.log, w.told, u.log[|s.log|], t);
  }

  lemma ReceivedFid(b: Bucket, maxAge: nat, now: int, later: int, f: W.Msg, raw: bytes)
    requires f.Fragment?
    ensures R.Received(b, maxAge, now, later, f, raw).fid == f.id
  {
  }

  lemma RecordedMore(network: set<(nat, bytes)>, log: seq<E.Receipt>, told: seq<Told>, r: E.Receipt, t: Told)
    requires AllRecorded(network, log, told) && Records(network, r, t)
    ensures AllRecorded(network, log + [r], told + [t])
  {
    forall i | 0 <= i < |log + [r]| ensures Records(network, (log + [r])[i], (told + [t])[i]) {
      if i < |log| {
        assert Records(network, log[i], told[i]);
      }
    }
  }

  lemma SerialOfDatagram(s: E.System, d: bytes) returns (n: nat)
    requires d in Datagrams(s)
    ensures (n, d) in s.network
  {
    var m :| m in s.network && m.1 == d;
    n := m.0;
    assert m == (n, d);
  }

  lemma DeliveryReached(c: E.Config, s0: E.System, s: E.System, n: nat, t: Told, u: E.System)
    requires E.ConfigOk(c) && D.CanReach(c, s0, s) && R.IsFragment(t.datagram) && t.datagram <= t.raw
    requires E.Enabled(c, s, E.Deliver(n, t.datagram, t.now, t.later, t.raw))
    requires u == E.Delivered(s, n, t.now, t.later, t.raw,
                              R.Received(s.receiver, c.maxAge, t.now, t.later, W.Decoded(t.datagram).value, t.raw))
    ensures D.CanReach(c, s0, u)
  {
    var act := E.Deliver(n, t.datagram, t.now, t.later, t.raw);
    DeliveryIs(c, s, n, t);
    assert u in E.After(c, s, act);
    D.ReachOn(c, s0, s, act, u);
  }

  lemma DeliveryIs(c: E.Config, s: E.System, n: nat, t: Told)
    requires R.IsFragment(t.datagram) && t.datagram <= t.raw
    ensures E.NextDeliver(c, s, n, t.datagram, t.now, t.later, t.raw) ==
            E.Delivered(s, n, t.now, t.later, t.raw,
                        R.Received(s.receiver, c.maxAge, t.now, t.later, W.Decoded(t.datagram).value, t.raw))
  {
    OverwrittenByItself(t.datagram, t.raw);
  }

  lemma OverwrittenByItself(d: bytes, raw: bytes)
    requires d <= raw
    ensures R.Overwritten(d, raw) == raw
  {
  }

  lemma DeliveredSends(c: E.Config, s: E.System, u: E.System)
    requires E.ConfigOk(c) && E.SenderInv(c, s) && s.clock <= u.clock && u.history == s.history && u.times == s.times
    requires u.sender == s.sender && u.queue == s.queue && u.network == s.network
    ensures E.SenderInv(c, u)
  {
    E.SenderKept(c, s, u);
    E.QueueKept(c, s, u);
    E.NetworkKept(c, s, u);
  }

  lemma DeliveredSame(s: E.System, n: nat, t: Told, r: R.Reception)
    ensures var u := E.Delivered(s, n, t.now, t.later, t.raw, r);
            && u.history == s.history && u.sender == s.sender && u.queue == s.queue && u.network == s.network
            && u.receiver == r.bucket
            && u.log == s.log + [E.Receipt(n, r.fid, t.now, t.later, t.raw, r.created, r.ready, r.result)]
  {
  }

  // ---- asking for what is missing ----

  /** Asks the peer src for fragment g of packet pid. */
  ghost predicate IsRequestFor(l: ListHead, src: NodeId, pid: uint16, g: nat) {
    l.owner.Request? && l.owner.to == src && l.owner.pid == pid && l.owner.fid == g
  }

  /** When a fragment from src was filed: every gap of its packet has a request for it, in front of the
      queue. */
  lemma GapIsAsked(c: E.Config, src: NodeId, m: Manager, f: W.Msg, now: int, links: seq<ListHead>, mid: Manager,
                   g: nat)
      returns (l: ListHead)
    requires f.Fragment? && Files(c, src, m, f, now, links, mid)
    requires Filled(m.endpoints, src, now, c.maxAge, f.pid, f.fragNum, f.id, f.data).1 != PKT_ERROR
    requires HasGap(EndpointAt(mid.endpoints, src).incoming, f.pid, g)
    ensures l in links && links <= mid.queue && IsRequestFor(l, src, f.pid, g)
  {
    GapsAreAsked(m.endpoints, src, now, c.maxAge, f.pid, f.fragNum, f.id, f.data, links);
    l := LinkOfGap(EndpointAt(mid.endpoints, src).incoming, src, f.pid, links, g);
  }

  /** Popped and sent, it arrives as a request for this packet and fragment: see NetHelper.RecvFromPeer for
      what the peer does. */
  lemma RequestArrives(l: ListHead, src: NodeId, pid: uint16, g: uint16)
    requires IsRequestFor(l, src, pid, g)
    ensures var d := W.Encoded(W.Request(l.owner.pid, l.owner.fid));
            d != [] && W.Decoded(d) == Some(W.Request(pid, g))
  {
    W.DecodeExact(W.Encoded(W.Request(pid, g)), W.Request(pid, g));
  }

  /** The packet with this id has this gap. */
  ghost predicate HasGap(b: Bucket, pid: uint16, g: nat) {
    PidsDistinct(b) && exists i :: 0 <= i < |b| && b[i].pid == pid && IsGap(b[i].frags, g)
  }

  lemma LinkOfGap(b: Bucket, src: NodeId, pid: uint16, links: seq<ListHead>, g: nat) returns (l: ListHead)
    requires HasGap(b, pid, g)
    requires exists j :: 0 <= j < |b| && b[j].pid == pid && AskForGaps(links, src, pid, b[j].frags)
    ensures l in links && IsRequestFor(l, src, pid, g)
  {
    var i :| 0 <= i < |b| && b[i].pid == pid && IsGap(b[i].frags, g);
    var j :| 0 <= j < |b| && b[j].pid == pid && AskForGaps(links, src, pid, b[j].frags);
    assert i == j;
    var k :| 0 <= k < |links| && links[k].owner.fid == g;
    l := links[k];
  }

  /** When the sender handles such a request of dst, the fragment asked for waits in its queue, if its
      packet is alive and has it. */
  lemma AskedIsQueued(c: E.Config, m: Manager, dst: NodeId, pid: uint16, fid: uint16, now: int, res: int, k: nat,
                      m': Manager, i: nat)
    requires E.ConfigOk(c) && dst in m.endpoints && Does(c, m, EnqueueFragment(dst, pid, fid, now, res, k), m')
    requires Sound(m', dst) && dst in m'.endpoints && i < |m'.endpoints[dst].outgoing|
    requires m'.endpoints[dst].outgoing[i].pid == pid && fid < |m'.endpoints[dst].outgoing[i].links|
    ensures var l := m'.endpoints[dst].outgoing[i].links[fid];
            && l in m'.queue && l.owner.Fragment? && l.owner.to == dst && l.owner.pid == pid && l.owner.fid == fid
  {
    AskedFound(m'.endpoints[dst].outgoing, dst, pid, fid, i);
    InQueueThen(res, LinkOf(m'.endpoints[dst].outgoing, pid, fid),
                MinusAll(m.queue, OutLinks(m.endpoints[dst].outgoing[..k])), m'.queue);
  }

  lemma AskedFound(ps: seq<OutPacket>, dst: NodeId, pid: uint16, fid: uint16, i: nat)
    requires Owned(dst, ps) && i < |ps| && ps[i].pid == pid && fid < |ps[i].links|
    ensures LinkOf(ps, pid, fid) == Some(ps[i].links[fid])
    ensures var l := ps[i].links[fid];
            l.owner.Fragment? && l.owner.to == dst && l.owner.pid == pid && l.owner.fid == fid
  {
    LinkOfIndex(ps, pid, fid);
    IndexUnique(Values(ps), pid, i);
    assert OwnsLinks(dst, ps[i]);
  }

  lemma InQueueThen(res: int, f: Option<ListHead>, q0: seq<ListHead>, q: seq<ListHead>)
    requires Requeued(res, f, q0, q) && f.Some?
    ensures f.value in q
  {
    assert f.value !in q0 ==> q[|q0|] == f.value;
  }

  // ---- runs ----

  ghost predicate IsHostRun(c: E.Config, a: NodeId, b: NodeId, ws: seq<Hosts>, events: seq<Event>)
    requires E.ConfigOk(c)
  {
    && |ws| == |events| + 1
    && forall k {:trigger events[k]} | 0 <= k < |events| ::
         Happens(c, a, b, ws[k], events[k], ws[k + 1]) && AllSound(ws[k].sender) && AllSound(ws[k + 1].sender)
  }

  /** Two new network managers. */
  ghost predicate Fresh(w: Hosts) {
    && w.sender == Manager(map[], []) && w.receiver == Manager(map[], [])
    && w.sent == {} && w.given == [] && w.told == []
  }

  /** Whatever happens at the two hosts is a step of EndToEnd, or none. */
  lemma HappensRefines(c: E.Config, a: NodeId, b: NodeId, s0: E.System, w: Hosts, s: E.System, e: Event, w': Hosts)
      returns (u: E.System)
    requires E.ConfigOk(c) && D.CanReach(c, s0, s) && Simulates(c, a, b, w, s) && Happens(c, a, b, w, e, w')
    requires AllSound(w.sender) && AllSound(w'.sender)
    ensures D.CanReach(c, s0, u) && Simulates(c, a, b, w', u)
  {
    match e
    case AtSender(call) => u := AtSenderRefines(c, a, b, s0, w, s, call, w');
    case AtReceiver(call) =>
      IncomingKept(c, w.receiver, call, w'.receiver, a);
      u := s;
    case Arrive(_, _, _) => u := ArriveRefines(c, a, b, s0, w, s, e, w');
  }

  /** Every run of the two hosts is, for the packets from a to b, a run of EndToEnd from the start. */
  lemma {:induction false} HostsRefine(c: E.Config, a: NodeId, b: NodeId, ws: seq<Hosts>, events: seq<Event>, k: nat)
      returns (s0: E.System, s: E.System)
    requires E.ConfigOk(c) && IsHostRun(c, a, b, ws, events) && Fresh(ws[0]) && k < |ws|
    ensures E.Init(s0) && D.CanReach(c, s0, s) && Simulates(c, a, b, ws[k], s)
  {
    if k == 0 {
      s0 := E.System([], [], [], [], {}, [], map[], [], ws[0].clock);
      s := s0;
      E.InitInv(c, s0);
      D.ReachesItself(c, s0);
    } else {
      var t;
      s0, t := HostsRefine(c, a, b, ws, events, k - 1);
      s := HostStep(c, a, b, ws, events, k - 1, s0, t);
    }
  }

  lemma HostStep(c: E.Config, a: NodeId, b: NodeId, ws: seq<Hosts>, events: seq<Event>, k: nat, s0: E.System,
                 s: E.System)
      returns (u: E.System)
    requires E.ConfigOk(c) && IsHostRun(c, a, b, ws, events) && k < |events|
    requires D.CanReach(c, s0, s) && Simulates(c, a, b, ws[k], s)
    ensures D.CanReach(c, s0, u) && Simulates(c, a, b, ws[k + 1], u)
  {
    var e := events[k];
    u := HappensRefines(c, a, b, s0, ws[k], s, e, ws[k + 1]);
  }

  // ---- what the callers are told ----

  /** The receives as the callers saw them. The packet a fragment is from is given by its id, as long as
      no id is used twice. */
  ghost function Seen(given: seq<bytes>, told: seq<Told>): E.System
    requires forall i | 0 <= i < |told| :: R.IsFragment(told[i].datagram)
  {
    E.System(given, [], [], [], {}, [], map[], seq(|told|, i requires 0 <= i < |told| => SeenOf(told[i])), 0)
  }

  ghost function SeenOf(t: Told): E.Receipt
    requires R.IsFragment(t.datagram)
  {
    var f := W.Decoded(t.datagram).value;
    E.Receipt(f.pid, f.id, t.now, t.later, t.raw, 0, false, t.result)
  }

  /** What arrived was sent, and was in the caller's buffer. */
  ghost predicate WasSent(w: Hosts, t: Told) {
    t.datagram in w.sent && t.datagram <= t.raw
  }

  /** While the sender was given at most 2^16 packets for b: every receive at the other host got a
      datagram that was sent, and told its caller what TraceIntegrity says of the packets given and the
      receives so far. */
  lemma HostsIntegrity(c: E.Config, a: NodeId, b: NodeId, ws: seq<Hosts>, events: seq<Event>, k: nat)
    requires E.ConfigOk(c) && IsHostRun(c, a, b, ws, events) && Fresh(ws[0]) && k < |ws| && |ws[k].given| <= 0x1_0000
    ensures forall i | 0 <= i < |ws[k].told| :: WasSent(ws[k], ws[k].told[i])
    ensures forall i | 0 <= i < |ws[k].told| :: R.IsFragment(ws[k].told[i].datagram)
    ensures forall i | 0 <= i < |ws[k].told| :: T.ReportsTraced(c, Seen(ws[k].given, ws[k].told), i)
  {
    var s0, s := HostsRefine(c, a, b, ws, events, k);
    var told := ws[k].told;
    forall i | 0 <= i < |told| ensures WasSent(ws[k], told[i]) && R.IsFragment(told[i].datagram) {
      assert Records(s.network, s.log[i], told[i]);
    }
    forall i | 0 <= i < |told| ensures T.ReportsTraced(c, Seen(ws[k].given, told), i) {
      ReachedTraced(c, s0, s, i);
      SeenLog(c, s, told);
      TracedAlike(c, s, Seen(ws[k].given, told), i);
    }
  }

  lemma ReachedTraced(c: E.Config, s0: E.System, s: E.System, i: nat)
    requires E.ConfigOk(c) && E.Init(s0) && D.CanReach(c, s0, s) && |s.history| <= 0x1_0000 && i < |s.log|
    ensures T.ReportsTraced(c, s, i)
  {
    var states, acts :| D.IsFreePath(c, states, acts, s0, s);
    U.FewPacketIntegrity(c, states, acts, |acts|, i);
  }

  /** The receipts are the same but for what only the receiver knows. */
  ghost predicate Alike(r: E.Receipt, x: E.Receipt) {
    && r.serial == x.serial && r.fid == x.fid && r.now == x.now && r.later == x.later
    && r.raw == x.raw && r.result == x.result
  }

  ghost predicate LogsAlike(log: seq<E.Receipt>, xs: seq<E.Receipt>) {
    |log| == |xs| && forall i | 0 <= i < |log| :: Alike(log[i], xs[i])
  }

  lemma SeenLog(c: E.Config, s: E.System, told: seq<Told>)
    requires E.ConfigOk(c) && E.NetworkOk(c, s) && |s.history| <= 0x1_0000 && AllRecorded(s.network, s.log, told)
    requires forall i | 0 <= i < |told| :: R.IsFragment(told[i].datagram)
    ensures LogsAlike(s.log, Seen(s.history, told).log)
  {
    forall i | 0 <= i < |told| ensures Alike(s.log[i], SeenOf(told[i])) {
      SeenOne(c, s, s.log[i], told[i]);
    }
  }

  lemma SeenOne(c: E.Config, s: E.System, r: E.Receipt, t: Told)
    requires E.ConfigOk(c) && E.NetworkOk(c, s) && |s.history| <= 0x1_0000 && Records(s.network, r, t)
    ensures Alike(r, SeenOf(t))
  {
    SerialIsId(c, s, r.serial, t.datagram);
  }

  lemma SerialIsId(c: E.Config, s: E.System, n: nat, d: bytes)
    requires E.ConfigOk(c) && E.NetworkOk(c, s) && |s.history| <= 0x1_0000 && (n, d) in s.network && R.IsFragment(d)
    ensures W.Decoded(d).value.pid == n
  {
    var fid := E.DatagramIs(c, s, n, d);
    assert W.Decoded(d).value.pid == E.Pid(n) == n;
  }

  lemma TracedAlike(c: E.Config, s: E.System, v: E.System, i: nat)
    requires E.ConfigOk(c) && s.history == v.history && LogsAlike(s.log, v.log) && i < |s.log|
    requires T.ReportsTraced(c, s, i)
    ensures T.ReportsTraced(c, v, i)
  {
    var x := s.log[i];
    var k := T.PieceCount(c, s, x.serial);
    assert Alike(x, v.log[i]);
    StartAlike(c.maxAge, k, s.log, v.log, i);
    GatheredAlike(s.log[..i + 1], v.log[..i + 1], T.Start(c.maxAge, k, s.log, i), x.serial, k);
  }

  lemma StartAlike(maxAge: nat, k: nat, log: seq<E.Receipt>, xs: seq<E.Receipt>, i: nat)
    requires LogsAlike(log, xs) && i < |log|
    ensures T.Start(maxAge, k, log, i) == T.Start(maxAge, k, xs, i)
  {
    assert Alike(log[i], xs[i]);
    PrefixAlike(log, xs, i);
    OpeningAlike(maxAge, k, log[..i], xs[..i], log[i].serial);
  }

  lemma PrefixAlike(log: seq<E.Receipt>, xs: seq<E.Receipt>, i: nat)
    requires LogsAlike(log, xs) && i <= |log|
    ensures LogsAlike(log[..i], xs[..i])
  {
  }

  lemma {:induction false} OpeningAlike(maxAge: nat, k: nat, log: seq<E.Receipt>, xs: seq<E.Receipt>, n: nat)
    requires LogsAlike(log, xs)
    ensures T.Opening(maxAge, k, log, n) == T.Opening(maxAge, k, xs, n)
  {
    if log != [] {
      var m := |log| - 1;
      PrefixAlike(log, xs, m);
      OpeningAlike(maxAge, k, log[..m], xs[..m], n);
      assert Alike(log[m], xs[m]);
      var o := T.StartOf(maxAge, log[..m], T.Opening(maxAge, k, log[..m], n), log[m].now);
      GatheredAlike(log, xs, o, n, k);
    }
  }

  lemma GatheredAlike(log: seq<E.Receipt>, xs: seq<E.Receipt>, o: nat, n: nat, k: nat)
    requires LogsAlike(log, xs)
    ensures T.Gathered(log, o, n, k) <==> T.Gathered(xs, o, n, k)
  {
    forall f: nat | f < k ensures T.Got(log, o, n, f) <==> T.Got(xs, o, n, f) {
      GotAlike(log, xs, o, n, f);
    }
  }

  lemma GotAlike(log: seq<E.Receipt>, xs: seq<E.Receipt>, o: nat, n: nat, f: nat)
    requires LogsAlike(log, xs)
    ensures T.Got(log, o, n, f) <==> T.Got(xs, o, n, f)
  {
    if T.Got(log, o, n, f) {
      var i :| o <= i < |log| && log[i].serial == n && log[i].fid == f;
      assert Alike(log[i], xs[i]);
    }
    if T.Got(xs, o, n, f) {
      var i :| o <= i < |xs| && xs[i].serial == n && xs[i].fid == f;
      assert Alike(log[i], xs[i]);
    }
  }
}
