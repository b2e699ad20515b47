/** The network manager on the heap takes the steps of the sender of EndToEnd, for each peer at once:
    its outgoing bucket for that peer is the sender's bucket, and the fragments for that peer in its
    queue, by packet number and index, are the sender's queue. */
module Refinement {
  import opened Buckets
  import opened Bytes
  import opened Fragmentation
  import opened IntrusiveLists
  import opened OutQueues
  import opened Wrappers
  import opened NetworkManagers
  import E = EndToEnd
  import R = Receive
  import W = Wire

  /** The number of the live packet with this id, when h packets were enqueued so far. */
  ghost function SerialOf(b: Bucket, h: nat, pid: uint16): nat
    requires |b| <= h
  {
    h - |b| + match Index(b, pid) case Some(i) => i case None => 0
  }

  ghost predicate IsFor(l: ListHead, dst: NodeId) {
    l.owner.Fragment? && l.owner.to == dst
  }

  /** The fragments for dst in the queue. */
  ghost function QueueOf(q: seq<ListHead>, dst: NodeId, b: Bucket, h: nat): seq<(nat, nat)>
    requires |b| <= h
  {
    if q == [] then []
    else (if IsFor(q[0], dst) then [(SerialOf(b, h, q[0].owner.pid), q[0].owner.fid)] else [])
         + QueueOf(q[1..], dst, b, h)
  }

  /** The queued fragments for dst belong to its packets ps. */
  ghost predicate QueuedFrom(q: seq<ListHead>, dst: NodeId, ps: seq<OutPacket>) {
    forall j | 0 <= j < |q| && IsFor(q[j], dst) :: q[j] in OutLinks(ps)
  }

  /** s is the sender's side for the peer dst with endpoint e, when the queue is q. */
  ghost predicate Represents(s: E.System, dst: NodeId, e: Endpoint, q: seq<ListHead>) {
    && s.sender == Values(e.outgoing) && |s.sender| <= |s.history| && e.outId == E.Pid(|s.history|)
    && s.queue == QueueOf(q, dst, s.sender, |s.history|)
  }

  // ---- where a link is ----

  /** A link of live packets belongs to the one that its id finds, at its index. */
  lemma {:induction false} LinkIndex(dst: NodeId, ps: seq<OutPacket>, l: ListHead)
    requires (forall i | 0 <= i < |ps| :: OwnsLinks(dst, ps[i])) && PidsDistinct(Values(ps)) && l in OutLinks(ps)
    ensures IsFor(l, dst) && Index(Values(ps), l.owner.pid).Some?
    ensures var i := Index(Values(ps), l.owner.pid).value;
            && l.owner.fid < |ps[i].links| && ps[i].links[l.owner.fid] == l
            && forall k | 0 <= k <= |ps| :: l in OutLinks(ps[..k]) <==> i < k
  {
    OutLinksOwned(dst, ps, l);
    var i := PacketOf(ps, l);
    IndexUnique(Values(ps), l.owner.pid, i);
    var f :| 0 <= f < |ps[i].links| && ps[i].links[f] == l;
    forall k | 0 <= k <= |ps| ensures l in OutLinks(ps[..k]) <==> i < k {
      if i < k {
        OutLinksOf(ps[..k], i);
      }
      if l in OutLinks(ps[..k]) {
        var j := PacketOf(ps[..k], l);
        var g :| 0 <= g < |ps[j].links| && ps[j].links[g] == l;
        assert Values(ps)[j].pid == Values(ps)[i].pid;
      }
    }
  }

  lemma {:induction false} PacketOf(ps: seq<OutPacket>, l: ListHead) returns (i: nat)
    requires l in OutLinks(ps)
    ensures i < |ps| && l in ps[i].links
  {
    if l in ps[0].links {
      i := 0;
    } else {
      i := PacketOf(ps[1..], l);
      i := i + 1;
    }
  }

  // ---- the queue under the operations ----

  lemma {:induction false} QueueConcat(q: seq<ListHead>, r: seq<ListHead>, dst: NodeId, b: Bucket, h: nat)
    requires |b| <= h
    ensures QueueOf(q + r, dst, b, h) == QueueOf(q, dst, b, h) + QueueOf(r, dst, b, h)
  {
    if q == [] {
      assert q + r == r;
    } else {
      assert (q + r)[1..] == q[1..] + r;
      QueueConcat(q[1..], r, dst, b, h);
    }
  }

  /** A queue of fragments for dst, one by one. */
  lemma {:induction false} QueueAll(q: seq<ListHead>, dst: NodeId, b: Bucket, h: nat)
    requires |b| <= h && forall k | 0 <= k < |q| :: IsFor(q[k], dst)
    ensures |QueueOf(q, dst, b, h)| == |q|
    ensures forall k | 0 <= k < |q| ::
              IsFor(q[k], dst) && QueueOf(q, dst, b, h)[k] == (SerialOf(b, h, q[k].owner.pid), q[k].owner.fid)
  {
    if q != [] {
      QueueAll(q[1..], dst, b, h);
    }
  }

  /** A queue without fragments for dst. */
  lemma {:induction false} QueueNone(q: seq<ListHead>, dst: NodeId, b: Bucket, h: nat)
    requires |b| <= h && forall k | 0 <= k < |q| :: !IsFor(q[k], dst)
    ensures QueueOf(q, dst, b, h) == []
  {
    if q != [] {
      QueueNone(q[1..], dst, b, h);
    }
  }

  /** l goes exactly if its packet is older than base, and keeps its number otherwise. */
  ghost predicate KeptAs(l: ListHead, gone: set<ListHead>, b: Bucket, h: nat, b': Bucket, h': nat, base: int)
    requires |b| <= h && |b'| <= h' && l.owner.Fragment?
  {
    && (l in gone <==> SerialOf(b, h, l.owner.pid) < base)
    && (l !in gone ==> SerialOf(b', h', l.owner.pid) == SerialOf(b, h, l.owner.pid))
  }

  lemma {:induction false} KeptQueue(q: seq<ListHead>, gone: set<ListHead>, dst: NodeId,
                                     b: Bucket, h: nat, b': Bucket, h': nat, base: int)
    requires |b| <= h && |b'| <= h'
    requires forall k | 0 <= k < |q| && IsFor(q[k], dst) :: KeptAs(q[k], gone, b, h, b', h', base)
    ensures QueueOf(MinusAll(q, gone), dst, b', h') == E.Unexpired(QueueOf(q, dst, b, h), base)
  {
    if q != [] {
      KeptQueue(q[1..], gone, dst, b, h, b', h', base);
      KeptFirst(q, gone, dst, b, h, b', h', base);
    }
  }

  lemma {:induction false} KeptFirst(q: seq<ListHead>, gone: set<ListHead>, dst: NodeId,
                  b: Bucket, h: nat, b': Bucket, h': nat, base: int)
    requires |b| <= h && |b'| <= h' && q != []
    requires IsFor(q[0], dst) ==> KeptAs(q[0], gone, b, h, b', h', base)
    requires QueueOf(MinusAll(q[1..], gone), dst, b', h') == E.Unexpired(QueueOf(q[1..], dst, b, h), base)
    ensures QueueOf(MinusAll(q, gone), dst, b', h') == E.Unexpired(QueueOf(q, dst, b, h), base)
  {
    var first := if q[0] in gone then [] else [q[0]];
    var head := if IsFor(q[0], dst) then [(SerialOf(b, h, q[0].owner.pid), q[0].owner.fid)] else [];
    QueueConcat(first, MinusAll(q[1..], gone), dst, b', h');
    QueueOne(first, dst, b', h');
    UnexpiredConcat(head, QueueOf(q[1..], dst, b, h), base);
  }

  lemma {:induction false} QueueOne(q: seq<ListHead>, dst: NodeId, b: Bucket, h: nat)
    requires |b| <= h && |q| <= 1
    ensures QueueOf(q, dst, b, h) ==
            if q != [] && IsFor(q[0], dst) then [(SerialOf(b, h, q[0].owner.pid), q[0].owner.fid)] else []
  {
    if q != [] {
      assert q[1..] == [];
    }
  }

  lemma {:induction false} UnexpiredConcat(head: seq<(nat, nat)>, tail: seq<(nat, nat)>, base: int)
    requires |head| <= 1
    ensures E.Unexpired(head + tail, base) ==
            (if head != [] && head[0].0 >= base then head else []) + E.Unexpired(tail, base)
  {
    if head == [] {
      assert head + tail == tail;
    } else {
      assert (head + tail)[1..] == tail;
    }
  }

  // ---- what an endpoint guarantees ----

  /** The packets of one peer: their links are their own, and their ids distinct. */
  ghost predicate Owned(dst: NodeId, ps: seq<OutPacket>) {
    (forall i | 0 <= i < |ps| :: OwnsLinks(dst, ps[i])) && PidsDistinct(Values(ps))
  }

  /** Between operations the network manager guarantees that, for every peer, and that whatever is
      queued for a peer belongs to its packets. */
  lemma {:induction false} ManagerOwns(nm: NetworkManager, dst: NodeId)
    requires nm.Valid()
    ensures Owned(dst, EndpointAt(nm.endpoints, dst).outgoing)
    ensures QueuedFrom(nm.out.queue, dst, EndpointAt(nm.endpoints, dst).outgoing)
  {
    var q := nm.out.queue;
    forall j | 0 <= j < |q| && IsFor(q[j], dst) ensures q[j] in OutLinks(EndpointAt(nm.endpoints, dst).outgoing) {
      assert q[j] in q;
      var d :| d in nm.endpoints && q[j] in OutLinks(nm.endpoints[d].outgoing);
      OutLinksOwned(d, nm.endpoints[d].outgoing, q[j]);
    }
  }

  /** Dropping the k oldest packets of a peer, and maybe adding one, does to each link what it should. */
  lemma {:induction false} LinksKept(dst: NodeId, ps: seq<OutPacket>, k: nat, b': Bucket, h: nat, h': nat,
                                     q: seq<ListHead>)
    requires Owned(dst, ps) && k <= |ps| <= h && PidsDistinct(b') && |b'| <= h' && h' - |b'| == h - |ps| + k
    requires |b'| >= |ps| - k && forall i | k <= i < |ps| :: b'[i - k].pid == ps[i].pid
    requires QueuedFrom(q, dst, ps)
    ensures forall j | 0 <= j < |q| && IsFor(q[j], dst) ::
              KeptAs(q[j], OutLinks(ps[..k]), Values(ps), h, b', h', h - |ps| + k)
  {
    forall j | 0 <= j < |q| && IsFor(q[j], dst)
      ensures KeptAs(q[j], OutLinks(ps[..k]), Values(ps), h, b', h', h - |ps| + k)
    {
      LinkIndex(dst, ps, q[j]);
      var i := Index(Values(ps), q[j].owner.pid).value;
      if k <= i {
        IndexUnique(b', q[j].owner.pid, i - k);
      }
    }
  }

  // ---- enqueueing a packet ----

  /** The fragments of the new packet are the sender's new ones. */
  lemma {:induction false} NewQueue(links: seq<ListHead>, dst: NodeId, p: OutPacket, b: Bucket, h: nat)
    requires links == p.links && OwnsLinks(dst, p)
    requires b != [] && PidsDistinct(b) && |b| <= h + 1 && b[|b| - 1].pid == p.pid
    ensures QueueOf(links, dst, b, h + 1) == E.NewFragments(h, |links|)
  {
    QueueAll(links, dst, b, h + 1);
    IndexUnique(b, p.pid, |b| - 1);
  }

  /** What the sender's Enqueue step does. */
  ghost predicate EnqueueStep(c: E.Config, s: E.System, data: bytes, now: int, u: E.System)
    requires E.ConfigOk(c)
  {
    var n := |s.history|;
    && |u.history| == n + 1
    && u.sender == AddedPacket(s.sender, now, c.maxAge, E.Pid(n), data, c.fragSize)
    && u.queue == E.NewFragments(n, FragNum(|data|, c.fragSize))
                  + E.Unexpired(s.queue, n - |Refreshed(s.sender, now, c.maxAge)|)
  }

  lemma {:induction false} NextEnqueueIs(c: E.Config, s: E.System, data: bytes, now: int)
    requires E.ConfigOk(c)
    ensures EnqueueStep(c, s, data, now, E.NextEnqueue(c, s, data, now))
  {
  }

  /** network_manager_enqueue_outgoing_packet takes the sender's Enqueue step. */
  lemma {:induction false} EnqueueRefines(c: E.Config, s: E.System, k: nat, dst: NodeId, data: bytes, now: int,
                                          e: Endpoint, q0: seq<ListHead>, e': Endpoint, q: seq<ListHead>, u: E.System)
    requires E.ConfigOk(c) && Represents(s, dst, e, q0) && QueuedFrom(q0, dst, e.outgoing)
    requires Owned(dst, e.outgoing) && Owned(dst, e'.outgoing)
    requires EndpointNext(e, e', data, now, c.maxAge, c.fragSize) && QueueNext(k, e, e', q0, q)
    requires EnqueueStep(c, s, data, now, u)
    ensures Represents(u, dst, e', q)
  {
    EnqueueSender(e, e', s.sender, data, now, c.maxAge, c.fragSize, k);
    StepMatches(c, s, k, data, now, e, e', u);
    EnqueueMatches(s, k, dst, e, q0, e', q, u);
  }

  /** The step in terms of the endpoint. */
  ghost predicate Matches(s: E.System, k: nat, e: Endpoint, e': Endpoint, u: E.System) {
    && k <= |e.outgoing| <= |s.history| && |e'.outgoing| == |e.outgoing| - k + 1
    && |u.history| == |s.history| + 1 && u.sender == Values(e'.outgoing) && e'.outId == E.Pid(|u.history|)
    && u.queue == E.NewFragments(|s.history|, |e'.outgoing[|e'.outgoing| - 1].links|)
                  + E.Unexpired(s.queue, |s.history| - |e.outgoing| + k)
  }

  lemma {:induction false} StepMatches(c: E.Config, s: E.System, k: nat, data: bytes, now: int, e: Endpoint,
                                       e': Endpoint, u: E.System)
    requires E.ConfigOk(c) && s.sender == Values(e.outgoing) && |s.sender| <= |s.history|
    requires e.outId == E.Pid(|s.history|) && k <= |e.outgoing| && |e'.outgoing| == |e.outgoing| - k + 1
    requires EndpointNext(e, e', data, now, c.maxAge, c.fragSize) && EnqueueStep(c, s, data, now, u)
    requires |Refreshed(s.sender, now, c.maxAge)| == |e.outgoing| - k
    requires |e'.outgoing[|e'.outgoing| - 1].links| == FragNum(|data|, c.fragSize)
    ensures Matches(s, k, e, e', u)
  {
    SerialNext(|s.history|);
  }

  lemma {:induction false} EnqueueMatches(s: E.System, k: nat, dst: NodeId, e: Endpoint, q0: seq<ListHead>,
                                          e': Endpoint, q: seq<ListHead>, u: E.System)
    requires Represents(s, dst, e, q0) && QueuedFrom(q0, dst, e.outgoing) && Matches(s, k, e, e', u)
    requires Owned(dst, e.outgoing) && Owned(dst, e'.outgoing) && QueueNext(k, e, e', q0, q)
    requires forall i | k <= i < |s.sender| :: u.sender[i - k].pid == s.sender[i].pid
    ensures Represents(u, dst, e', q)
  {
    EnqueueQueue(dst, e.outgoing, e'.outgoing, k, |s.history|, q0, q);
  }

  lemma {:induction false} SerialNext(n: nat)
    ensures NextId(E.Pid(n)) == E.Pid(n + 1)
  {
  }

  /** The buckets of the endpoint, before and after. */
  lemma {:induction false} EnqueueSender(e: Endpoint, e': Endpoint, b: Bucket, data: bytes, now: int, maxAge: nat,
                                         fragSize: nat, k: nat)
    requires fragSize > 0 && b == Values(e.outgoing) && EndpointNext(e, e', data, now, maxAge, fragSize)
    requires k <= |e.outgoing| && |e'.outgoing| == |e.outgoing| - k + 1
    ensures |Refreshed(b, now, maxAge)| == |b| - k
    ensures |Values(e'.outgoing)| == |b| - k + 1
    ensures |e'.outgoing[|e'.outgoing| - 1].links| == FragNum(|data|, fragSize)
    ensures forall i | k <= i < |b| :: Values(e'.outgoing)[i - k].pid == b[i].pid
  {
    var r, b' := Refreshed(b, now, maxAge), Values(e'.outgoing);
    assert |b'| == |r| + 1;
    assert b'[|r|] == ValueOf(e'.outgoing[|r|]) == NewPacket(e.outId, now, data, fragSize);
    assert |ValueOf(e'.outgoing[|r|]).frags| == |e'.outgoing[|r|].links|;
    forall i | k <= i < |b| ensures b'[i - k].pid == b[i].pid {
      assert b'[i - k] == r[i - k];
    }
  }

  lemma {:induction false} EnqueueQueue(dst: NodeId, ps: seq<OutPacket>, ps': seq<OutPacket>, k: nat, h: nat,
                                        q0: seq<ListHead>, q: seq<ListHead>)
    requires Owned(dst, ps) && Owned(dst, ps') && k <= |ps| <= h && |ps'| == |ps| - k + 1
    requires forall i | k <= i < |ps| :: Values(ps')[i - k].pid == Values(ps)[i].pid
    requires QueuedFrom(q0, dst, ps)
    requires q == ps'[|ps'| - 1].links + MinusAll(q0, OutLinks(ps[..k]))
    ensures QueueOf(q, dst, Values(ps'), h + 1) ==
            E.NewFragments(h, |ps'[|ps'| - 1].links|)
            + E.Unexpired(QueueOf(q0, dst, Values(ps), h), h - |ps| + k)
  {
    var p, b, b' := ps'[|ps'| - 1], Values(ps), Values(ps');
    QueueConcat(p.links, MinusAll(q0, OutLinks(ps[..k])), dst, b', h + 1);
    NewQueue(p.links, dst, p, b', h);
    forall i | k <= i < |ps| ensures b'[i - k].pid == ps[i].pid {
      assert b[i].pid == ps[i].pid;
    }
    LinksKept(dst, ps, k, b', h, h + 1, q0);
    KeptQueue(q0, OutLinks(ps[..k]), dst, b, h, b', h + 1, h - |ps| + k);
  }

  /** ... and is none of any other peer's business. */
  lemma {:induction false} EnqueueSparesOthers(s: E.System, k: nat, dst: NodeId, e: Endpoint, q0: seq<ListHead>,
                                               e': Endpoint, q: seq<ListHead>, other: NodeId, o: Endpoint)
    requires other != dst && Represents(s, other, o, q0)
    requires Owned(dst, e.outgoing) && Owned(dst, e'.outgoing) && QueueNext(k, e, e', q0, q)
    ensures Represents(s, other, o, q)
  {
    var p, rest := e'.outgoing[|e'.outgoing| - 1], MinusAll(q0, OutLinks(e.outgoing[..k]));
    assert OwnsLinks(dst, p);
    QueueNone(p.links, other, s.sender, |s.history|);
    QueueConcat(p.links, rest, other, s.sender, |s.history|);
    OthersKept(dst, e.outgoing, k, q0, other, s.sender, |s.history|);
  }

  lemma {:induction false} OthersKept(dst: NodeId, ps: seq<OutPacket>, k: nat, q: seq<ListHead>, other: NodeId,
                                      b: Bucket, h: nat)
    requires Owned(dst, ps) && k <= |ps| && other != dst && |b| <= h
    ensures QueueOf(MinusAll(q, OutLinks(ps[..k])), other, b, h) == QueueOf(q, other, b, h)
  {
    forall l | l in OutLinks(ps[..k]) ensures !IsFor(l, other) {
      assert forall i | 0 <= i < k :: OwnsLinks(dst, ps[..k][i]);
      OutLinksOwned(dst, ps[..k], l);
    }
    SparedQueue(q, OutLinks(ps[..k]), other, b, h);
  }

  lemma {:induction false} SparedQueue(q: seq<ListHead>, gone: set<ListHead>, other: NodeId, b: Bucket, h: nat)
    requires |b| <= h && forall l | l in gone :: !IsFor(l, other)
    ensures QueueOf(MinusAll(q, gone), other, b, h) == QueueOf(q, other, b, h)
  {
    if q != [] {
      SparedQueue(q[1..], gone, other, b, h);
      var first := if q[0] in gone then [] else [q[0]];
      QueueConcat(first, MinusAll(q[1..], gone), other, b, h);
      QueueOne(first, other, b, h);
    }
  }

  // ---- sending ----

  /** network_manager_pop_outgoing_net_msg, and sending what it popped, takes the sender's Transmit
      step when that was a fragment for the peer, and none otherwise. */
  lemma {:induction false} TransmitRefines(c: E.Config, s: E.System, dst: NodeId, e: Endpoint, q: seq<ListHead>)
    requires E.ConfigOk(c) && E.SenderInv(c, s) && q != [] && Represents(s, dst, e, q)
    requires Owned(dst, e.outgoing) && QueuedFrom(q, dst, e.outgoing)
    ensures !IsFor(q[0], dst) ==> Represents(s, dst, e, q[1..])
    ensures IsFor(q[0], dst) ==> s.queue != [] && Represents(E.NextTransmit(s), dst, e, q[1..])
    ensures IsFor(q[0], dst) ==> Sends(s, q[0], CountOf(e.outgoing, q[0].owner.pid), E.NextTransmit(s))
  {
    if IsFor(q[0], dst) {
      LinkIndex(dst, e.outgoing, q[0]);
      TransmitQueue(c, s);
      FirstSent(c, s, s.queue[0].0, e.outgoing, Index(s.sender, q[0].owner.pid).value, q[0]);
    }
  }

  lemma {:induction false} TransmitQueue(c: E.Config, s: E.System)
    requires E.ConfigOk(c) && E.SenderInv(c, s) && s.queue != []
    ensures var u := E.NextTransmit(s);
            u.history == s.history && u.sender == s.sender && u.queue == s.queue[1..]
  {
    E.TransmitIs(c, s);
  }

  lemma {:induction false} FirstSent(c: E.Config, s: E.System, n: nat, ps: seq<OutPacket>, i: nat, l: ListHead)
    requires E.ConfigOk(c) && E.SenderInv(c, s) && s.sender == Values(ps) && s.queue != [] && l.owner.Fragment?
    requires i < |ps| && s.queue[0] == (n, l.owner.fid) && n == E.Base(s) + i && ps[i].pid == l.owner.pid
    requires l.owner.fid < |ps[i].links| && ps[i].links[l.owner.fid] == l
    ensures Sends(s, l, |ps[i].links|, E.NextTransmit(s))
  {
    var pieces := SentPiece(c, s, n, l.owner.fid, i);
    PieceOf(ps, i, l, pieces);
    SendsIs(s, E.NextTransmit(s), l, n, pieces);
  }

  /** The sender's Transmit step, for fragment fid of its packet n. */
  lemma {:induction false} SentPiece(c: E.Config, s: E.System, n: nat, fid: nat, i: nat) returns (pieces: seq<bytes>)
    requires E.ConfigOk(c) && E.SenderInv(c, s) && s.queue != [] && s.queue[0] == (n, fid)
    requires i < |s.sender| && n == E.Base(s) + i
    ensures R.SmallPieces(pieces) && fid < |pieces|
    ensures s.sender[i].pid == E.Pid(n) && s.sender[i].frags == AllPresent(pieces)
    ensures E.NextTransmit(s).network == s.network + {(n, R.Datagram(E.Pid(n), pieces, fid))}
  {
    FirstLive(c, s, n, fid, i);
    FirstDatagram(c, s, n, fid);
    pieces := E.Pieces(c, s, n);
  }

  lemma {:induction false} FirstLive(c: E.Config, s: E.System, n: nat, fid: nat, i: nat)
    requires E.ConfigOk(c) && E.SenderInv(c, s) && s.queue != [] && s.queue[0] == (n, fid)
    requires i < |s.sender| && n == E.Base(s) + i
    ensures s.sender[i].pid == E.Pid(n) && s.sender[i].frags == AllPresent(E.Pieces(c, s, n))
  {
    E.QueueLive(c, s, 0);
  }

  lemma {:induction false} FirstDatagram(c: E.Config, s: E.System, n: nat, fid: nat)
    requires E.ConfigOk(c) && E.SenderInv(c, s) && s.queue != [] && s.queue[0] == (n, fid)
    ensures n < |s.history| && R.SmallPieces(E.Pieces(c, s, n)) && fid < |E.Pieces(c, s, n)|
    ensures E.NextTransmit(s).network == s.network + {(n, R.Datagram(E.Pid(n), E.Pieces(c, s, n), fid))}
  {
    E.TransmitIs(c, s);
  }

  lemma {:induction false} SendsIs(s: E.System, u: E.System, l: ListHead, n: nat, pieces: seq<bytes>)
    requires s.queue != [] && s.queue[0].0 == n && R.SmallPieces(pieces)
    requires l.owner.Fragment? && l.owner.fid < |pieces| && pieces[l.owner.fid] == l.owner.data
    requires l.owner.pid == E.Pid(n)
    requires u.network == s.network + {(n, R.Datagram(E.Pid(n), pieces, l.owner.fid))}
    ensures Sends(s, l, |pieces|, u)
  {
    assert MessageOf(l, |pieces|) == R.FragmentOf(E.Pid(n), pieces, l.owner.fid);
  }

  /** The data of a link is the piece of its packet. */
  lemma {:induction false} PieceOf(ps: seq<OutPacket>, i: nat, l: ListHead, pieces: seq<bytes>)
    requires l.owner.Fragment? && i < |ps| && l.owner.fid < |ps[i].links| && ps[i].links[l.owner.fid] == l
    requires Values(ps)[i].frags == AllPresent(pieces)
    ensures l.owner.fid < |pieces| == |ps[i].links| && pieces[l.owner.fid] == l.owner.data
  {
    assert Values(ps)[i] == ValueOf(ps[i]);
    assert ValueOf(ps[i]).frags[l.owner.fid] == FragmentData(l);
    assert AllPresent(pieces)[l.owner.fid] == Some(pieces[l.owner.fid]);
  }

  /** The datagram of fragment l goes into the network, as one of its packet. */
  ghost predicate Sends(s: E.System, l: ListHead, k: nat, u: E.System)
    requires l.owner.Fragment?
  {
    && s.queue != [] && Fit(l, k)
    && u.network == s.network + {(s.queue[0].0, W.Encoded(MessageOf(l, k)))}
  }

  ghost predicate Fit(l: ListHead, k: nat) {
    l.owner.Fragment? && l.owner.fid < FRAG_IDS && k < FRAG_IDS && |l.owner.data| < 0x1_0000_0000
  }

  /** Fragment l of a packet of k fragments. */
  ghost function MessageOf(l: ListHead, k: nat): (m: W.Msg)
    requires Fit(l, k)
    ensures W.Encodable(m)
  {
    W.Fragment(l.owner.pid, k, l.owner.fid, l.owner.data)
  }

  /** The number of fragments of the live packet with this id. */
  ghost function CountOf(ps: seq<OutPacket>, pid: uint16): nat {
    match Index(Values(ps), pid)
    case Some(i) => |ps[i].links|
    case None => 0
  }

  // ---- asking again ----

  /** What is found is what the id and the index of a live packet say. */
  lemma {:induction false} LinkOfIndex(ps: seq<OutPacket>, pid: uint16, fid: uint16)
    ensures LinkOf(ps, pid, fid) ==
            match Index(Values(ps), pid)
            case Some(i) => if fid < |ps[i].links| then Some(ps[i].links[fid]) else None
            case None => None
  {
    if ps != [] && ps[|ps| - 1].pid != pid {
      assert Values(ps[..|ps| - 1]) == Values(ps)[..|ps| - 1];
      LinkOfIndex(ps[..|ps| - 1], pid, fid);
    }
  }

  /** A live link is queued exactly if its number and index are. */
  lemma {:induction false} QueuedExactly(dst: NodeId, ps: seq<OutPacket>, l: ListHead, q: seq<ListHead>, h: nat)
    requires Owned(dst, ps) && |ps| <= h && QueuedFrom(q, dst, ps) && l in OutLinks(ps) && IsFor(l, dst)
    ensures l in q <==> (SerialOf(Values(ps), h, l.owner.pid), l.owner.fid) in QueueOf(q, dst, Values(ps), h)
  {
    if q != [] {
      assert forall j | 0 <= j < |q[1..]| :: q[1..][j] == q[j + 1];
      QueuedExactly(dst, ps, l, q[1..], h);
      if IsFor(q[0], dst) {
        SameLink(dst, ps, l, q[0], h);
      }
    }
  }

  /** Two live links with the same number and index are the same. */
  lemma {:induction false} SameLink(dst: NodeId, ps: seq<OutPacket>, l: ListHead, m: ListHead, h: nat)
    requires Owned(dst, ps) && |ps| <= h && l in OutLinks(ps) && m in OutLinks(ps) && IsFor(l, dst) && IsFor(m, dst)
    ensures l == m <==>
            SerialOf(Values(ps), h, l.owner.pid) == SerialOf(Values(ps), h, m.owner.pid) && l.owner.fid == m.owner.fid
  {
    LinkIndex(dst, ps, l);
    LinkIndex(dst, ps, m);
  }

  /** The refresh of an outgoing bucket, seen from the sender. */
  lemma {:induction false} RefreshQueue(dst: NodeId, ps: seq<OutPacket>, ps': seq<OutPacket>, k: nat, h: nat,
                                        q0: seq<ListHead>)
    requires Owned(dst, ps) && Owned(dst, ps') && k <= |ps| <= h && ps' == ps[k..] && QueuedFrom(q0, dst, ps)
    ensures QueueOf(MinusAll(q0, OutLinks(ps[..k])), dst, Values(ps'), h) ==
            E.Unexpired(QueueOf(q0, dst, Values(ps), h), h - |ps| + k)
  {
    LinksKept(dst, ps, k, Values(ps'), h, h, q0);
    KeptQueue(q0, OutLinks(ps[..k]), dst, Values(ps), h, Values(ps'), h, h - |ps| + k);
  }

  /** Asking for a fragment, after the refresh. */
  lemma {:induction false} RequeueRefines(t: E.System, dst: NodeId, e: Endpoint, pid: uint16, fid: uint16, res: int,
                                          rest: seq<ListHead>, q: seq<ListHead>)
    requires Represents(t, dst, e, rest) && Owned(dst, e.outgoing) && QueuedFrom(rest, dst, e.outgoing)
    requires Requeued(res, LinkOf(e.outgoing, pid, fid), rest, q)
    ensures Represents(E.AskedFor(t, pid, fid), dst, e, q)
  {
    LinkOfIndex(e.outgoing, pid, fid);
    match Index(t.sender, pid)
    case Some(i) =>
      if fid < |e.outgoing[i].links| {
        FoundRequeued(dst, e.outgoing, i, fid, rest, q, |t.history|);
      }
    case None =>
  }

  lemma {:induction false} FoundRequeued(dst: NodeId, ps: seq<OutPacket>, i: nat, fid: nat, rest: seq<ListHead>,
                                         q: seq<ListHead>, h: nat)
    requires Owned(dst, ps) && QueuedFrom(rest, dst, ps) && i < |ps| <= h && fid < |ps[i].links|
    requires q == if ps[i].links[fid] in rest then rest else rest + [ps[i].links[fid]]
    ensures var f, was := (h - |ps| + i, fid), QueueOf(rest, dst, Values(ps), h);
            QueueOf(q, dst, Values(ps), h) == if f in was then was else was + [f]
  {
    var l := ps[i].links[fid];
    FoundSerial(dst, ps, i, fid, h);
    QueuedExactly(dst, ps, l, rest, h);
    QueueAppend(rest, l, dst, Values(ps), h);
  }

  lemma {:induction false} FoundSerial(dst: NodeId, ps: seq<OutPacket>, i: nat, fid: nat, h: nat)
    requires Owned(dst, ps) && i < |ps| <= h && fid < |ps[i].links|
    ensures var l := ps[i].links[fid];
            && l in OutLinks(ps) && IsFor(l, dst) && l.owner.fid == fid
            && SerialOf(Values(ps), h, l.owner.pid) == h - |ps| + i
  {
    OutLinksOf(ps, i);
    assert OwnsLinks(dst, ps[i]);
    IndexUnique(Values(ps), ps[i].pid, i);
  }

  lemma {:induction false} QueueAppend(q: seq<ListHead>, l: ListHead, dst: NodeId, b: Bucket, h: nat)
    requires |b| <= h && IsFor(l, dst)
    ensures QueueOf(q + [l], dst, b, h) == QueueOf(q, dst, b, h) + [(SerialOf(b, h, l.owner.pid), l.owner.fid)]
  {
    QueueConcat(q, [l], dst, b, h);
    QueueOne([l], dst, b, h);
  }

  /** What the refresh before a Resend step does; the step is AskedFor on the result. */
  ghost predicate RefreshStep(c: E.Config, s: E.System, now: int, t: E.System) {
    && t.history == s.history && t.sender == Refreshed(s.sender, now, c.maxAge)
    && t.queue == E.Unexpired(s.queue, |s.history| - |t.sender|)
  }

  lemma {:induction false} NextResendIs(c: E.Config, s: E.System, pid: uint16, fid: uint16, now: int)
    ensures var t := E.Refresh(c, s, now);
            RefreshStep(c, s, now, t) && E.NextResend(c, s, pid, fid, now) == E.AskedFor(t, pid, fid)
  {
  }

  lemma {:induction false} RefreshMatches(s: E.System, k: nat, dst: NodeId, e: Endpoint, q0: seq<ListHead>,
                                          e': Endpoint, t: E.System)
    requires Represents(s, dst, e, q0) && QueuedFrom(q0, dst, e.outgoing)
    requires Owned(dst, e.outgoing) && Owned(dst, e'.outgoing)
    requires k <= |e.outgoing| && e' == e.(outgoing := e.outgoing[k..])
    requires t.history == s.history && t.sender == Values(e'.outgoing)
    requires t.queue == E.Unexpired(s.queue, |s.history| - |e.outgoing| + k)
    ensures Represents(t, dst, e', MinusAll(q0, OutLinks(e.outgoing[..k])))
  {
    RefreshQueue(dst, e.outgoing, e'.outgoing, k, |s.history|, q0);
  }

  /** network_manager_enqueue_outgoing_fragment takes the sender's Resend step: this is its refresh,
      with which packet_bucket_get_fragment begins, and RequeueRefines the rest. */
  lemma {:induction false} RefreshRefines(c: E.Config, s: E.System, k: nat, dst: NodeId, now: int,
                                          e: Endpoint, q0: seq<ListHead>, e': Endpoint, t: E.System)
    requires RefreshStep(c, s, now, t) && Represents(s, dst, e, q0) && QueuedFrom(q0, dst, e.outgoing)
    requires Owned(dst, e.outgoing) && Owned(dst, e'.outgoing)
    requires k <= |e.outgoing| && e' == e.(outgoing := e.outgoing[k..])
    requires Values(e'.outgoing) == Refreshed(Values(e.outgoing), now, c.maxAge)
    ensures Represents(t, dst, e', MinusAll(q0, OutLinks(e.outgoing[..k])))
  {
    RefreshIs(c, s, k, now, e, e', t);
    RefreshMatches(s, k, dst, e, q0, e', t);
  }

  lemma {:induction false} RefreshIs(c: E.Config, s: E.System, k: nat, now: int, e: Endpoint, e': Endpoint, t: E.System)
    requires RefreshStep(c, s, now, t) && s.sender == Values(e.outgoing)
    requires k <= |e.outgoing| && |e'.outgoing| == |e.outgoing| - k
    requires Values(e'.outgoing) == Refreshed(Values(e.outgoing), now, c.maxAge)
    ensures t.history == s.history && t.sender == Values(e'.outgoing)
    ensures t.queue == E.Unexpired(s.queue, |s.history| - |e.outgoing| + k)
  {
  }

  // ---- the methods ----

  /** What NetworkManager.EnqueueOutgoingPacket ensures is the sender's step for that peer ... */
  lemma {:induction false} EnqueuedIsStep(c: E.Config, s: E.System, k: nat, dst: NodeId, data: bytes, now: int,
                                          eps0: map<NodeId, Endpoint>, q0: seq<ListHead>,
                                          eps: map<NodeId, Endpoint>, q: seq<ListHead>)
    requires E.ConfigOk(c) && Enqueued(k, dst, data, now, c.maxAge, c.fragSize, eps0, q0, eps, q)
    requires Represents(s, dst, EndpointAt(eps0, dst), q0) && QueuedFrom(q0, dst, EndpointAt(eps0, dst).outgoing)
    requires Owned(dst, EndpointAt(eps0, dst).outgoing) && Owned(dst, eps[dst].outgoing)
    ensures Represents(E.NextEnqueue(c, s, data, now), dst, eps[dst], q)
  {
    NextEnqueueIs(c, s, data, now);
    EnqueueRefines(c, s, k, dst, data, now, EndpointAt(eps0, dst), q0, eps[dst], q, E.NextEnqueue(c, s, data, now));
  }

  /** ... and what EnqueueOutgoingFragment ensures is its Resend step. */
  lemma {:induction false} ResentIsStep(c: E.Config, s: E.System, k: nat, dst: NodeId, pid: uint16, fid: uint16,
                                        now: int, res: int, eps0: map<NodeId, Endpoint>, q0: seq<ListHead>,
                                        eps: map<NodeId, Endpoint>, q: seq<ListHead>)
    requires dst in eps0 && dst in eps
    requires Values(eps[dst].outgoing) == Refreshed(Values(eps0[dst].outgoing), now, c.maxAge)
    requires Resent(res, LinkOf(eps[dst].outgoing, pid, fid), k, eps0[dst], dst, eps0, q0, eps, q)
    requires Represents(s, dst, eps0[dst], q0) && QueuedFrom(q0, dst, eps0[dst].outgoing)
    requires Owned(dst, eps0[dst].outgoing) && Owned(dst, eps[dst].outgoing) && QueuedFrom(q, dst, eps[dst].outgoing)
    ensures Represents(E.NextResend(c, s, pid, fid, now), dst, eps[dst], q)
  {
    var rest, t := MinusAll(q0, OutLinks(eps0[dst].outgoing[..k])), E.Refresh(c, s, now);
    NextResendIs(c, s, pid, fid, now);
    RefreshRefines(c, s, k, dst, now, eps0[dst], q0, eps[dst], t);
    RestQueued(res, LinkOf(eps[dst].outgoing, pid, fid), rest, q, dst, eps[dst].outgoing);
    RequeueRefines(t, dst, eps[dst], pid, fid, res, rest, q);
  }

  lemma {:induction false} RestQueued(res: int, f: Option<ListHead>, rest: seq<ListHead>, q: seq<ListHead>, dst: NodeId,
                                      ps: seq<OutPacket>)
    requires Requeued(res, f, rest, q) && QueuedFrom(q, dst, ps)
    ensures QueuedFrom(rest, dst, ps)
  {
    assert forall j | 0 <= j < |rest| :: rest[j] == q[j];
  }
}
