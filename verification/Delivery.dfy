/** That packets do arrive: when the network passes the fragments of a packet on, the receiver
    reports the packet. */
module Delivery {
  import opened Buckets
  import opened Bytes
  import opened EndToEnd
  import opened Fragmentation
  import opened Receive
  import opened Wire
  import opened Wrappers

  // ---- paths ----

  /** Some run that mixes no packets leads from s to t. */
  ghost predicate Leads(c: Config, s: System, t: System)
    requires ConfigOk(c)
  {
    exists states: seq<System>, acts: seq<Action> :: IsPath(c, states, acts, s, t)
  }

  ghost predicate IsPath(c: Config, states: seq<System>, acts: seq<Action>, s: System, t: System)
    requires ConfigOk(c)
  {
    IsRun(c, states, acts) && Unmixed(c, states, acts) && states[0] == s && states[|acts|] == t
  }

  lemma LeadsNowhere(c: Config, s: System)
    requires ConfigOk(c)
    ensures Leads(c, s, s)
  {
    assert IsPath(c, [s], [], s, s);
  }

  /** A run goes on with any action that mixes no packets. */
  lemma LeadsOn(c: Config, s: System, t: System, a: Action)
    requires ConfigOk(c) && Leads(c, s, t) && Enabled(c, t, a) && NoMix(c, t, a)
    ensures Leads(c, s, Next(c, t, a))
  {
    var u := Next(c, t, a);
    forall states, acts | IsPath(c, states, acts, s, t) ensures IsPath(c, states + [u], acts + [a], s, u) {
      PathGrows(c, states, acts, s, t, a, u);
    }
    LeadsLonger(c, s, t, a, u);
  }

  lemma LeadsLonger(c: Config, s: System, t: System, a: Action, u: System)
    requires ConfigOk(c) && Leads(c, s, t)
    requires forall states, acts | IsPath(c, states, acts, s, t) :: IsPath(c, states + [u], acts + [a], s, u)
    ensures Leads(c, s, u)
  {
  }

  lemma PathGrows(c: Config, states: seq<System>, acts: seq<Action>, s: System, t: System, a: Action, u: System)
    requires ConfigOk(c) && IsPath(c, states, acts, s, t) && u in After(c, t, a) && NoMix(c, t, a)
    ensures IsPath(c, states + [u], acts + [a], s, u)
  {
    RunGrows(c, states, acts, a, u);
    UnmixedGrows(c, states, acts, a, u);
  }

  lemma RunGrows(c: Config, states: seq<System>, acts: seq<Action>, a: Action, u: System)
    requires ConfigOk(c) && IsRun(c, states, acts) && u in After(c, states[|acts|], a)
    ensures IsRun(c, states + [u], acts + [a])
  {
    forall k: nat | k < |acts| + 1 ensures (states + [u])[k + 1] in After(c, (states + [u])[k], (acts + [a])[k]) {
      if k < |acts| {
        StepOf(c, states, acts, k);
      }
    }
  }

  lemma StepOf(c: Config, states: seq<System>, acts: seq<Action>, k: nat)
    requires ConfigOk(c) && IsRun(c, states, acts) && k < |acts|
    ensures states[k + 1] in After(c, states[k], acts[k])
  {
  }

  lemma UnmixedGrows(c: Config, states: seq<System>, acts: seq<Action>, a: Action, u: System)
    requires |states| == |acts| + 1 && Unmixed(c, states, acts) && NoMix(c, states[|acts|], a)
    ensures Unmixed(c, states + [u], acts + [a])
  {
    forall k {:trigger (acts + [a])[k]} | 0 <= k < |acts| + 1 ensures NoMix(c, (states + [u])[k], (acts + [a])[k]) {
      if k < |acts| {
        assert NoMix(c, states[k], acts[k]);
      }
    }
  }

  /** Some run leads from s to t. */
  ghost predicate CanReach(c: Config, s: System, t: System)
    requires ConfigOk(c)
  {
    exists states: seq<System>, acts: seq<Action> :: IsFreePath(c, states, acts, s, t)
  }

  ghost predicate IsFreePath(c: Config, states: seq<System>, acts: seq<Action>, s: System, t: System)
    requires ConfigOk(c)
  {
    IsRun(c, states, acts) && states[0] == s && states[|acts|] == t
  }

  lemma ReachesItself(c: Config, s: System)
    requires ConfigOk(c)
    ensures CanReach(c, s, s)
  {
    assert IsFreePath(c, [s], [], s, s);
  }

  /** A run goes on with any action. */
  lemma ReachOn(c: Config, s: System, t: System, a: Action, u: System)
    requires ConfigOk(c) && CanReach(c, s, t) && u in After(c, t, a)
    ensures CanReach(c, s, u)
  {
    forall states, acts | IsFreePath(c, states, acts, s, t) ensures IsFreePath(c, states + [u], acts + [a], s, u) {
      RunGrows(c, states, acts, a, u);
    }
    ReachLonger(c, s, t, a, u);
  }

  lemma ReachLonger(c: Config, s: System, t: System, a: Action, u: System)
    requires ConfigOk(c) && CanReach(c, s, t)
    requires forall states, acts | IsFreePath(c, states, acts, s, t) ::
               IsFreePath(c, states + [u], acts + [a], s, u)
    ensures CanReach(c, s, u)
  {
  }

  /** A run that mixes nothing, and one action more. */
  lemma OneMore(c: Config, s: System, t: System, a: Action, u: System)
    requires ConfigOk(c) && Leads(c, s, t) && u in After(c, t, a)
    ensures CanReach(c, s, u)
  {
    forall states, acts | IsPath(c, states, acts, s, t) ensures IsFreePath(c, states, acts, s, t) {}
    assert CanReach(c, s, t);
    ReachOn(c, s, t, a, u);
  }

  // ---- the network passes a fragment on ----

  ghost predicate InNetwork(c: Config, s: System, n: nat, f: nat)
    requires ConfigOk(c)
  {
    && n < |s.history| && SmallPieces(Pieces(c, s, n)) && f < |Pieces(c, s, n)|
    && (n, Datagram(Pid(n), Pieces(c, s, n), f)) in s.network
  }

  /** The receiver is assembling packet n as p, and p is young; there is no other packet with its id. */
  ghost predicate Assembles(c: Config, s: System, n: nat, p: Packet)
    requires ConfigOk(c)
  {
    && n < |s.history| && OnlyOf(c, s, n, s.clock)
    && IsAssembly(s.receiver, c.maxAge, s.clock, Pid(n), |Pieces(c, s, n)|, p)
    && s.clock - p.created < c.maxAge
  }

  /** p with piece f of packet n. */
  ghost function WithPiece(c: Config, s: System, n: nat, p: Packet, f: nat): Packet
    requires ConfigOk(c) && n < |s.history| && f < |Pieces(c, s, n)| == |p.frags|
  {
    p.(frags := p.frags[f := Some(Pieces(c, s, n)[f])])
  }

  /** Packets like data can arrive in this buffer. */
  ghost predicate Fits(c: Config, data: bytes, buffer: bytes)
    requires ConfigOk(c)
  {
    && Count(|data|, c.fragSize) < FRAG_IDS && c.maxAge > 0
    && |buffer| > |data| && |buffer| >= FRAGMENT_HEADER_LEN + c.fragSize
  }

  /** The last receive was of fragment f of packet n, and reported data. */
  ghost predicate Arrived(t: System, n: nat, f: nat, data: bytes) {
    && t.log != []
    && var r := t.log[|t.log| - 1];
       r.serial == n && r.fid == f && r.ready && r.result == data
  }

  /** u is s after a receive of fragment f of packet n. */
  ghost predicate Heard(s: System, u: System, n: nat, f: nat) {
    && u.history == s.history && u.times == s.times && u.network == s.network && u.clock == s.clock
    && |u.log| == |s.log| + 1 && s.log <= u.log
    && u.log[|s.log|].serial == n && u.log[|s.log|].fid == f && u.log[|s.log|].now == s.clock
  }

  /** Delivering fragment f adds its piece; the last one missing gets the packet reported. */
  lemma DeliverOne(c: Config, s0: System, s: System, n: nat, f: nat, p: Packet, buffer: bytes) returns (u: System)
    requires ConfigOk(c) && Leads(c, s0, s) && Inv(c, s) && InNetwork(c, s, n, f) && Assembles(c, s, n, p)
    requires Fits(c, s.history[n], buffer)
    ensures Leads(c, s0, u) && Inv(c, u) && Heard(s, u, n, f) && f < |p.frags| == |Pieces(c, s, n)|
    ensures var q := WithPiece(c, s, n, p, f);
            if Complete(q.frags) then Arrived(u, n, f, s.history[n]) else Assembles(c, u, n, q)
  {
    var d := Datagram(Pid(n), Pieces(c, s, n), f);
    var a := Deliver(n, d, s.clock, s.clock, buffer);
    PieceSizes(s.history[n], c.fragSize, f);
    DatagramSize(Pid(n), Pieces(c, s, n), f);
    DatagramDecodes(Pid(n), Pieces(c, s, n), f);
    LeadsOn(c, s0, s, a);
    var raw := Overwritten(d, buffer);
    var p', r := ReceivePiece(c, s, n, f, s.clock, s.clock, raw);
    AssemblyUnique(s.receiver, c.maxAge, s.clock, Pid(n), |Pieces(c, s, n)|, p, p');
    u := Delivered(s, n, s.clock, s.clock, raw, r);
    DeliverInv(c, s, n, f, p, s.clock, s.clock, raw, r);
    PieceFiled(c, s, n, f, p, raw, r);
  }

  lemma PieceFiled(c: Config, s: System, n: nat, f: nat, p: Packet, raw: bytes, r: Reception)
    requires ConfigOk(c) && Assembles(c, s, n, p) && Receipted(c, s, n, f, p, s.clock, s.clock, raw, r)
    requires s.history[n] != [] && Count(|s.history[n]|, c.fragSize) < FRAG_IDS && |raw| > |s.history[n]|
    ensures var u := Delivered(s, n, s.clock, s.clock, raw, r);
            && Heard(s, u, n, f) && f < |p.frags| == |Pieces(c, s, n)|
            && var q := WithPiece(c, s, n, p, f);
               if Complete(q.frags) then Arrived(u, n, f, s.history[n]) else Assembles(c, u, n, q)
  {
    ReportedExact(s.history[n], c.fragSize, true, true, raw);
  }

  /** ids are the indices missing in frags, once each. */
  ghost predicate Missing(frags: Frags, ids: seq<nat>) {
    && (forall i, j | 0 <= i < j < |ids| :: ids[i] != ids[j])
    && (forall f: nat :: f in ids <==> f < |frags| && frags[f] == None)
  }

  lemma MissingNext(frags: Frags, ids: seq<nat>, piece: bytes)
    requires Missing(frags, ids) && ids != []
    ensures ids[0] < |frags| && frags[ids[0]] == None
    ensures var frags' := frags[ids[0] := Some(piece)];
            Missing(frags', ids[1..]) && (Complete(frags') <==> |ids| == 1)
  {
    assert ids[0] in ids;
    var f, rest, frags' := ids[0], ids[1..], frags[ids[0] := Some(piece)];
    assert forall i: nat :: i in ids <==> i == f || i in rest;
    assert f !in rest;
    if |ids| > 1 {
      assert rest[0] in ids && frags'[rest[0]] == None;
    }
  }

  /** The receives after s were of the fragments ids, in this order. */
  ghost predicate HeardAll(s: System, t: System, n: nat, ids: seq<nat>) {
    s.log <= t.log && AreOf(t.log[|s.log|..], n, ids)
  }

  ghost predicate AreOf(rs: seq<Receipt>, n: nat, ids: seq<nat>) {
    |rs| == |ids| && forall i | 0 <= i < |ids| :: rs[i].serial == n && rs[i].fid == ids[i]
  }

  lemma HeardMore(s: System, u: System, t: System, n: nat, ids: seq<nat>)
    requires ids != [] && Heard(s, u, n, ids[0]) && HeardAll(u, t, n, ids[1..])
    ensures HeardAll(s, t, n, ids)
  {
    var rs := t.log[|u.log|..];
    assert t.log[|s.log|..] == [u.log[|s.log|]] + rs;
    forall i | 0 < i < |ids| ensures ([u.log[|s.log|]] + rs)[i] == rs[i - 1] && ids[i] == ids[1..][i - 1] {}
  }

  ghost predicate AllInNetwork(c: Config, s: System, n: nat, ids: seq<nat>)
    requires ConfigOk(c)
  {
    forall f | f in ids :: InNetwork(c, s, n, f)
  }

  /** Delivering the missing fragments, in any order, gets the packet reported. */
  lemma {:induction false} DeliverEach(c: Config, s0: System, s: System, n: nat, ids: seq<nat>, p: Packet,
                                       buffer: bytes)
      returns (t: System)
    requires ConfigOk(c) && Leads(c, s0, s) && Inv(c, s) && Assembles(c, s, n, p) && Fits(c, s.history[n], buffer)
    requires Missing(p.frags, ids) && ids != [] && AllInNetwork(c, s, n, ids)
    ensures Leads(c, s0, t) && HeardAll(s, t, n, ids) && Arrived(t, n, ids[|ids| - 1], s.history[n])
    decreases |ids|
  {
    var q, u := DeliverFirst(c, s0, s, n, ids, p, buffer);
    if |ids| == 1 {
      t := u;
    } else {
      t := DeliverEach(c, s0, u, n, ids[1..], q, buffer);
    }
    HeardMore(s, u, t, n, ids);
  }

  lemma DeliverFirst(c: Config, s0: System, s: System, n: nat, ids: seq<nat>, p: Packet, buffer: bytes)
      returns (q: Packet, u: System)
    requires ConfigOk(c) && Leads(c, s0, s) && Inv(c, s) && Assembles(c, s, n, p) && Fits(c, s.history[n], buffer)
    requires Missing(p.frags, ids) && ids != [] && AllInNetwork(c, s, n, ids)
    ensures Leads(c, s0, u) && Inv(c, u) && Heard(s, u, n, ids[0]) && AllInNetwork(c, u, n, ids[1..])
    ensures Missing(q.frags, ids[1..])
    ensures if |ids| == 1 then Arrived(u, n, ids[0], s.history[n]) else Assembles(c, u, n, q)
  {
    var f := ids[0];
    assert f in ids && InNetwork(c, s, n, f);
    u := DeliverOne(c, s0, s, n, f, p, buffer);
    q := WithPiece(c, s, n, p, f);
    MissingNext(p.frags, ids, Pieces(c, s, n)[f]);
    NetworkSame(c, s, u, n, ids);
  }

  lemma NetworkSame(c: Config, s: System, u: System, n: nat, ids: seq<nat>)
    requires ConfigOk(c) && u.history == s.history && u.network == s.network
    requires ids != [] && AllInNetwork(c, s, n, ids)
    ensures AllInNetwork(c, u, n, ids[1..])
  {
    forall f | f in ids[1..] ensures InNetwork(c, u, n, f) {
      assert f in ids && InNetwork(c, s, n, f);
    }
  }

  // ---- the sender's side ----

  /** The receiver's side is the same. */
  ghost predicate SameReceiver(s: System, u: System) {
    u.receiver == s.receiver && u.tags == s.tags && u.log == s.log && u.clock == s.clock
  }

  ghost predicate QueueSent(c: Config, s: System, u: System)
    requires ConfigOk(c)
  {
    && (forall k | 0 <= k < |s.queue| :: InNetwork(c, u, s.queue[k].0, s.queue[k].1))
    && s.network <= u.network
  }

  /** The sender can send all that is queued. */
  lemma {:induction false} FlushQueue(c: Config, s0: System, s: System) returns (u: System)
    requires ConfigOk(c) && Leads(c, s0, s) && Inv(c, s)
    ensures Leads(c, s0, u) && Inv(c, u) && u.history == s.history && SameReceiver(s, u) && QueueSent(c, s, u)
    ensures u.sender == s.sender && u.times == s.times
    decreases |s.queue|
  {
    if s.queue == [] {
      u := s;
    } else {
      var v := SendFirst(c, s0, s);
      u := FlushQueue(c, s0, v);
      SentBoth(c, s, v, u);
    }
  }

  lemma SendFirst(c: Config, s0: System, s: System) returns (v: System)
    requires ConfigOk(c) && Leads(c, s0, s) && Inv(c, s) && s.queue != []
    ensures Leads(c, s0, v) && Inv(c, v) && v.history == s.history && SameReceiver(s, v) && v.sender == s.sender
    ensures v.times == s.times && v.queue == s.queue[1..] && s.network <= v.network
    ensures InNetwork(c, v, s.queue[0].0, s.queue[0].1)
  {
    LeadsOn(c, s0, s, Transmit);
    StepInv(c, s, Transmit);
    TransmitIs(c, s);
    v := NextTransmit(s);
  }

  lemma SentBoth(c: Config, s: System, v: System, u: System)
    requires ConfigOk(c) && s.queue != [] && v.queue == s.queue[1..] && u.history == v.history == s.history
    requires s.network <= v.network && InNetwork(c, v, s.queue[0].0, s.queue[0].1) && QueueSent(c, v, u)
    ensures QueueSent(c, s, u)
  {
    forall k | 0 <= k < |s.queue| ensures InNetwork(c, u, s.queue[k].0, s.queue[k].1) {
      if k > 0 { assert s.queue[k] == v.queue[k - 1]; }
    }
  }

  ghost predicate AllQueued(s: System, n: nat, ids: seq<nat>) {
    forall f | f in ids :: (n, f) in s.queue
  }

  lemma QueuedSent(c: Config, s: System, u: System, n: nat, ids: seq<nat>)
    requires ConfigOk(c) && QueueSent(c, s, u) && AllQueued(s, n, ids)
    ensures AllInNetwork(c, u, n, ids)
  {
    forall f | f in ids ensures InNetwork(c, u, n, f) {
      assert (n, f) in s.queue;
    }
  }

  /** Send the queue, then deliver the missing fragments. */
  lemma SendAndDeliver(c: Config, s0: System, s: System, n: nat, ids: seq<nat>, p: Packet, buffer: bytes)
      returns (t: System)
    requires ConfigOk(c) && Leads(c, s0, s) && Inv(c, s) && Assembles(c, s, n, p) && Fits(c, s.history[n], buffer)
    requires Missing(p.frags, ids) && ids != [] && AllQueued(s, n, ids)
    ensures Leads(c, s0, t) && HeardAll(s, t, n, ids) && Arrived(t, n, ids[|ids| - 1], s.history[n])
  {
    var u := FlushQueue(c, s0, s);
    QueuedSent(c, s, u, n, ids);
    t := DeliverEach(c, s0, u, n, ids, p, buffer);
  }

  // ---- a packet arrives ----

  ghost function Indices(k: nat): seq<nat> {
    seq(k, i requires 0 <= i => i)
  }

  /** Whatever happened before: a packet enqueued now arrives, byte for byte, by a run in which the
      network passes its fragments on. It takes that the id is free at both ends, that the packet
      has fewer than 2^16 fragments, and a buffer for the packet and for a datagram. */
  lemma PacketArrives(c: Config, s: System, data: bytes, buffer: bytes) returns (t: System)
    requires ConfigOk(c) && Inv(c, s) && data != [] && Fits(c, data, buffer)
    requires |Refreshed(s.sender, s.clock, c.maxAge)| < 0x1_0000
    requires NoneYoung(s.receiver, c.maxAge, s.clock, Pid(|s.history|))
    ensures Leads(c, s, t) && t.log != [] && t.log[|t.log| - 1].serial == |s.history|
    ensures t.log[|t.log| - 1].result == data
  {
    LeadsNowhere(c, s);
    var n, k := |s.history|, FragNum(|data|, c.fragSize);
    var u, p := EnqueueOne(c, s, s, data, s.clock);
    SomePiece(data, c.fragSize);
    AllMissing(k);
    t := SendAndDeliver(c, s, u, n, Indices(k), p, buffer);
  }

  /** A packet enqueued at time now waits in the queue, and the receiver can assemble it. */
  lemma EnqueueOne(c: Config, s0: System, s: System, data: bytes, now: int) returns (u: System, p: Packet)
    requires ConfigOk(c) && Leads(c, s0, s) && Inv(c, s) && data != [] && c.maxAge > 0 && s.clock <= now
    requires |Refreshed(s.sender, now, c.maxAge)| < 0x1_0000
    requires NoneYoung(s.receiver, c.maxAge, now, Pid(|s.history|))
    ensures Leads(c, s0, u) && Inv(c, u) && EnqueuedAt(s, data, now, u)
    ensures Assembles(c, u, |s.history|, p) && p.frags == Fragmentation.Empty(FragNum(|data|, c.fragSize))
    ensures AllQueued(u, |s.history|, Indices(FragNum(|data|, c.fragSize)))
  {
    u := EnqueueAny(c, s0, s, data, now);
    p := Opened(c, u, |s.history|);
  }

  lemma EnqueueAny(c: Config, s0: System, s: System, data: bytes, now: int) returns (u: System)
    requires ConfigOk(c) && Leads(c, s0, s) && Inv(c, s) && data != [] && s.clock <= now
    requires |Refreshed(s.sender, now, c.maxAge)| < 0x1_0000
    ensures Leads(c, s0, u) && Inv(c, u) && EnqueuedAt(s, data, now, u)
    ensures AllQueued(u, |s.history|, Indices(FragNum(|data|, c.fragSize)))
  {
    LeadsOn(c, s0, s, Enqueue(data, now));
    StepInv(c, s, Enqueue(data, now));
    u := NextEnqueue(c, s, data, now);
    NewQueued(|s.history|, FragNum(|data|, c.fragSize), Refresh(c, s, now).queue, u);
  }

  /** u is s after enqueueing data. */
  ghost predicate EnqueuedAt(s: System, data: bytes, now: int, u: System) {
    && u.history == s.history + [data] && u.times == s.times + [now] && |u.sender| <= |s.sender| + 1
    && u.network == s.network && u.receiver == s.receiver && u.tags == s.tags && u.log == s.log && u.clock == now
  }

  /** With none of its fragments in, packet n is assembled from nothing. */
  lemma Opened(c: Config, s: System, n: nat) returns (p: Packet)
    requires ConfigOk(c) && c.maxAge > 0 && n < |s.history|
    requires NoneYoung(s.receiver, c.maxAge, s.clock, Pid(n))
    ensures Assembles(c, s, n, p) && p.created == s.clock
    ensures p.frags == Fragmentation.Empty(FragNum(|s.history[n]|, c.fragSize))
  {
    p := Packet(Pid(n), s.clock, Fragmentation.Empty(FragNum(|s.history[n]|, c.fragSize)));
  }

  lemma NewQueued(n: nat, k: nat, older: seq<(nat, nat)>, u: System)
    requires u.queue == NewFragments(n, k) + older
    ensures AllQueued(u, n, Indices(k))
  {
    forall f | f in Indices(k) ensures (n, f) in u.queue {
      assert NewFragments(n, k)[f] in u.queue;
    }
  }

  lemma SomePiece(data: bytes, fragSize: nat)
    requires data != [] && fragSize > 0 && Count(|data|, fragSize) < FRAG_IDS
    ensures FragNum(|data|, fragSize) > 0
  {
    assert 0 < Count(|data|, fragSize) == FragNum(|data|, fragSize);
  }

  lemma AllMissing(k: nat)
    ensures Missing(Fragmentation.Empty(k), Indices(k))
  {
    forall f: nat | f < k ensures f in Indices(k) {
      assert Indices(k)[f] == f;
    }
  }
}
