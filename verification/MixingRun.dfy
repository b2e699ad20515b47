/** A run of 65537 packets in which the network holds a fragment back until its id is used again. */
module MixingRun {
  import opened Buckets
  import opened Bytes
  import opened Delivery
  import opened EndToEnd
  import opened Fragmentation
  import opened Mixing
  import opened Receive
  import opened Wrappers

  const IDS := 0x1_0000

  /** The sender enqueues packet after packet, m of them, at once. */
  lemma {:induction false} EnqueueMany(c: Config, s0: System, s: System, data: bytes, m: nat) returns (u: System)
    requires ConfigOk(c) && Leads(c, s0, s) && Inv(c, s) && data != [] && |s.sender| + m <= IDS
    ensures Leads(c, s0, u) && Inv(c, u) && Sends(s, m, s.clock, u)
    decreases m
  {
    if m == 0 {
      u := s;
    } else {
      var v := EnqueueNow(c, s0, s, data);
      u := EnqueueMany(c, s0, v, data, m - 1);
      SendsMore(s, v, u, 1, m - 1, s.clock);
    }
  }

  /** From s to u, m packets were enqueued at time now, and nothing was received. */
  ghost predicate Sends(s: System, m: nat, now: int, u: System) {
    && s.history <= u.history && |u.history| == |s.history| + m && s.network <= u.network
    && |u.sender| <= |s.sender| + m && u.receiver == s.receiver && u.tags == s.tags && u.log == s.log
    && s.times <= u.times && |u.times| == |s.times| + m && u.clock == now
    && forall n | |s.times| <= n < |u.times| :: u.times[n] == now
  }

  lemma EnqueueNow(c: Config, s0: System, s: System, data: bytes) returns (v: System)
    requires ConfigOk(c) && Leads(c, s0, s) && Inv(c, s) && data != [] && |s.sender| < IDS
    ensures Leads(c, s0, v) && Inv(c, v) && Sends(s, 1, s.clock, v)
  {
    assert |Refreshed(s.sender, s.clock, c.maxAge)| <= |s.sender|;
    v := EnqueueAny(c, s0, s, data, s.clock);
    SendsOne(s, data, s.clock, v, v);
  }

  lemma SendsMore(s: System, v: System, u: System, k: nat, m: nat, now: int)
    requires Sends(s, k, now, v) && Sends(v, m, now, u)
    ensures Sends(s, k + m, now, u)
  {
  }

  /** Once every packet is maxAge old, none is live. */
  lemma AllExpire(c: Config, s: System, now: int)
    requires ConfigOk(c) && SenderOk(c, s) && forall n | 0 <= n < |s.times| :: now - s.times[n] >= c.maxAge
    ensures Refreshed(s.sender, now, c.maxAge) == []
  {
    forall i | 0 <= i < |s.sender| ensures Expired(s.sender[i], now, c.maxAge) {
      assert LiveAt(c, s, Base(s) + i);
    }
    AllExpired(s.sender, now, c.maxAge);
  }

  lemma {:induction false} AllExpired(b: Bucket, now: int, maxAge: nat)
    requires forall i | 0 <= i < |b| :: Expired(b[i], now, maxAge)
    ensures Refreshed(b, now, maxAge) == []
  {
    if b != [] {
      AllExpired(b[1..], now, maxAge);
    }
  }

  /** Enqueue a packet and send its fragments. */
  lemma EnqueueAndSend(c: Config, s0: System, s: System, data: bytes, now: int) returns (u: System)
    requires ConfigOk(c) && Leads(c, s0, s) && Inv(c, s) && data != [] && s.clock <= now
    requires |Refreshed(s.sender, now, c.maxAge)| < IDS
    ensures Leads(c, s0, u) && Inv(c, u) && Sends(s, 1, now, u) && u.history == s.history + [data]
    ensures AllInNetwork(c, u, |s.history|, Indices(FragNum(|data|, c.fragSize)))
  {
    var v := EnqueueAny(c, s0, s, data, now);
    u := FlushQueue(c, s0, v);
    QueuedSent(c, v, u, |s.history|, Indices(FragNum(|data|, c.fragSize)));
    SendsOne(s, data, now, v, u);
  }

  /** Enqueueing data, and then sending. */
  lemma SendsOne(s: System, data: bytes, now: int, v: System, u: System)
    requires EnqueuedAt(s, data, now, v) && SameReceiver(v, u) && v.network <= u.network
    requires u.history == v.history && u.times == v.times && u.sender == v.sender
    ensures Sends(s, 1, now, u) && u.history == s.history + [data]
  {
  }

  // ---- the last step ----

  /** Packet q is young, and has all of packet n but piece 1. */
  ghost predicate HalfHeld(c: Config, s: System, n: nat, q: Packet)
    requires ConfigOk(c)
  {
    && n < |s.history| && 1 < |Pieces(c, s, n)| && SmallPieces(Pieces(c, s, n))
    && q in s.receiver && q.pid == Pid(n) && !Expired(q, s.clock, c.maxAge)
    && q.frags == AllPresent(Pieces(c, s, n))[1 := None]
  }

  /** The receiver has half of packet n, and fragment 1 of packet m arrives, which has the same id. */
  lemma OtherFragmentArrives(c: Config, s: System, n: nat, m: nat, q: Packet, buffer: bytes)
      returns (a: Action, t: System)
    requires ConfigOk(c) && Inv(c, s) && HalfHeld(c, s, n, q) && InNetwork(c, s, m, 1) && Pid(m) == Pid(n)
    requires |s.history[m]| == |s.history[n]| && Fits(c, s.history[m], buffer)
    ensures t in After(c, s, a) && Mixes(c, s, n, m, t)
  {
    var d := Datagram(Pid(m), Pieces(c, s, m), 1);
    a := Deliver(m, d, s.clock, s.clock, buffer);
    PieceSizes(s.history[m], c.fragSize, 1);
    DatagramSize(Pid(m), Pieces(c, s, m), 1);
    DatagramDecodes(Pid(m), Pieces(c, s, m), 1);
    MixingBreaksIntegrity(s.receiver, c.maxAge, s.clock, s.clock, q, s.history[n], s.history[m], c.fragSize, 1,
                          Overwritten(d, buffer));
    t := Next(c, s, a);
  }

  /** u is s after a receive that reports a mixture of the packets n and m as packet m. */
  ghost predicate Mixes(c: Config, s: System, n: nat, m: nat, u: System)
    requires ConfigOk(c) && n < |s.history| && m < |s.history|
    requires |s.history[m]| == |s.history[n]| && 1 < |Pieces(c, s, n)|
  {
    && u.history == s.history && u.times == s.times && |u.log| == |s.log| + 1 && s.log <= u.log
    && var r := u.log[|s.log|];
       r.serial == m && r.now == s.clock && r.ready && InTime(c, r) && |r.raw| > |s.history[m]|
       && IsMixture(r.result, s.history[n], s.history[m], c.fragSize, 1)
  }

  /** For all packets x and y of two pieces that differ in the first: some run enqueues x, 65535 others
      and y, keeps to the clock, and ends with a receive that is ready and in time, has buffer enough,
      and reports as packet 0 what is not packet 0. Every step but the last mixes no packets. */
  lemma OnePacketTooMany(c: Config, x: bytes, y: bytes, buffer: bytes) returns (s: System, t: System)
    requires ConfigOk(c) && |x| == |y| && FragNum(|x|, c.fragSize) == 2 && Fits(c, x, buffer)
    requires Split(x, c.fragSize)[0] != Split(y, c.fragSize)[0]
    ensures Init(s) && CanReach(c, s, t) && |t.history| == IDS + 1
    ensures t.history[0] == x && t.history[IDS] == y && t.log != []
    ensures var r := t.log[|t.log| - 1];
            r.serial == 0 && r.ready && InTime(c, r) && |r.raw| > |x| && r.result != x
  {
    s := Start();
    InitInv(c, s);
    LeadsNowhere(c, s);
    var v := FirstRound(c, s, x);
    var u, q := HalfOfTheSecond(c, s, v, y, buffer);
    var a;
    a, t := OtherFragmentArrives(c, u, IDS, 0, q, buffer);
    OneMore(c, s, u, a, t);
  }

  ghost function Start(): (s: System)
    ensures Init(s)
  {
    System([], [], [], [], {}, [], map[], [], 0)
  }

  /** maxAge after the first round y is sent, and its first fragment is delivered. */
  lemma HalfOfTheSecond(c: Config, s: System, v: System, y: bytes, buffer: bytes) returns (u: System, q: Packet)
    requires ConfigOk(c) && Leads(c, s, v) && Inv(c, v) && |v.history| == IDS && v.receiver == []
    requires Refreshed(v.sender, v.clock + c.maxAge, c.maxAge) == [] && InNetwork(c, v, 0, 1)
    requires FragNum(|y|, c.fragSize) == 2 && Fits(c, y, buffer)
    ensures Leads(c, s, u) && Inv(c, u) && u.history == v.history + [y] && InNetwork(c, u, 0, 1)
    ensures HalfHeld(c, u, IDS, q)
  {
    var w := SendSecond(c, s, v, y, v.clock + c.maxAge);
    u, q := DeliverHalf(c, s, w, IDS, buffer);
    StillSent(c, w, u, 0, 1);
  }

  /** After the first round, y is sent at a time when nothing of that is live any more. */
  lemma SendSecond(c: Config, s: System, v: System, y: bytes, now: int) returns (w: System)
    requires ConfigOk(c) && Leads(c, s, v) && Inv(c, v) && |v.history| == IDS && v.clock <= now
    requires Refreshed(v.sender, now, c.maxAge) == [] && InNetwork(c, v, 0, 1)
    requires y != [] && FragNum(|y|, c.fragSize) == 2
    ensures Leads(c, s, w) && Inv(c, w) && Sends(v, 1, now, w) && w.history == v.history + [y]
    ensures InNetwork(c, w, 0, 1) && InNetwork(c, w, IDS, 0) && InNetwork(c, w, IDS, 1)
  {
    w := EnqueueAndSend(c, s, v, y, now);
    BothSent(c, w, IDS);
    StillSent(c, v, w, 0, 1);
  }

  lemma BothSent(c: Config, s: System, n: nat)
    requires ConfigOk(c) && AllInNetwork(c, s, n, Indices(2))
    ensures InNetwork(c, s, n, 0) && InNetwork(c, s, n, 1)
  {
    assert Indices(2)[0] in Indices(2) && Indices(2)[1] in Indices(2);
  }

  lemma StillSent(c: Config, v: System, w: System, n: nat, f: nat)
    requires ConfigOk(c) && InNetwork(c, v, n, f) && v.history <= w.history && v.network <= w.network
    ensures InNetwork(c, w, n, f)
  {
  }

  /** The first half of packet n, of which nothing arrived before. */
  lemma DeliverHalf(c: Config, s: System, w: System, n: nat, buffer: bytes) returns (u: System, q: Packet)
    requires ConfigOk(c) && Leads(c, s, w) && Inv(c, w) && InNetwork(c, w, n, 0) && w.receiver == []
    requires |Pieces(c, w, n)| == 2 && Fits(c, w.history[n], buffer)
    ensures Leads(c, s, u) && Inv(c, u) && Heard(w, u, n, 0) && HalfHeld(c, u, n, q) && q.created == w.clock
  {
    var p := Opened(c, w, n);
    u := DeliverOne(c, s, w, n, 0, p, buffer);
    q := WithPiece(c, w, n, p, 0);
    HalfThere(Pieces(c, w, n));
    assert q.frags[0].Some?;
  }

  lemma HalfThere(v: seq<bytes>)
    requires |v| == 2
    ensures Fragmentation.Empty(2)[0 := Some(v[0])] == AllPresent(v)[1 := None]
    ensures !Complete(AllPresent(v)[1 := None])
  {
    assert AllPresent(v)[1 := None][1] == None;
  }

  /** x is sent, and 65535 packets follow, all at one time; none is live any more maxAge later. */
  lemma FirstRound(c: Config, s: System, x: bytes) returns (v: System)
    requires ConfigOk(c) && FragNum(|x|, c.fragSize) == 2 && c.maxAge > 0
    requires Init(s) && Inv(c, s) && Leads(c, s, s)
    ensures Leads(c, s, v) && Inv(c, v) && Sends(s, IDS, s.clock, v) && v.history[0] == x
    ensures InNetwork(c, v, 0, 0) && InNetwork(c, v, 0, 1)
    ensures Refreshed(v.sender, v.clock + c.maxAge, c.maxAge) == []
  {
    var w := SendBoth(c, s, x);
    v := EnqueueMany(c, s, w, x, IDS - 1);
    SendsMore(s, w, v, 1, IDS - 1, s.clock);
    StillSent(c, w, v, 0, 0);
    StillSent(c, w, v, 0, 1);
    AllExpire(c, v, v.clock + c.maxAge);
  }

  lemma SendBoth(c: Config, s: System, x: bytes) returns (w: System)
    requires ConfigOk(c) && FragNum(|x|, c.fragSize) == 2 && c.maxAge > 0
    requires Init(s) && Inv(c, s) && Leads(c, s, s)
    ensures Leads(c, s, w) && Inv(c, w) && Sends(s, 1, s.clock, w) && w.history == [x]
    ensures InNetwork(c, w, 0, 0) && InNetwork(c, w, 0, 1)
  {
    w := EnqueueAndSend(c, s, s, x, s.clock);
    BothSent(c, w, 0);
  }
}
