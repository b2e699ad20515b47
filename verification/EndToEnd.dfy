/** A sender, a network that loses, repeats and reorders datagrams, and a receiver: runs of the
    packet transport of Lib/net_helper (net_helper-x.c over nhx), for one sender and one receiver. */
module EndToEnd {
  import opened Buckets
  import opened Bytes
  import opened Fragmentation
  import opened Receive
  import opened Wire

  datatype Config = Config(fragSize: nat, maxAge: nat)

  /** The fragment size is an int in the code. */
  ghost predicate ConfigOk(c: Config) {
    0 < c.fragSize < 0x8000_0000
  }

  /** One receive of a fragment: fragment fid of packet serial arrived, the clock was read at now and,
      for the pop, at later; raw is the caller's buffer with the datagram in it; created is when the
      packet was opened that the fragment was filed in, ready says that it was complete then, result
      is what the caller was told. */
  datatype Receipt = Receipt(
    serial: nat, fid: nat, now: int, later: int, raw: bytes, created: int, ready: bool, result: bytes)

  /** history: the packets enqueued so far; packet n was enqueued at times[n] with id n % 2^16.
      queue: fragments (packet, index) waiting at the sender. network: datagrams sent so far, with
      the packet each is from. tags: for each id, the packet the receiver last got a fragment of. */
  datatype System = System(
    history: seq<bytes>, times: seq<int>,
    sender: Bucket, queue: seq<(nat, nat)>, network: set<(nat, bytes)>,
    receiver: Bucket, tags: map<uint16, nat>, log: seq<Receipt>, clock: int)

  datatype Action =
    | Enqueue(data: bytes, now: int)
    | Transmit
    | Resend(pid: uint16, fid: uint16, now: int)
    | Deliver(serial: nat, datagram: bytes, now: int, later: int, buffer: bytes)

  ghost predicate Init(s: System) {
    && s.history == [] && s.times == [] && s.sender == [] && s.queue == [] && s.network == {}
    && s.receiver == [] && s.log == []
  }

  function Pid(serial: nat): uint16 {
    serial % 0x1_0000
  }

  // ---- the invariant ----

  ghost function Pieces(c: Config, s: System, n: nat): seq<bytes>
    requires ConfigOk(c) && n < |s.history|
  {
    Split(s.history[n], c.fragSize)
  }

  /** The number of the oldest live packet at the sender. */
  ghost function Base(s: System): int {
    |s.history| - |s.sender|
  }

  /** The live packets of the sender are the last ones enqueued, each split into its pieces; there
      are never more than there are ids. */
  ghost predicate SenderOk(c: Config, s: System)
    requires ConfigOk(c)
  {
    && |s.times| == |s.history| && Base(s) >= 0 && |s.sender| <= 0x1_0000
    && (forall n | 0 <= n < |s.history| :: s.history[n] != [])
    && TimesOk(s)
    && (forall n | Base(s) <= n < |s.history| :: LiveAt(c, s, n))
  }

  ghost predicate TimesOk(s: System) {
    forall n, m | 0 <= n <= m < |s.times| :: s.times[n] <= s.times[m] <= s.clock
  }

  ghost predicate LiveAt(c: Config, s: System, n: nat)
    requires ConfigOk(c) && |s.times| == |s.history| && 0 <= Base(s) <= n < |s.history|
  {
    s.sender[n - Base(s)] == NewPacket(Pid(n), s.times[n], s.history[n], c.fragSize)
  }

  /** Whatever waits is a fragment of a live packet, once. */
  ghost predicate QueueOk(c: Config, s: System)
    requires ConfigOk(c)
  {
    && (forall k | 0 <= k < |s.queue| ::
          Base(s) <= s.queue[k].0 < |s.history| && s.queue[k].1 < |Pieces(c, s, s.queue[k].0)|)
    && NoRepeats(s.queue)
  }

  ghost predicate NoRepeats(q: seq<(nat, nat)>) {
    forall j, k | 0 <= j < k < |q| :: q[j] != q[k]
  }

  ghost predicate IsDatagram(pid: uint16, pieces: seq<bytes>, d: bytes)
    requires SmallPieces(pieces)
  {
    exists fid: nat :: fid < |pieces| && d == Datagram(pid, pieces, fid)
  }

  ghost predicate NetworkOk(c: Config, s: System)
    requires ConfigOk(c)
  {
    forall m | m in s.network ::
      m.0 < |s.history| && SmallPieces(Pieces(c, s, m.0)) && IsDatagram(Pid(m.0), Pieces(c, s, m.0), m.1)
  }

  /** A packet under assembly holds pieces of the packet it is tagged with. */
  ghost predicate Tagged(c: Config, s: System, p: Packet)
    requires ConfigOk(c)
  {
    && p.pid in s.tags && s.tags[p.pid] < |s.history| && Pid(s.tags[p.pid]) == p.pid
    && Agrees(p.frags, Pieces(c, s, s.tags[p.pid]))
  }

  ghost predicate AllTagged(c: Config, s: System, b: Bucket)
    requires ConfigOk(c)
  {
    forall p | p in b :: Tagged(c, s, p)
  }

  ghost predicate ReceiverOk(c: Config, s: System)
    requires ConfigOk(c)
  {
    WellFormed(s.receiver, s.clock) && AllTagged(c, s, s.receiver)
  }

  /** The packet was still young at the second reading of the clock. */
  ghost predicate InTime(c: Config, r: Receipt) {
    r.later - r.created < c.maxAge
  }

  ghost predicate Faithful(c: Config, s: System, r: Receipt)
    requires ConfigOk(c)
  {
    && r.serial < |s.history| && r.fid < |Pieces(c, s, r.serial)|
    && r.result == Reported(r.ready, InTime(c, r), Pieces(c, s, r.serial), r.raw)
  }

  ghost predicate Inv(c: Config, s: System)
    requires ConfigOk(c)
  {
    SenderInv(c, s) && ReceiverOk(c, s) && LogOk(c, s)
  }

  /** The part of the sender and the network holds whatever is received. */
  ghost predicate SenderInv(c: Config, s: System)
    requires ConfigOk(c)
  {
    SenderOk(c, s) && QueueOk(c, s) && NetworkOk(c, s)
  }

  // ---- steps ----

  /** What may happen. Time does not run backwards, a new packet meets fewer than 65536 live ones,
      and only datagrams that were sent can arrive. */
  ghost predicate Enabled(c: Config, s: System, a: Action) {
    match a
    case Enqueue(data, now) =>
      data != [] && now >= s.clock && |Refreshed(s.sender, now, c.maxAge)| < 0x1_0000
    case Transmit => s.queue != []
    case Resend(_, _, now) => now >= s.clock
    case Deliver(serial, datagram, now, later, buffer) =>
      (serial, datagram) in s.network && s.clock <= now <= later && |datagram| <= |buffer|
  }

  /** What is young and under assembly with the id of packet n is packet n. */
  ghost predicate OnlyOf(c: Config, s: System, n: nat, now: int) {
    forall p | p in s.receiver && p.pid == Pid(n) && !Expired(p, now, c.maxAge) && p.pid in s.tags :: s.tags[p.pid] == n
  }

  /** No id is reused while old fragments matter: the packet under assembly that a delivered
      fragment falls into, if any, is of the same packet. */
  ghost predicate NoMix(c: Config, s: System, a: Action) {
    a.Deliver? ==> OnlyOf(c, s, a.serial, a.now)
  }

  /** The queue without the fragments of packets older than base. */
  ghost function Unexpired(queue: seq<(nat, nat)>, base: int): seq<(nat, nat)> {
    if queue == [] then []
    else (if queue[0].0 >= base then [queue[0]] else []) + Unexpired(queue[1..], base)
  }

  ghost function NewFragments(n: nat, k: nat): seq<(nat, nat)> {
    seq(k, f requires 0 <= f => (n, f))
  }

  ghost function Refresh(c: Config, s: System, now: int): System {
    var sender := Refreshed(s.sender, now, c.maxAge);
    s.(sender := sender, queue := Unexpired(s.queue, |s.history| - |sender|), clock := now)
  }

  ghost function NextEnqueue(c: Config, s: System, data: bytes, now: int): System
    requires ConfigOk(c)
  {
    var t, n := Refresh(c, s, now), |s.history|;
    t.(history := s.history + [data], times := s.times + [now],
       sender := AddedPacket(s.sender, now, c.maxAge, Pid(n), data, c.fragSize),
       queue := NewFragments(n, FragNum(|data|, c.fragSize)) + t.queue)
  }

  /** The fragment f = (packet, index), if its packet is live. */
  ghost predicate FragmentLive(s: System, f: (nat, nat)) {
    && 0 <= f.0 - Base(s) < |s.sender|
    && var frags := s.sender[f.0 - Base(s)].frags;
       f.1 < |frags| < FRAG_IDS && frags[f.1].Some? && |frags[f.1].value| < 0x1_0000_0000
  }

  /** Pop and send. A queued fragment whose packet is gone would be a dangling pointer; QueueLive
      shows that there is none. */
  ghost function NextTransmit(s: System): System
    requires s.queue != []
  {
    var f := s.queue[0];
    if FragmentLive(s, f) then
      var p := s.sender[f.0 - Base(s)];
      s.(queue := s.queue[1..],
         network := s.network + {(f.0, Encoded(Fragment(p.pid, |p.frags|, f.1, p.frags[f.1].value)))})
    else s
  }

  /** Fragment fid of the live packet pid is queued, unless it is already. */
  ghost function AskedFor(t: System, pid: uint16, fid: uint16): System {
    match Index(t.sender, pid)
    case Some(i) =>
      if Base(t) + i >= 0 && fid < |t.sender[i].frags| then Queued(t, (Base(t) + i, fid)) else t
    case None => t
  }

  ghost function Queued(t: System, f: (nat, nat)): System {
    if f in t.queue then t else t.(queue := t.queue + [f])
  }

  ghost function NextResend(c: Config, s: System, pid: uint16, fid: uint16, now: int): System {
    AskedFor(Refresh(c, s, now), pid, fid)
  }

  /** The system after a receive that did r. */
  ghost function Delivered(s: System, n: nat, now: int, later: int, raw: bytes, r: Reception): System {
    s.(receiver := r.bucket, tags := s.tags[Pid(n) := n], clock := later,
       log := s.log + [Receipt(n, r.fid, now, later, raw, r.created, r.ready, r.result)])
  }

  ghost function NextDeliver(c: Config, s: System, n: nat, d: bytes, now: int, later: int, buffer: bytes): System
    requires |d| <= |buffer| && IsFragment(d)
  {
    var raw := Overwritten(d, buffer);
    Delivered(s, n, now, later, raw, Received(s.receiver, c.maxAge, now, later, Decoded(d).value, raw))
  }

  ghost function Next(c: Config, s: System, a: Action): System
    requires ConfigOk(c) && Enabled(c, s, a)
  {
    match a
    case Enqueue(data, now) => NextEnqueue(c, s, data, now)
    case Transmit => NextTransmit(s)
    case Resend(pid, fid, now) => NextResend(c, s, pid, fid, now)
    case Deliver(serial, d, now, later, buffer) =>
      if IsFragment(d) then NextDeliver(c, s, serial, d, now, later, buffer) else s
  }

  /** The sender's steps leave the receiver alone, and the packets enqueued before. */
  lemma SenderSteps(c: Config, s: System, a: Action)
    requires ConfigOk(c) && Enabled(c, s, a) && !a.Deliver?
    ensures var u := Next(c, s, a);
            && s.history <= u.history && s.clock <= u.clock
            && u.receiver == s.receiver && u.tags == s.tags && u.log == s.log
            && u.times == if a.Enqueue? then s.times + [a.now] else s.times
  {
  }

  /** Every queued fragment is there to be sent. */
  lemma QueueLive(c: Config, s: System, k: nat)
    requires ConfigOk(c) && SenderInv(c, s) && k < |s.queue|
    ensures var (n, fid) := s.queue[k];
            && FragmentLive(s, s.queue[k])
            && s.sender[n - Base(s)].pid == Pid(n)
            && s.sender[n - Base(s)].frags == AllPresent(Pieces(c, s, n))
            && fid < |Pieces(c, s, n)| && SmallPieces(Pieces(c, s, n))
  {
    var (n, fid) := s.queue[k];
    assert LiveAt(c, s, n);
    PiecesSmall(s.history[n], c.fragSize);
  }

  lemma PiecesSmall(data: bytes, fragSize: nat)
    requires 0 < fragSize < 0x8000_0000
    ensures SmallPieces(Split(data, fragSize))
  {
    forall i: nat | i < |Split(data, fragSize)| ensures |Split(data, fragSize)[i]| <= fragSize {
      PieceSizes(data, fragSize, i);
    }
  }

  // ---- every step keeps the invariant ----

  lemma {:induction false} UnexpiredMembers(q: seq<(nat, nat)>, base: int)
    ensures forall f | f in Unexpired(q, base) :: f in q && f.0 >= base
  {
    if q != [] {
      UnexpiredMembers(q[1..], base);
    }
  }

  lemma {:induction false} UnexpiredDistinct(q: seq<(nat, nat)>, base: int)
    requires NoRepeats(q)
    ensures NoRepeats(Unexpired(q, base))
  {
    if q != [] {
      UnexpiredDistinct(q[1..], base);
      UnexpiredMembers(q[1..], base);
      assert q[0] !in q[1..];
    }
  }

  ghost predicate LogOk(c: Config, s: System)
    requires ConfigOk(c)
  {
    forall k | 0 <= k < |s.log| :: Faithful(c, s, s.log[k])
  }

  /** A step of the sender leaves the receiver's side right. */
  lemma ReceiverKept(c: Config, s: System, u: System)
    requires ConfigOk(c) && ReceiverOk(c, s) && LogOk(c, s) && s.history <= u.history && s.clock <= u.clock
    requires u.receiver == s.receiver && u.tags == s.tags && u.log == s.log
    ensures ReceiverOk(c, u) && LogOk(c, u)
  {
    forall n | 0 <= n < |s.history| ensures Pieces(c, u, n) == Pieces(c, s, n) {}
    forall p | p in u.receiver ensures Tagged(c, u, p) {
      assert Tagged(c, s, p);
    }
    LogKept(c, s, u);
  }

  lemma LogKept(c: Config, s: System, u: System)
    requires ConfigOk(c) && LogOk(c, s) && s.history <= u.history && u.log == s.log
    ensures LogOk(c, u)
  {
    forall k | 0 <= k < |u.log| ensures Faithful(c, u, u.log[k]) {
      assert Faithful(c, s, s.log[k]);
    }
  }

  lemma SenderKept(c: Config, s: System, u: System)
    requires ConfigOk(c) && SenderOk(c, s) && s.clock <= u.clock
    requires u.history == s.history && u.times == s.times && u.sender == s.sender
    ensures SenderOk(c, u)
  {
    forall n | Base(u) <= n < |u.history| ensures LiveAt(c, u, n) {
      assert LiveAt(c, s, n);
    }
  }

  lemma QueueKept(c: Config, s: System, u: System)
    requires ConfigOk(c) && QueueOk(c, s)
    requires u.history == s.history && |u.sender| == |s.sender| && u.queue == s.queue
    ensures QueueOk(c, u)
  {
  }

  lemma NetworkKept(c: Config, s: System, u: System)
    requires ConfigOk(c) && NetworkOk(c, s) && s.history <= u.history && u.network == s.network
    ensures NetworkOk(c, u)
  {
    forall n | 0 <= n < |s.history| ensures Pieces(c, u, n) == Pieces(c, s, n) {}
  }

  lemma RefreshSender(c: Config, s: System, now: int)
    requires ConfigOk(c) && SenderOk(c, s) && now >= s.clock
    ensures SenderOk(c, Refresh(c, s, now))
  {
    var t := Refresh(c, s, now);
    SenderSuffix(c, s, t);
  }

  lemma SenderSuffix(c: Config, s: System, t: System)
    requires ConfigOk(c) && SenderOk(c, s) && t.clock >= s.clock && t.history == s.history && t.times == s.times
    requires |t.sender| <= |s.sender| && t.sender == s.sender[|s.sender| - |t.sender|..]
    ensures SenderOk(c, t)
  {
    forall n | Base(t) <= n < |t.history| ensures LiveAt(c, t, n) {
      assert LiveAt(c, s, n);
    }
  }

  lemma RefreshQueue(c: Config, s: System, now: int)
    requires ConfigOk(c) && QueueOk(c, s)
    ensures QueueOk(c, Refresh(c, s, now))
  {
    var t := Refresh(c, s, now);
    UnexpiredMembers(s.queue, Base(t));
    UnexpiredDistinct(s.queue, Base(t));
    forall k | 0 <= k < |t.queue|
      ensures Base(t) <= t.queue[k].0 < |t.history| && t.queue[k].1 < |Pieces(c, t, t.queue[k].0)|
    {
      assert t.queue[k] in t.queue;
      var j :| 0 <= j < |s.queue| && s.queue[j] == t.queue[k];
    }
  }

  lemma RefreshInv(c: Config, s: System, now: int)
    requires ConfigOk(c) && SenderInv(c, s) && now >= s.clock
    ensures SenderInv(c, Refresh(c, s, now))
  {
    RefreshSender(c, s, now);
    RefreshQueue(c, s, now);
    NetworkKept(c, s, Refresh(c, s, now));
  }

  /** Nothing known about old packets changes when the history grows. */
  lemma EnqueueInv(c: Config, s: System, data: bytes, now: int)
    requires ConfigOk(c) && SenderInv(c, s) && Enabled(c, s, Enqueue(data, now))
    ensures SenderInv(c, NextEnqueue(c, s, data, now))
  {
    RefreshSender(c, s, now);
    RefreshQueue(c, s, now);
    var t, u := Refresh(c, s, now), NextEnqueue(c, s, data, now);
    EnqueueSender(c, t, u, data, now);
    EnqueueQueue(c, t, u, data);
    NetworkKept(c, s, u);
  }

  lemma EnqueueSender(c: Config, t: System, u: System, data: bytes, now: int)
    requires ConfigOk(c) && SenderOk(c, t) && |t.sender| < 0x1_0000 && data != [] && t.clock == now == u.clock
    requires u.history == t.history + [data] && u.times == t.times + [now]
    requires u.sender == t.sender + [NewPacket(Pid(|t.history|), now, data, c.fragSize)]
    ensures SenderOk(c, u)
  {
    forall n | Base(u) <= n < |u.history| ensures LiveAt(c, u, n) {
      if n < |t.history| { assert LiveAt(c, t, n); }
    }
  }

  lemma EnqueueQueue(c: Config, t: System, u: System, data: bytes)
    requires ConfigOk(c) && QueueOk(c, t) && u.history == t.history + [data] && |u.sender| == |t.sender| + 1
    requires u.queue == NewFragments(|t.history|, FragNum(|data|, c.fragSize)) + t.queue
    requires |t.sender| <= |t.history|
    ensures QueueOk(c, u)
  {
    var k := FragNum(|data|, c.fragSize);
    forall j | 0 <= j < |u.queue|
      ensures Base(u) <= u.queue[j].0 < |u.history| && u.queue[j].1 < |Pieces(c, u, u.queue[j].0)|
      ensures j < k ==> u.queue[j] == (|t.history|, j)
      ensures j >= k ==> u.queue[j].0 < |t.history|
    {
      if j >= k { assert u.queue[j] == t.queue[j - k]; }
    }
  }

  lemma TransmitInv(c: Config, s: System)
    requires ConfigOk(c) && SenderInv(c, s) && s.queue != []
    ensures SenderInv(c, NextTransmit(s))
  {
    TransmitIs(c, s);
    Transmitted(c, s, NextTransmit(s), s.queue[0].0, s.queue[0].1);
  }

  /** The first fragment in the queue goes into the network. */
  lemma TransmitIs(c: Config, s: System)
    requires ConfigOk(c) && SenderInv(c, s) && s.queue != []
    ensures var (n, fid) := s.queue[0];
            && n < |s.history| && SmallPieces(Pieces(c, s, n)) && fid < |Pieces(c, s, n)|
            && NextTransmit(s) == s.(queue := s.queue[1..],
                                     network := s.network + {(n, Datagram(Pid(n), Pieces(c, s, n), fid))})
  {
    QueueLive(c, s, 0);
  }

  lemma Transmitted(c: Config, s: System, u: System, n: nat, fid: nat)
    requires ConfigOk(c) && SenderInv(c, s) && s.queue != [] && n < |s.history|
    requires SmallPieces(Pieces(c, s, n)) && fid < |Pieces(c, s, n)|
    requires u == s.(queue := s.queue[1..], network := s.network + {(n, Datagram(Pid(n), Pieces(c, s, n), fid))})
    ensures SenderInv(c, u)
  {
    TransmitNetwork(c, s, u, n, fid);
    SenderKept(c, s, u);
    forall k | 0 <= k < |u.queue| ensures u.queue[k] == s.queue[k + 1] {}
  }

  lemma TransmitNetwork(c: Config, s: System, u: System, n: nat, fid: nat)
    requires ConfigOk(c) && NetworkOk(c, s) && u.history == s.history && n < |s.history|
    requires SmallPieces(Pieces(c, s, n)) && fid < |Pieces(c, s, n)|
    requires u.network == s.network + {(n, Datagram(Pid(n), Pieces(c, s, n), fid))}
    ensures NetworkOk(c, u)
  {
    forall m | m in u.network
      ensures m.0 < |u.history| && SmallPieces(Pieces(c, u, m.0)) && IsDatagram(Pid(m.0), Pieces(c, u, m.0), m.1)
    {
      assert m in s.network || m == (n, Datagram(Pid(n), Pieces(c, s, n), fid));
    }
  }

  lemma ResendInv(c: Config, s: System, pid: uint16, fid: uint16, now: int)
    requires ConfigOk(c) && SenderInv(c, s) && now >= s.clock
    ensures SenderInv(c, NextResend(c, s, pid, fid, now))
  {
    RefreshInv(c, s, now);
    AskedForInv(c, Refresh(c, s, now), pid, fid);
  }

  lemma AskedForInv(c: Config, t: System, pid: uint16, fid: uint16)
    requires ConfigOk(c) && SenderInv(c, t)
    ensures SenderInv(c, AskedFor(t, pid, fid))
  {
    var n := FragmentAsked(t, pid, fid);
    if AskedFor(t, pid, fid) != t {
      QueuedInv(c, t, n, fid);
    }
  }

  lemma FragmentAsked(t: System, pid: uint16, fid: uint16) returns (n: nat)
    requires Base(t) >= 0
    ensures AskedFor(t, pid, fid) != t ==>
              && Base(t) <= n < |t.history| && fid < |t.sender[n - Base(t)].frags|
              && AskedFor(t, pid, fid) == Queued(t, (n, fid))
  {
    n := Base(t) + match Index(t.sender, pid) case Some(i) => i case None => 0;
  }

  lemma QueuedInv(c: Config, t: System, n: nat, fid: nat)
    requires ConfigOk(c) && SenderInv(c, t)
    requires Base(t) <= n < |t.history| && fid < |t.sender[n - Base(t)].frags|
    ensures SenderInv(c, Queued(t, (n, fid)))
  {
    if (n, fid) !in t.queue {
      var u := Queued(t, (n, fid));
      assert LiveAt(c, t, n);
      ResendQueue(c, t, u, (n, fid));
      SenderKept(c, t, u);
      NetworkKept(c, t, u);
    }
  }

  lemma ResendQueue(c: Config, t: System, u: System, f: (nat, nat))
    requires ConfigOk(c) && QueueOk(c, t) && f !in t.queue
    requires Base(t) <= f.0 < |t.history| && f.1 < |Pieces(c, t, f.0)|
    requires u == t.(queue := t.queue + [f])
    ensures QueueOk(c, u)
  {
    forall j | 0 <= j < |u.queue|
      ensures Base(u) <= u.queue[j].0 < |u.history| && u.queue[j].1 < |Pieces(c, u, u.queue[j].0)|
      ensures j < |t.queue| ==> u.queue[j] in t.queue
    {}
  }

  /** A datagram carries a piece of the packet it is from. */
  lemma DatagramIs(c: Config, s: System, n: nat, d: bytes) returns (fid: nat)
    requires ConfigOk(c) && NetworkOk(c, s) && (n, d) in s.network
    ensures n < |s.history| && SmallPieces(Pieces(c, s, n)) && fid < |Pieces(c, s, n)|
    ensures IsFragment(d) && Decoded(d).value == FragmentOf(Pid(n), Pieces(c, s, n), fid)
  {
    var pieces := Pieces(c, s, n);
    assert IsDatagram(Pid(n), pieces, (n, d).1);
    fid :| fid < |pieces| && d == Datagram(Pid(n), pieces, fid);
    DatagramDecodes(Pid(n), pieces, fid);
  }

  lemma HeldByTag(c: Config, s: System, n: nat, now: int)
    requires ConfigOk(c) && ReceiverOk(c, s) && n < |s.history| && OnlyOf(c, s, n, now) && s.clock <= now
    ensures YoungAgree(s.receiver, c.maxAge, now, Pid(n), Pieces(c, s, n)) && WellFormed(s.receiver, now)
  {
    forall p | p in s.receiver && p.pid == Pid(n) && !Expired(p, now, c.maxAge)
      ensures Agrees(p.frags, Pieces(c, s, n))
    {
      assert Tagged(c, s, p);
    }
  }

  /** Receiving piece fid of packet n, which is being assembled as p, did r. */
  ghost predicate Receipted(c: Config, s: System, n: nat, fid: nat, p: Packet, now: int, later: int, raw: bytes,
                            r: Reception)
    requires ConfigOk(c)
  {
    && n < |s.history| && fid < |Pieces(c, s, n)|
    && IsAssembly(s.receiver, c.maxAge, now, Pid(n), |Pieces(c, s, n)|, p)
    && Receives(s.receiver, c.maxAge, now, later, p, Pieces(c, s, n), fid, raw, r)
    && WellFormed(r.bucket, later)
  }

  /** A delivery that mixes no packets files a piece of the packet its datagram is from. */
  lemma DeliverIs(c: Config, s: System, a: Action) returns (fid: nat, p: Packet, r: Reception)
    requires ConfigOk(c) && Inv(c, s) && Enabled(c, s, a) && NoMix(c, s, a) && a.Deliver?
    ensures Receipted(c, s, a.serial, fid, p, a.now, a.later, Overwritten(a.datagram, a.buffer), r)
    ensures Next(c, s, a) == Delivered(s, a.serial, a.now, a.later, Overwritten(a.datagram, a.buffer), r)
  {
    fid := DatagramIs(c, s, a.serial, a.datagram);
    p, r := ReceivePiece(c, s, a.serial, fid, a.now, a.later, Overwritten(a.datagram, a.buffer));
  }

  lemma ReceivePiece(c: Config, s: System, n: nat, fid: nat, now: int, later: int, raw: bytes)
      returns (p: Packet, r: Reception)
    requires ConfigOk(c) && ReceiverOk(c, s) && n < |s.history| && OnlyOf(c, s, n, now) && s.clock <= now <= later
    requires SmallPieces(Pieces(c, s, n)) && fid < |Pieces(c, s, n)|
    ensures r == Received(s.receiver, c.maxAge, now, later, FragmentOf(Pid(n), Pieces(c, s, n), fid), raw)
    ensures Receipted(c, s, n, fid, p, now, later, raw, r)
  {
    HeldByTag(c, s, n, now);
    p := ReceivedExact(s.receiver, c.maxAge, now, later, Pid(n), Pieces(c, s, n), fid, raw);
    r := Received(s.receiver, c.maxAge, now, later, FragmentOf(Pid(n), Pieces(c, s, n), fid), raw);
  }

  lemma DeliverInv(c: Config, s: System, n: nat, fid: nat, p: Packet, now: int, later: int, raw: bytes, r: Reception)
    requires ConfigOk(c) && Inv(c, s) && s.clock <= later && Receipted(c, s, n, fid, p, now, later, raw, r)
    ensures Inv(c, Delivered(s, n, now, later, raw, r))
  {
    var u := Delivered(s, n, now, later, raw, r);
    SenderKept(c, s, u);
    QueueKept(c, s, u);
    NetworkKept(c, s, u);
    DeliverTagged(c, s, u, n, fid, p, now, later, raw, r);
    DeliverLog(c, s, u, u.log[|s.log|]);
  }

  /** After filing, everything in the bucket is tagged by the new tags. */
  lemma DeliverTagged(c: Config, s: System, u: System, n: nat, fid: nat, p: Packet, now: int, later: int, raw: bytes,
                      r: Reception)
    requires ConfigOk(c) && AllTagged(c, s, s.receiver) && Receipted(c, s, n, fid, p, now, later, raw, r)
    requires u.history == s.history && u.tags == s.tags[Pid(n) := n]
    ensures AllTagged(c, u, r.bucket)
  {
    forall x | x in r.bucket ensures Tagged(c, u, x) {
      if x.pid != Pid(n) {
        assert Tagged(c, s, x);
      }
    }
  }

  lemma DeliverLog(c: Config, s: System, u: System, r: Receipt)
    requires ConfigOk(c) && LogOk(c, s) && u.history == s.history && u.log == s.log + [r]
    requires r.serial < |s.history| && r.fid < |Pieces(c, s, r.serial)|
    requires r.result == Reported(r.ready, InTime(c, r), Pieces(c, s, r.serial), r.raw)
    ensures LogOk(c, u)
  {
    forall k | 0 <= k < |u.log| ensures Faithful(c, u, u.log[k]) {
      if k < |s.log| {
        assert Faithful(c, s, s.log[k]);
      }
    }
  }

  lemma StepInv(c: Config, s: System, a: Action)
    requires ConfigOk(c) && Inv(c, s) && Enabled(c, s, a) && NoMix(c, s, a)
    ensures Inv(c, Next(c, s, a))
  {
    if a.Deliver? {
      var fid, p, r := DeliverIs(c, s, a);
      DeliverInv(c, s, a.serial, fid, p, a.now, a.later, Overwritten(a.datagram, a.buffer), r);
    } else {
      SendInv(c, s, a);
      SenderSteps(c, s, a);
      ReceiverKept(c, s, Next(c, s, a));
    }
  }

  lemma SendInv(c: Config, s: System, a: Action)
    requires ConfigOk(c) && SenderInv(c, s) && Enabled(c, s, a) && !a.Deliver?
    ensures SenderInv(c, Next(c, s, a))
  {
    match a
    case Enqueue(data, now) => EnqueueInv(c, s, data, now);
    case Transmit => TransmitInv(c, s);
    case Resend(pid, fid, now) => ResendInv(c, s, pid, fid, now);
  }

  // ---- runs ----

  /** Action k leads from state k to state k+1. */
  ghost predicate IsRun(c: Config, states: seq<System>, acts: seq<Action>)
    requires ConfigOk(c)
  {
    && |states| == |acts| + 1
    && forall k {:trigger acts[k]} | 0 <= k < |acts| :: states[k + 1] in After(c, states[k], acts[k])
  }

  /** Where an action may lead. */
  ghost function After(c: Config, s: System, a: Action): set<System>
    requires ConfigOk(c)
  {
    if Enabled(c, s, a) then {Next(c, s, a)} else {}
  }

  /** No delivery mixes packets. */
  ghost predicate Unmixed(c: Config, states: seq<System>, acts: seq<Action>)
    requires |states| == |acts| + 1
  {
    forall k {:trigger acts[k]} | 0 <= k < |acts| :: NoMix(c, states[k], acts[k])
  }

  lemma StepAt(c: Config, states: seq<System>, acts: seq<Action>, k: nat)
    requires ConfigOk(c) && IsRun(c, states, acts) && Unmixed(c, states, acts) && k < |acts| && Inv(c, states[k])
    ensures Inv(c, states[k + 1])
  {
    assert states[k + 1] in After(c, states[k], acts[k]) && NoMix(c, states[k], acts[k]);
    StepInv(c, states[k], acts[k]);
  }

  lemma {:induction false} RunInv(c: Config, states: seq<System>, acts: seq<Action>, k: nat)
    requires ConfigOk(c) && IsRun(c, states, acts) && Unmixed(c, states, acts) && Inv(c, states[0]) && k < |states|
    ensures Inv(c, states[k])
  {
    if k > 0 {
      RunInv(c, states, acts, k - 1);
      StepAt(c, states, acts, k - 1);
    }
  }

  lemma InitInv(c: Config, s: System)
    requires ConfigOk(c) && Init(s)
    ensures Inv(c, s)
  {
  }

  /** End-to-end integrity: in every run, what a receive reports is the packet that was enqueued
      exactly when the packet was complete and, if it was still young at the second reading of the
      clock, the buffer was larger than the packet and its fragments fit in 16 bits; or else, if the
      caller's buffer happened to hold the packet. */
  lemma Integrity(c: Config, states: seq<System>, acts: seq<Action>, j: nat, k: nat)
    requires ConfigOk(c) && IsRun(c, states, acts) && Unmixed(c, states, acts) && Init(states[0])
    requires j < |states| && k < |states[j].log|
    ensures ReportsExactly(c, states[j], states[j].log[k])
  {
    InitInv(c, states[0]);
    RunInv(c, states, acts, j);
    assert Faithful(c, states[j], states[j].log[k]);
    FaithfulMeans(c, states[j], states[j].log[k]);
  }

  ghost predicate ReportsExactly(c: Config, s: System, r: Receipt)
    requires ConfigOk(c)
  {
    && r.serial < |s.history|
    && (!r.ready ==> r.result == [])
    && var data := s.history[r.serial];
       r.result == data <==>
         r.ready && if InTime(c, r) then |data| < |r.raw| && Count(|data|, c.fragSize) < FRAG_IDS else r.raw == data
  }

  lemma FaithfulMeans(c: Config, s: System, r: Receipt)
    requires ConfigOk(c) && Faithful(c, s, r) && s.history[r.serial] != []
    ensures ReportsExactly(c, s, r)
  {
    ReportedExact(s.history[r.serial], c.fragSize, r.ready, InTime(c, r), r.raw);
  }
}
