/** Recovery from loss: asking for the gaps, sending those fragments again and delivering them gets a
    packet through. */
module Recovery {
  import opened Buckets
  import opened Bytes
  import opened Delivery
  import opened EndToEnd
  import opened Fragmentation
  import opened Receive
  import opened Wrappers

  /** The sender still has packet n, and it has not expired. */
  ghost predicate Alive(c: Config, s: System, n: nat) {
    Base(s) <= n < |s.history| == |s.times| && s.clock - s.times[n] < c.maxAge
  }

  /** A refresh spares it. */
  lemma AliveKept(c: Config, s: System, n: nat)
    requires ConfigOk(c) && Inv(c, s) && Alive(c, s, n)
    ensures Alive(c, Refresh(c, s, s.clock), n)
  {
    var i := n - Base(s);
    assert LiveAt(c, s, n);
    SenderTimes(c, s);
    RefreshKeeps(s.sender, s.clock, c.maxAge, i);
  }

  lemma SenderTimes(c: Config, s: System)
    requires ConfigOk(c) && SenderOk(c, s)
    ensures TimeSorted(s.sender)
  {
    forall i, j | 0 <= i <= j < |s.sender| ensures s.sender[i].created <= s.sender[j].created {
      assert LiveAt(c, s, Base(s) + i) && LiveAt(c, s, Base(s) + j);
    }
  }

  lemma SenderPids(c: Config, s: System)
    requires ConfigOk(c) && SenderOk(c, s)
    ensures PidsDistinct(s.sender)
  {
    forall i, j | 0 <= i < j < |s.sender| ensures s.sender[i].pid != s.sender[j].pid {
      assert LiveAt(c, s, Base(s) + i) && LiveAt(c, s, Base(s) + j);
      PidsApart(Base(s) + i, Base(s) + j);
    }
  }

  lemma PidsApart(n: nat, m: nat)
    requires n < m < n + 0x1_0000
    ensures Pid(n) != Pid(m)
  {
  }

  /** The sender finds a live packet by its id. */
  lemma SenderIndex(c: Config, s: System, n: nat)
    requires ConfigOk(c) && SenderOk(c, s) && Base(s) <= n < |s.history|
    ensures Index(s.sender, Pid(n)) == Some(n - Base(s))
    ensures |s.sender[n - Base(s)].frags| == |Pieces(c, s, n)|
  {
    assert LiveAt(c, s, n);
    SenderPids(c, s);
    IndexUnique(s.sender, Pid(n), n - Base(s));
  }

  lemma {:induction false} UnexpiredKeeps(q: seq<(nat, nat)>, base: int, f: (nat, nat))
    requires f in q && f.0 >= base
    ensures f in Unexpired(q, base)
  {
    if q[0] != f {
      UnexpiredKeeps(q[1..], base, f);
    }
  }

  /** u is s after asking for fragments of packet n: what was queued of it still is. */
  ghost predicate Asked(c: Config, s: System, u: System, n: nat) {
    && u.history == s.history && u.network == s.network && SameReceiver(s, u) && Alive(c, u, n)
    && forall g :: (n, g) in s.queue ==> (n, g) in u.queue
  }

  /** Asking for a fragment of a live packet puts it into the queue, unless it is there. */
  lemma ResendOne(c: Config, s0: System, s: System, n: nat, fid: uint16) returns (u: System)
    requires ConfigOk(c) && Leads(c, s0, s) && Inv(c, s) && Alive(c, s, n) && fid < |Pieces(c, s, n)|
    ensures Leads(c, s0, u) && Inv(c, u) && Asked(c, s, u, n) && (n, fid) in u.queue
  {
    u := ResendNow(c, s0, s, Pid(n), fid);
    AliveKept(c, s, n);
    RefreshSender(c, s, s.clock);
    AskedForIs(c, Refresh(c, s, s.clock), n, fid);
    AskedOne(c, s, Refresh(c, s, s.clock), u, n, fid);
  }

  lemma ResendNow(c: Config, s0: System, s: System, pid: uint16, fid: uint16) returns (u: System)
    requires ConfigOk(c) && Leads(c, s0, s) && Inv(c, s)
    ensures Leads(c, s0, u) && Inv(c, u) && u == NextResend(c, s, pid, fid, s.clock)
  {
    LeadsOn(c, s0, s, Resend(pid, fid, s.clock));
    StepInv(c, s, Resend(pid, fid, s.clock));
    u := NextResend(c, s, pid, fid, s.clock);
  }

  lemma AskedForIs(c: Config, t: System, n: nat, fid: uint16)
    requires ConfigOk(c) && SenderOk(c, t) && Base(t) <= n < |t.history| && fid < |Pieces(c, t, n)|
    ensures AskedFor(t, Pid(n), fid) == Queued(t, (n, fid))
  {
    SenderIndex(c, t, n);
  }

  lemma AskedOne(c: Config, s: System, t: System, u: System, n: nat, fid: nat)
    requires u == Queued(t, (n, fid)) && Alive(c, t, n)
    requires t.history == s.history && t.network == s.network && SameReceiver(s, t)
    requires t.queue == Unexpired(s.queue, Base(t))
    ensures Asked(c, s, u, n) && (n, fid) in u.queue
  {
    forall g | (n, g) in s.queue ensures (n, g) in u.queue {
      UnexpiredKeeps(s.queue, Base(t), (n, g));
    }
  }

  lemma {:induction false} ResendAll(c: Config, s0: System, s: System, n: nat, ids: seq<nat>) returns (u: System)
    requires ConfigOk(c) && Leads(c, s0, s) && Inv(c, s) && Alive(c, s, n)
    requires forall f | f in ids :: f < |Pieces(c, s, n)|
    ensures Leads(c, s0, u) && Inv(c, u) && Asked(c, s, u, n) && AllQueued(u, n, ids)
    decreases |ids|
  {
    if ids == [] {
      u := s;
    } else {
      assert ids[0] in ids && forall f | f in ids[1..] :: f in ids;
      var v := ResendOne(c, s0, s, n, ids[0]);
      u := ResendAll(c, s0, v, n, ids[1..]);
      assert forall f | f in ids :: f == ids[0] || f in ids[1..];
    }
  }

  /** With the top fragment in, the requests are exactly for what is missing. */
  lemma RequestedMissing(frags: Frags)
    requires frags != [] && Highest(frags) == |frags| - 1
    ensures Missing(frags, Requested(frags))
  {
    RequestsExact(frags);
    MissingBelow(frags, Requested(frags));
  }

  lemma MissingBelow(frags: Frags, r: seq<nat>)
    requires frags != [] && frags[|frags| - 1].Some?
    requires forall i: nat :: i in r <==> i < |frags| && frags[i] == None && (i < |frags| - 1 || i == 0)
    requires forall a, b | 0 <= a < b < |r| :: r[a] > r[b]
    ensures Missing(frags, r)
  {
  }

  /** The receiver is assembling packet n as p and has its top fragment; the sender still has the
      packet. Sending again exactly the fragments that the receiver asks for, and delivering them in
      that order, gets the packet reported byte for byte with the last of them. */
  lemma RecoversLoss(c: Config, s: System, n: nat, p: Packet, buffer: bytes) returns (t: System)
    requires ConfigOk(c) && Inv(c, s) && Assembles(c, s, n, p) && Alive(c, s, n) && Fits(c, s.history[n], buffer)
    requires p.frags != [] && Highest(p.frags) == |p.frags| - 1 && !Complete(p.frags)
    requires |p.frags| == |Pieces(c, s, n)|
    ensures Leads(c, s, t) && HeardAll(s, t, n, Requested(p.frags))
    ensures t.log != [] && t.log[|t.log| - 1].result == s.history[n]
  {
    var ids := Requested(p.frags);
    RequestedMissing(p.frags);
    ReadyExact(p.frags);
    LeadsNowhere(c, s);
    var u := ResendAll(c, s, s, n, ids);
    t := SendAndDeliver(c, s, u, n, ids, p, buffer);
  }

  /** Those fragments are the ones asked for when the last piece was filed. */
  lemma AskedAre(b: Bucket, maxAge: nat, now: int, pid: uint16, pieces: seq<bytes>, fid: nat, p: Packet)
    requires WellFormed(b, now) && |pieces| < FRAG_IDS && fid < |pieces| == |p.frags|
    requires IsAssembly(b, maxAge, now, pid, |pieces|, p)
    ensures AddedFragment(b, now, maxAge, pid, |pieces|, fid, pieces[fid]).2 ==
            Requested(p.frags[fid := Some(pieces[fid])])
  {
    AssemblyIs(b, maxAge, now, pid, |pieces|);
    AssemblyUnique(b, maxAge, now, pid, |pieces|, p, Assembly(b, maxAge, now, pid, |pieces|));
  }
}
