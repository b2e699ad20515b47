/** When the runs of EndToEnd cannot mix packets that share an id: with at most 2^16 packets, or
    when ids are reused late enough for the life of a datagram. */
module EndToEndReuse {
  import opened Buckets
  import opened Bytes
  import opened DeliveryTrace
  import opened EndToEnd
  import opened Receive

  // ---- few packets ----

  /** Among the first 2^16 packets no two share an id. */
  lemma FewPacketsDoNotMix(c: Config, s: System, a: Action)
    requires ConfigOk(c) && Inv(c, s) && Enabled(c, s, a) && |s.history| <= 0x1_0000
    ensures NoMix(c, s, a)
  {
    if a.Deliver? {
      var fid := DatagramIs(c, s, a.serial, a.datagram);
      forall p | p in s.receiver && p.pid == Pid(a.serial) && p.pid in s.tags ensures s.tags[p.pid] == a.serial {
        assert Tagged(c, s, p);
        SameSerial(s.tags[p.pid], a.serial);
      }
    }
  }

  lemma SameSerial(n: nat, m: nat)
    requires n < 0x1_0000 && m < 0x1_0000 && Pid(n) == Pid(m)
    ensures n == m
  {
  }

  lemma HistoryStep(c: Config, s: System, a: Action)
    requires ConfigOk(c) && Enabled(c, s, a)
    ensures |s.history| <= |Next(c, s, a).history|
  {
  }

  lemma HistoryAt(c: Config, states: seq<System>, acts: seq<Action>, k: nat)
    requires ConfigOk(c) && IsRun(c, states, acts) && k < |acts|
    ensures |states[k].history| <= |states[k + 1].history|
  {
    assert states[k + 1] in After(c, states[k], acts[k]);
    HistoryStep(c, states[k], acts[k]);
  }

  lemma {:induction false} HistoryGrows(c: Config, states: seq<System>, acts: seq<Action>, j: nat, k: nat)
    requires ConfigOk(c) && IsRun(c, states, acts) && j <= k < |states|
    ensures |states[j].history| <= |states[k].history|
  {
    if j < k {
      HistoryGrows(c, states, acts, j, k - 1);
      HistoryAt(c, states, acts, k - 1);
    }
  }

  lemma FewPacketStep(c: Config, states: seq<System>, acts: seq<Action>, k: nat)
    requires ConfigOk(c) && IsRun(c, states, acts) && k < |acts| && Inv(c, states[k])
    requires |states[k].history| <= 0x1_0000
    ensures NoMix(c, states[k], acts[k]) && Inv(c, states[k + 1])
  {
    assert states[k + 1] in After(c, states[k], acts[k]);
    FewPacketsDoNotMix(c, states[k], acts[k]);
    StepInv(c, states[k], acts[k]);
  }

  lemma FewPacketAt(c: Config, states: seq<System>, acts: seq<Action>, k: nat)
    requires ConfigOk(c) && IsRun(c, states, acts) && k < |acts| && Inv(c, states[k])
    requires |states[k].history| <= 0x1_0000
    ensures Inv(c, states[k + 1])
  {
    FewPacketStep(c, states, acts, k);
  }

  lemma {:induction false} FewPacketInv(c: Config, states: seq<System>, acts: seq<Action>, k: nat)
    requires ConfigOk(c) && IsRun(c, states, acts) && Init(states[0]) && k < |states|
    requires |states[k].history| <= 0x1_0000
    ensures Inv(c, states[k])
  {
    if k == 0 {
      InitInv(c, states[0]);
    } else {
      HistoryGrows(c, states, acts, k - 1, k);
      FewPacketInv(c, states, acts, k - 1);
      FewPacketAt(c, states, acts, k - 1);
    }
  }

  /** Such a run mixes no packets. */
  lemma FewPacketUnmixed(c: Config, states: seq<System>, acts: seq<Action>)
    requires ConfigOk(c) && IsRun(c, states, acts) && Init(states[0]) && |states[|acts|].history| <= 0x1_0000
    ensures Unmixed(c, states, acts)
  {
    forall k | 0 <= k < |acts| ensures NoMix(c, states[k], acts[k]) {
      HistoryGrows(c, states, acts, k, |acts|);
      FewPacketInv(c, states, acts, k);
      FewPacketStep(c, states, acts, k);
    }
  }

  /** Integrity of every run of at most 2^16 packets, whatever the network does. MixingRun shows
      that one packet more is too many. */
  lemma FewPacketIntegrity(c: Config, states: seq<System>, acts: seq<Action>, j: nat, k: nat)
    requires ConfigOk(c) && IsRun(c, states, acts) && Init(states[0]) && |states[|acts|].history| <= 0x1_0000
    requires j < |states| && k < |states[j].log|
    ensures ReportsTraced(c, states[j], k)
  {
    FewPacketUnmixed(c, states, acts);
    TraceIntegrity(c, states, acts, j, k);
  }

  // ---- late reuse ----

  /** A packet is enqueued no sooner than every fragment of an earlier packet with its id has left the
      network (D after its packet was enqueued) and has aged at the receiver; and no datagram
      arrives more than D after its packet was enqueued. */
  ghost predicate Timely(c: Config, s: System, a: Action, D: nat) {
    match a
    case Enqueue(_, now) =>
      forall n | 0 <= n < |s.times| && Pid(n) == Pid(|s.history|) :: now >= s.times[n] + D + c.maxAge
    case Deliver(serial, _, now, _, _) => serial < |s.times| && now <= s.times[serial] + D
    case _ => true
  }

  ghost predicate Spaced(c: Config, s: System, D: nat) {
    forall n, m | 0 <= n < m < |s.times| && Pid(n) == Pid(m) :: s.times[m] >= s.times[n] + D + c.maxAge
  }

  /** A packet under assembly was opened by a fragment that was not late. */
  ghost predicate OpenedInTime(s: System, p: Packet, D: nat) {
    && p.pid in s.tags && s.tags[p.pid] < |s.times|
    && s.times[s.tags[p.pid]] <= p.created <= s.times[s.tags[p.pid]] + D
  }

  ghost predicate AllOpenedInTime(s: System, b: Bucket, D: nat) {
    forall p | p in b :: OpenedInTime(s, p, D)
  }

  ghost predicate TimelyInv(c: Config, s: System, D: nat)
    requires ConfigOk(c)
  {
    Inv(c, s) && Spaced(c, s, D) && AllOpenedInTime(s, s.receiver, D)
  }

  lemma TimelyDoesNotMix(c: Config, s: System, a: Action, D: nat)
    requires ConfigOk(c) && TimelyInv(c, s, D) && Enabled(c, s, a) && Timely(c, s, a, D)
    ensures NoMix(c, s, a)
  {
    if a.Deliver? {
      TimelyOnly(c, s, a.serial, a.now, D);
    }
  }

  lemma TimelyOnly(c: Config, s: System, n: nat, now: int, D: nat)
    requires Spaced(c, s, D) && AllOpenedInTime(s, s.receiver, D) && TimesOk(s) && UpTo(s.receiver, s.clock)
    requires n < |s.times| && s.clock <= now <= s.times[n] + D
    requires forall p | p in s.receiver && p.pid in s.tags :: Pid(s.tags[p.pid]) == p.pid
    ensures OnlyOf(c, s, n, now)
  {
    forall p | p in s.receiver && p.pid == Pid(n) && !Expired(p, now, c.maxAge) && p.pid in s.tags
      ensures s.tags[p.pid] == n
    {
      assert OpenedInTime(s, p, D);
      assert s.times[n] <= s.clock;
    }
  }

  lemma TimelyStep(c: Config, s: System, a: Action, D: nat)
    requires ConfigOk(c) && TimelyInv(c, s, D) && Enabled(c, s, a) && Timely(c, s, a, D)
    ensures TimelyInv(c, Next(c, s, a), D)
  {
    TimelyDoesNotMix(c, s, a, D);
    StepInv(c, s, a);
    if a.Deliver? {
      var fid, p, r := DeliverIs(c, s, a);
      assert s.times[a.serial] <= s.clock;
      TimelyDeliver(c, s, a.serial, fid, p, a.now, a.later, Overwritten(a.datagram, a.buffer), r, D);
    } else {
      SenderSteps(c, s, a);
      TimelySend(c, s, a, Next(c, s, a), D);
    }
  }

  lemma TimelySend(c: Config, s: System, a: Action, u: System, D: nat)
    requires Spaced(c, s, D) && AllOpenedInTime(s, s.receiver, D) && Timely(c, s, a, D)
    requires |s.times| == |s.history| && !a.Deliver? && u.receiver == s.receiver && u.tags == s.tags
    requires u.times == if a.Enqueue? then s.times + [a.now] else s.times
    ensures Spaced(c, u, D) && AllOpenedInTime(u, u.receiver, D)
  {
    forall p | p in u.receiver ensures OpenedInTime(u, p, D) {
      assert OpenedInTime(s, p, D);
    }
  }

  lemma TimelyDeliver(c: Config, s: System, n: nat, fid: nat, p: Packet, now: int, later: int, raw: bytes, r: Reception,
                      D: nat)
    requires ConfigOk(c) && AllOpenedInTime(s, s.receiver, D) && OnlyOf(c, s, n, now)
    requires n < |s.times| && s.times[n] <= now <= s.times[n] + D
    requires Receipted(c, s, n, fid, p, now, later, raw, r)
    ensures AllOpenedInTime(Delivered(s, n, now, later, raw, r), r.bucket, D)
  {
    var u := Delivered(s, n, now, later, raw, r);
    assert p in s.receiver ==> OpenedInTime(s, p, D);
    forall x | x in r.bucket ensures OpenedInTime(u, x, D) {
      if x.pid != Pid(n) {
        assert OpenedInTime(s, x, D);
      }
    }
  }

  /** Every action keeps to the life span D. */
  ghost predicate TimelyRun(c: Config, states: seq<System>, acts: seq<Action>, D: nat)
    requires |states| == |acts| + 1
  {
    forall k {:trigger acts[k]} | 0 <= k < |acts| :: Timely(c, states[k], acts[k], D)
  }

  lemma TimelyAt(c: Config, states: seq<System>, acts: seq<Action>, D: nat, k: nat)
    requires ConfigOk(c) && IsRun(c, states, acts) && TimelyRun(c, states, acts, D) && k < |acts|
    requires TimelyInv(c, states[k], D)
    ensures TimelyInv(c, states[k + 1], D)
  {
    assert states[k + 1] in After(c, states[k], acts[k]) && Timely(c, states[k], acts[k], D);
    TimelyStep(c, states[k], acts[k], D);
  }

  lemma {:induction false} TimelyRunInv(c: Config, states: seq<System>, acts: seq<Action>, D: nat, k: nat)
    requires ConfigOk(c) && IsRun(c, states, acts) && TimelyRun(c, states, acts, D) && k < |states|
    requires TimelyInv(c, states[0], D)
    ensures TimelyInv(c, states[k], D)
  {
    if k > 0 {
      TimelyRunInv(c, states, acts, D, k - 1);
      TimelyAt(c, states, acts, D, k - 1);
    }
  }

  /** Integrity for a network whose datagrams live at most D: it is enough to reuse an id no sooner
      than D + maxAge after the packet that had it. EarlyReuse shows that one unit of time sooner is
      too soon. */
  lemma TimelyIntegrity(c: Config, states: seq<System>, acts: seq<Action>, D: nat, j: nat, k: nat)
    requires ConfigOk(c) && IsRun(c, states, acts) && TimelyRun(c, states, acts, D) && Init(states[0])
    requires j < |states| && k < |states[j].log|
    ensures ReportsTraced(c, states[j], k)
  {
    InitInv(c, states[0]);
    TimelyRunUnmixed(c, states, acts, D);
    TraceIntegrity(c, states, acts, j, k);
  }

  lemma TimelyRunUnmixed(c: Config, states: seq<System>, acts: seq<Action>, D: nat)
    requires ConfigOk(c) && IsRun(c, states, acts) && TimelyRun(c, states, acts, D) && TimelyInv(c, states[0], D)
    ensures Unmixed(c, states, acts)
  {
    forall i | 0 <= i < |acts| ensures NoMix(c, states[i], acts[i]) {
      TimelyRunInv(c, states, acts, D, i);
      assert states[i + 1] in After(c, states[i], acts[i]) && Timely(c, states[i], acts[i], D);
      TimelyDoesNotMix(c, states[i], acts[i], D);
    }
  }
}
