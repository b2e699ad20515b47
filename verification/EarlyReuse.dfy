/** The bound of EndToEndReuse on the reuse of ids is the best possible: a run in which an id is used
    again one unit of time too soon. */
module EarlyReuse {
  import opened Buckets
  import opened Bytes
  import opened Delivery
  import opened EndToEnd
  import opened Fragmentation
  import opened MixingRun

  /** Packets with the same id were enqueued at least gap apart. */
  ghost predicate Apart(times: seq<int>, gap: int) {
    forall n, m | 0 <= n < m < |times| && Pid(n) == Pid(m) :: times[m] >= times[n] + gap
  }

  /** Nothing arrived more than D after its packet was enqueued. */
  ghost predicate NoneLate(s: System, D: nat) {
    forall i | 0 <= i < |s.log| :: s.log[i].serial < |s.times| && s.log[i].now <= s.times[s.log[i].serial] + D
  }

  /** Time passes, with a request for a fragment. */
  lemma Wait(c: Config, s0: System, s: System, now: int) returns (u: System)
    requires ConfigOk(c) && Leads(c, s0, s) && Inv(c, s) && s.clock <= now
    ensures Leads(c, s0, u) && Inv(c, u) && Waited(s, now, u)
  {
    LeadsOn(c, s0, s, Resend(0, 0, now));
    StepInv(c, s, Resend(0, 0, now));
    u := NextResend(c, s, 0, 0, now);
  }

  ghost predicate Waited(s: System, now: int, u: System) {
    && u.history == s.history && u.times == s.times && u.network == s.network
    && u.receiver == s.receiver && u.tags == s.tags && u.log == s.log && u.clock == now
  }

  /** For every D > 0, and all packets x and y of two pieces that differ in the first: some run uses no
      id again sooner than D + maxAge - 1 after it was used, lets no datagram arrive more than D after
      its packet was enqueued, and ends with a receive that is ready and in time, has buffer enough,
      and reports as packet y what is not y. */
  lemma ReuseOneTooEarly(c: Config, x: bytes, y: bytes, D: nat, buffer: bytes) returns (s: System, t: System)
    requires ConfigOk(c) && D > 0 && |x| == |y| && FragNum(|x|, c.fragSize) == 2 && Fits(c, x, buffer)
    requires Split(x, c.fragSize)[0] != Split(y, c.fragSize)[0]
    ensures Init(s) && CanReach(c, s, t)
    ensures Apart(t.times, D + c.maxAge - 1) && NoneLate(t, D)
    ensures WrongAtLast(c, t, y)
  {
    s := Start();
    InitInv(c, s);
    LeadsNowhere(c, s);
    var v := FirstRound(c, s, x);
    var w, q := HalfOfTheFirst(c, s, v, D, buffer);
    var u := SecondTooSoon(c, s, w, y, D, q);
    var a;
    a, t := OtherFragmentArrives(c, u, 0, IDS, q, buffer);
    OneMore(c, s, u, a, t);
    ReusedOnce(w, u, t, s.clock, D, c.maxAge);
    MixtureIsWrong(c, u, t, x, y);
  }

  /** The last receive was of a fragment of y, was ready and in time, and reported something else. */
  ghost predicate WrongAtLast(c: Config, t: System, y: bytes) {
    && t.log != []
    && var r := t.log[|t.log| - 1];
       && r.serial < |t.history| && t.history[r.serial] == y
       && r.ready && InTime(c, r) && |r.raw| > |y| && r.result != y
  }

  lemma MixtureIsWrong(c: Config, u: System, t: System, x: bytes, y: bytes)
    requires ConfigOk(c) && |u.history| == IDS + 1 && u.history[0] == x && u.history[IDS] == y
    requires |x| == |y| && FragNum(|x|, c.fragSize) == 2 && Mixes(c, u, 0, IDS, t)
    requires Split(x, c.fragSize)[0] != Split(y, c.fragSize)[0]
    ensures WrongAtLast(c, t, y)
  {
  }

  /** Of all the packets, only the first and the last share an id. */
  lemma ReusedOnce(w: System, u: System, t: System, start: int, D: nat, maxAge: nat)
    requires OneRound(w, start, D) && Sends(w, 1, start + D + maxAge - 1, u) && t.times == u.times
    requires |t.log| == |u.log| + 1 && u.log <= t.log
    requires t.log[|u.log|].serial == IDS && t.log[|u.log|].now == u.clock
    ensures Apart(t.times, D + maxAge - 1) && NoneLate(t, D)
  {
    forall n, m | 0 <= n < m < |t.times| && Pid(n) == Pid(m) ensures n == 0 && m == IDS {
      OnlyTheLast(n, m);
    }
    assert t.log[0] == w.log[0];
  }

  lemma OnlyTheLast(n: nat, m: nat)
    requires n < m <= IDS && Pid(n) == Pid(m)
    ensures n == 0 && m == IDS
  {
  }

  /** The packets of the first round, all of the same age; what arrived was in time. */
  ghost predicate OneRound(s: System, start: int, D: nat) {
    && |s.times| == IDS == |s.history| && (forall n | 0 <= n < IDS :: s.times[n] == start)
    && |s.log| == 1 && s.log[0].serial == 0 && s.log[0].now <= start + D
  }

  /** D after the first round, the first fragment of its first packet arrives. */
  lemma HalfOfTheFirst(c: Config, s: System, v: System, D: nat, buffer: bytes) returns (w: System, q: Packet)
    requires ConfigOk(c) && Leads(c, s, v) && Inv(c, v) && Init(s) && Sends(s, IDS, s.clock, v)
    requires InNetwork(c, v, 0, 0) && InNetwork(c, v, 0, 1) && |Pieces(c, v, 0)| == 2 && Fits(c, v.history[0], buffer)
    ensures Leads(c, s, w) && Inv(c, w) && w.history == v.history && OneRound(w, s.clock, D)
    ensures HalfHeld(c, w, 0, q) && InNetwork(c, w, 0, 1) && q.created == w.clock == s.clock + D
  {
    var u := Wait(c, s, v, s.clock + D);
    StillSent(c, v, u, 0, 0);
    StillSent(c, v, u, 0, 1);
    w, q := DeliverHalf(c, s, u, 0, buffer);
    StillSent(c, u, w, 0, 1);
  }

  /** One unit of time before the half of the first packet is too old, y is sent. */
  lemma SecondTooSoon(c: Config, s: System, w: System, y: bytes, D: nat, q: Packet) returns (u: System)
    requires ConfigOk(c) && Leads(c, s, w) && Inv(c, w) && OneRound(w, s.clock, D) && D > 0 && c.maxAge > 0
    requires HalfHeld(c, w, 0, q) && InNetwork(c, w, 0, 1) && q.created == w.clock == s.clock + D
    requires y != [] && FragNum(|y|, c.fragSize) == 2
    ensures Leads(c, s, u) && Inv(c, u) && HalfHeld(c, u, 0, q) && InNetwork(c, u, IDS, 1)
    ensures Sends(w, 1, w.clock + c.maxAge - 1, u) && u.history == w.history + [y]
  {
    var now := w.clock + c.maxAge - 1;
    AllExpire(c, w, now);
    u := SendSecond(c, s, w, y, now);
    assert Pieces(c, u, 0) == Pieces(c, w, 0);
  }
}
