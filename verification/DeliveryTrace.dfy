/** Which receives complete a packet, read off the receives alone: which fragments of which packets
    arrived, and when. Nothing here looks at what the receiver holds or decides. */
module DeliveryTrace {
  import opened Buckets
  import opened Bytes
  import opened EndToEnd
  import opened Fragmentation
  import opened Receive
  import opened Wrappers

  // ---- reading the log ----

  /** Fragment f of packet n is among the receives from o on. */
  ghost predicate Got(log: seq<Receipt>, o: nat, n: nat, f: nat) {
    exists i :: o <= i < |log| && log[i].serial == n && log[i].fid == f
  }

  ghost predicate Gathered(log: seq<Receipt>, o: nat, n: nat, k: nat) {
    forall f: nat | f < k :: Got(log, o, n, f)
  }

  /** Where the packet begins that a fragment arriving now goes on with: where the one under assembly
      began, or with this fragment, when there is none or it is too old. */
  ghost function StartOf(maxAge: nat, log: seq<Receipt>, prev: Option<nat>, now: int): nat
    requires prev.Some? ==> prev.value < |log|
  {
    if prev.Some? && now - log[prev.value].now < maxAge then prev.value else |log|
  }

  /** Where the assembly of packet n began that was not completed yet; k is the number of its pieces. */
  ghost function Opening(maxAge: nat, k: nat, log: seq<Receipt>, n: nat): (o: Option<nat>)
    ensures o.Some? ==> o.value < |log|
  {
    if log == [] then None
    else
      var init, r := log[..|log| - 1], log[|log| - 1];
      var prev := Opening(maxAge, k, init, n);
      if r.serial != n then prev
      else
        var o := StartOf(maxAge, init, prev, r.now);
        if Gathered(log, o, n, k) then None else Some(o)
  }

  /** Where the assembly began that receive i added to. */
  ghost function Start(maxAge: nat, k: nat, log: seq<Receipt>, i: nat): nat
    requires i < |log|
  {
    StartOf(maxAge, log[..i], Opening(maxAge, k, log[..i], log[i].serial), log[i].now)
  }

  lemma OpeningNext(maxAge: nat, k: nat, log: seq<Receipt>, r: Receipt, n: nat)
    ensures Opening(maxAge, k, log + [r], n) ==
            if r.serial != n then Opening(maxAge, k, log, n)
            else
              var o := StartOf(maxAge, log, Opening(maxAge, k, log, n), r.now);
              if Gathered(log + [r], o, n, k) then None else Some(o)
  {
    assert (log + [r])[..|log|] == log;
  }

  lemma {:induction false} NeverHeard(maxAge: nat, k: nat, log: seq<Receipt>, n: nat)
    requires forall i | 0 <= i < |log| :: log[i].serial != n
    ensures Opening(maxAge, k, log, n) == None
  {
    if log != [] {
      NeverHeard(maxAge, k, log[..|log| - 1], n);
    }
  }

  lemma GotNext(log: seq<Receipt>, r: Receipt, o: nat, n: nat, f: nat)
    requires o <= |log|
    ensures Got(log + [r], o, n, f) <==> Got(log, o, n, f) || (r.serial == n && r.fid == f)
  {
    var log' := log + [r];
    if Got(log, o, n, f) {
      var i :| o <= i < |log| && log[i].serial == n && log[i].fid == f;
      assert log'[i] == log[i];
    }
    if r.serial == n && r.fid == f {
      assert log'[|log|] == r;
    }
  }

  // ---- the invariant ----

  ghost function PieceCount(c: Config, s: System, n: nat): nat
    requires ConfigOk(c) && n < |s.history|
  {
    |Pieces(c, s, n)|
  }

  ghost function OpeningIn(c: Config, s: System, n: nat): (o: Option<nat>)
    requires ConfigOk(c) && n < |s.history|
    ensures o.Some? ==> o.value < |s.log|
  {
    Opening(c.maxAge, PieceCount(c, s, n), s.log, n)
  }

  /** p holds the pieces that arrived since o. */
  ghost predicate HoldsSince(p: Packet, k: nat, log: seq<Receipt>, o: nat, n: nat) {
    |p.frags| == k && forall f: nat | f < k :: p.frags[f].Some? <==> Got(log, o, n, f)
  }

  /** A packet under assembly is the one that the log has open, with the pieces that arrived since. */
  ghost predicate HeldAs(c: Config, s: System, p: Packet)
    requires ConfigOk(c)
  {
    && p.pid in s.tags && s.tags[p.pid] < |s.history|
    && OpenAs(c, s, s.tags[p.pid], p)
  }

  ghost predicate OpenAs(c: Config, s: System, n: nat, p: Packet)
    requires ConfigOk(c) && n < |s.history|
  {
    && OpeningIn(c, s, n).Some?
    && p.created == s.log[OpeningIn(c, s, n).value].now
    && HoldsSince(p, PieceCount(c, s, n), s.log, OpeningIn(c, s, n).value, n)
  }

  ghost predicate AllHeldAs(c: Config, s: System)
    requires ConfigOk(c)
  {
    forall p | p in s.receiver :: HeldAs(c, s, p)
  }

  ghost predicate IsHeld(s: System, n: nat, p: Packet) {
    p in s.receiver && p.pid == Pid(n) && p.pid in s.tags && s.tags[p.pid] == n
  }

  /** What the log has open, and is young, is held. */
  ghost predicate OpenIsHeld(c: Config, s: System, n: nat)
    requires ConfigOk(c) && n < |s.history|
  {
    var o := OpeningIn(c, s, n);
    o.Some? && s.clock - s.log[o.value].now < c.maxAge ==> exists p :: IsHeld(s, n, p)
  }

  ghost predicate AllOpenHeld(c: Config, s: System)
    requires ConfigOk(c)
  {
    forall n | 0 <= n < |s.history| :: OpenIsHeld(c, s, n)
  }

  /** A receive was ready exactly when the pieces were all there since the assembly began, and says
      when that was. */
  ghost predicate ReadyAsTraced(maxAge: nat, k: nat, log: seq<Receipt>, i: nat)
    requires i < |log|
  {
    var o := Start(maxAge, k, log, i);
    && o <= i && log[i].created == log[o].now
    && (log[i].ready <==> Gathered(log[..i + 1], o, log[i].serial, k))
  }

  ghost predicate TracedAt(c: Config, s: System, i: nat)
    requires ConfigOk(c) && i < |s.log|
  {
    s.log[i].serial < |s.history|
    && ReadyAsTraced(c.maxAge, PieceCount(c, s, s.log[i].serial), s.log, i)
  }

  ghost predicate AllTraced(c: Config, s: System)
    requires ConfigOk(c)
  {
    forall i | 0 <= i < |s.log| :: TracedAt(c, s, i)
  }

  ghost predicate TraceInv(c: Config, s: System)
    requires ConfigOk(c)
  {
    AllHeldAs(c, s) && AllOpenHeld(c, s) && AllTraced(c, s)
  }

  // ---- the sender's steps ----

  lemma SendKeeps(c: Config, s: System, u: System)
    requires ConfigOk(c) && LogOk(c, s) && TraceInv(c, s) && s.history <= u.history && s.clock <= u.clock
    requires u.receiver == s.receiver && u.tags == s.tags && u.log == s.log
    ensures TraceInv(c, u)
  {
    forall p | p in u.receiver ensures HeldAs(c, u, p) {
      assert HeldAs(c, s, p);
    }
    forall n | 0 <= n < |u.history| ensures OpenIsHeld(c, u, n) {
      if n < |s.history| {
        assert OpenIsHeld(c, s, n);
        forall p | IsHeld(s, n, p) ensures IsHeld(u, n, p) {}
      } else {
        forall i | 0 <= i < |s.log| ensures s.log[i].serial != n {
          assert Faithful(c, s, s.log[i]);
        }
        NeverHeard(c.maxAge, PieceCount(c, u, n), u.log, n);
      }
    }
    forall i | 0 <= i < |u.log| ensures TracedAt(c, u, i) {
      assert TracedAt(c, s, i);
    }
  }

  // ---- a delivery ----

  /** The assembly that the receiver goes on with is the one that the log goes on with. */
  lemma AssemblyStart(c: Config, s: System, n: nat, p: Packet, now: int)
    requires ConfigOk(c) && n < |s.history| && AllHeldAs(c, s) && OpenIsHeld(c, s, n) && s.clock <= now
    requires OnlyOf(c, s, n, now) && IsAssembly(s.receiver, c.maxAge, now, Pid(n), PieceCount(c, s, n), p)
    ensures var o := StartOf(c.maxAge, s.log, OpeningIn(c, s, n), now);
            && o <= |s.log| && p.created == (if o < |s.log| then s.log[o].now else now)
            && HoldsSince(p, PieceCount(c, s, n), s.log, o, n)
  {
    if p in s.receiver && !Expired(p, now, c.maxAge) {
      assert HeldAs(c, s, p);
    } else {
      forall x | IsHeld(s, n, x) ensures Expired(x, now, c.maxAge) && OpenAs(c, s, n, x) {
        assert HeldAs(c, s, x);
      }
    }
  }

  /** ... and with this piece it holds what arrived since, this receive included. */
  lemma PieceHeld(p: Packet, pieces: seq<bytes>, fid: nat, log: seq<Receipt>, r: Receipt, o: nat, n: nat)
    requires o <= |log| && fid < |pieces| && r.serial == n && r.fid == fid && HoldsSince(p, |pieces|, log, o, n)
    ensures HoldsSince(p.(frags := p.frags[fid := Some(pieces[fid])]), |pieces|, log + [r], o, n)
    ensures Complete(p.frags[fid := Some(pieces[fid])]) <==> Gathered(log + [r], o, n, |pieces|)
  {
    var frags := p.frags[fid := Some(pieces[fid])];
    forall f: nat | f < |pieces| ensures frags[f].Some? <==> Got(log + [r], o, n, f) {
      GotNext(log, r, o, n, f);
    }
    CompleteIffGathered(frags, log + [r], o, n);
  }

  lemma CompleteIffGathered(frags: Frags, log: seq<Receipt>, o: nat, n: nat)
    requires forall f: nat | f < |frags| :: frags[f].Some? <==> Got(log, o, n, f)
    ensures Complete(frags) <==> Gathered(log, o, n, |frags|)
  {
  }

  /** What a delivery of fid of packet n at time now does, as far as the log is concerned. */
  ghost predicate Logs(c: Config, s: System, u: System, n: nat, fid: nat, p: Packet, now: int, o: nat, x: Receipt)
    requires ConfigOk(c) && n < |s.history|
  {
    && u.history == s.history && u.log == s.log + [x] && x.serial == n && x.fid == fid && x.now == now
    && x.created == p.created && s.clock <= now <= u.clock
    && o == StartOf(c.maxAge, s.log, OpeningIn(c, s, n), now)
    && p.created == u.log[o].now
    && (x.ready <==> Gathered(u.log, o, n, PieceCount(c, s, n)))
  }

  lemma OthersOpen(c: Config, s: System, u: System, n: nat, x: Receipt, m: nat)
    requires ConfigOk(c) && u.history == s.history && u.log == s.log + [x] && x.serial == n && m != n
    requires m < |s.history|
    ensures OpeningIn(c, u, m) == OpeningIn(c, s, m)
    ensures forall p | OpenAs(c, s, m, p) :: OpenAs(c, u, m, p)
  {
    OpeningNext(c.maxAge, PieceCount(c, s, m), s.log, x, m);
    forall p | OpenAs(c, s, m, p) ensures OpenAs(c, u, m, p) {
      HoldsOther(p, PieceCount(c, s, m), s.log, x, OpeningIn(c, s, m).value, m);
    }
  }

  lemma HoldsOther(p: Packet, k: nat, log: seq<Receipt>, x: Receipt, o: nat, m: nat)
    requires HoldsSince(p, k, log, o, m) && o <= |log| && x.serial != m
    ensures HoldsSince(p, k, log + [x], o, m)
  {
    forall f: nat | f < k ensures p.frags[f].Some? <==> Got(log + [x], o, m, f) {
      GotNext(log, x, o, m, f);
    }
  }

  /** Packet n after the delivery. */
  lemma OwnOpen(c: Config, s: System, u: System, n: nat, fid: nat, p: Packet, now: int, o: nat, x: Receipt, q: Packet)
    requires ConfigOk(c) && n < |s.history| && Logs(c, s, u, n, fid, p, now, o, x)
    requires q.created == p.created && HoldsSince(q, PieceCount(c, s, n), u.log, o, n)
    ensures x.ready ==> OpeningIn(c, u, n) == None
    ensures !x.ready ==> OpeningIn(c, u, n) == Some(o) && OpenAs(c, u, n, q)
  {
    OpeningNext(c.maxAge, PieceCount(c, s, n), s.log, x, n);
  }

  lemma TraceGrows(c: Config, s: System, u: System, n: nat, fid: nat, p: Packet, now: int, o: nat, x: Receipt)
    requires ConfigOk(c) && n < |s.history| && AllTraced(c, s) && Logs(c, s, u, n, fid, p, now, o, x)
    ensures AllTraced(c, u)
  {
    forall i | 0 <= i < |u.log| ensures TracedAt(c, u, i) {
      if i < |s.log| {
        assert TracedAt(c, s, i);
        SamePrefix(s.log, x, i);
      } else {
        assert u.log[..i] == s.log && u.log[..i + 1] == u.log;
      }
    }
  }

  lemma SamePrefix(log: seq<Receipt>, x: Receipt, i: nat)
    requires i < |log|
    ensures (log + [x])[..i] == log[..i] && (log + [x])[..i + 1] == log[..i + 1]
    ensures forall j | 0 <= j < |log| :: (log + [x])[j] == log[j]
  {
  }

  lemma HeldGrows(c: Config, s: System, u: System, n: nat, fid: nat, q: Packet, now: int, later: int, ready: bool,
                  x: Receipt)
    requires ConfigOk(c) && n < |s.history| && AllHeldAs(c, s) && AllTagged(c, s, s.receiver)
    requires u.history == s.history && u.log == s.log + [x] && x.serial == n && u.tags == s.tags[Pid(n) := n]
    requires q.pid == Pid(n) && Leaves(s.receiver, c.maxAge, now, later, q, ready, u.receiver)
    requires !ready ==> OpenAs(c, u, n, q)
    ensures AllHeldAs(c, u)
  {
    forall y | y in u.receiver ensures HeldAs(c, u, y) {
      if y.pid != Pid(n) {
        assert HeldAs(c, s, y) && Tagged(c, s, y);
        OthersOpen(c, s, u, n, x, s.tags[y.pid]);
      }
    }
  }

  lemma OpenGrows(c: Config, s: System, u: System, n: nat, fid: nat, q: Packet, now: int, ready: bool, x: Receipt)
    requires ConfigOk(c) && n < |s.history| && AllHeldAs(c, s) && AllOpenHeld(c, s) && OnlyOf(c, s, n, now)
    requires u.history == s.history && u.log == s.log + [x] && x.serial == n && u.tags == s.tags[Pid(n) := n]
    requires s.clock <= now <= u.clock
    requires q.pid == Pid(n) && Leaves(s.receiver, c.maxAge, now, u.clock, q, ready, u.receiver)
    requires ready ==> OpeningIn(c, u, n) == None
    ensures AllOpenHeld(c, u)
  {
    forall m | 0 <= m < |u.history| ensures OpenIsHeld(c, u, m) {
      if m == n {
        assert !ready ==> IsHeld(u, n, q);
      } else {
        OtherStaysHeld(c, s, u, n, q, now, ready, x, m);
      }
    }
  }

  lemma OtherStaysHeld(c: Config, s: System, u: System, n: nat, q: Packet, now: int, ready: bool, x: Receipt, m: nat)
    requires ConfigOk(c) && n < |s.history| && AllHeldAs(c, s) && OnlyOf(c, s, n, now) && m < |s.history| && m != n
    requires u.history == s.history && u.log == s.log + [x] && x.serial == n && u.tags == s.tags[Pid(n) := n]
    requires s.clock <= now <= u.clock && OpenIsHeld(c, s, m)
    requires q.pid == Pid(n) && Leaves(s.receiver, c.maxAge, now, u.clock, q, ready, u.receiver)
    ensures OpenIsHeld(c, u, m)
  {
    OthersOpen(c, s, u, n, x, m);
    var o := OpeningIn(c, s, m);
    if o.Some? && u.clock - s.log[o.value].now < c.maxAge {
      var y :| IsHeld(s, m, y);
      assert HeldAs(c, s, y);
      assert y.pid != Pid(n);
      assert IsHeld(u, m, y);
    }
  }

  lemma DeliverTrace(c: Config, s: System, n: nat, fid: nat, p: Packet, now: int, later: int, raw: bytes, r: Reception)
    requires ConfigOk(c) && Inv(c, s) && TraceInv(c, s) && OnlyOf(c, s, n, now) && s.clock <= now <= later
    requires Receipted(c, s, n, fid, p, now, later, raw, r)
    ensures TraceInv(c, Delivered(s, n, now, later, raw, r))
  {
    var u := Delivered(s, n, now, later, raw, r);
    var x, o := u.log[|s.log|], StartOf(c.maxAge, s.log, OpeningIn(c, s, n), now);
    var q := p.(frags := p.frags[fid := Some(Pieces(c, s, n)[fid])]);
    assert OpenIsHeld(c, s, n);
    AssemblyStart(c, s, n, p, now);
    PieceHeld(p, Pieces(c, s, n), fid, s.log, x, o, n);
    OwnOpen(c, s, u, n, fid, p, now, o, x, q);
    TraceGrows(c, s, u, n, fid, p, now, o, x);
    HeldGrows(c, s, u, n, fid, q, now, later, r.ready, x);
    OpenGrows(c, s, u, n, fid, q, now, r.ready, x);
  }

  // ---- runs ----

  lemma TraceStep(c: Config, s: System, a: Action)
    requires ConfigOk(c) && Inv(c, s) && TraceInv(c, s) && Enabled(c, s, a) && NoMix(c, s, a)
    ensures TraceInv(c, Next(c, s, a))
  {
    if a.Deliver? {
      var fid, p, r := DeliverIs(c, s, a);
      DeliverTrace(c, s, a.serial, fid, p, a.now, a.later, Overwritten(a.datagram, a.buffer), r);
    } else {
      SenderSteps(c, s, a);
      SendKeeps(c, s, Next(c, s, a));
    }
  }

  lemma TraceAt(c: Config, states: seq<System>, acts: seq<Action>, k: nat)
    requires ConfigOk(c) && IsRun(c, states, acts) && Unmixed(c, states, acts) && k < |acts|
    requires Inv(c, states[k]) && TraceInv(c, states[k])
    ensures TraceInv(c, states[k + 1])
  {
    assert states[k + 1] in After(c, states[k], acts[k]) && NoMix(c, states[k], acts[k]);
    TraceStep(c, states[k], acts[k]);
  }

  lemma {:induction false} TraceRun(c: Config, states: seq<System>, acts: seq<Action>, k: nat)
    requires ConfigOk(c) && IsRun(c, states, acts) && Unmixed(c, states, acts) && Init(states[0]) && k < |states|
    ensures Inv(c, states[k]) && TraceInv(c, states[k])
  {
    if k == 0 {
      InitInv(c, states[0]);
    } else {
      TraceRun(c, states, acts, k - 1);
      StepAt(c, states, acts, k - 1);
      TraceAt(c, states, acts, k - 1);
    }
  }

  /** What receive i reports, told from the receives up to it: the packet, exactly when its pieces all
      arrived since the assembly that it adds to began and, if that began less than maxAge before the
      second reading of the clock, the buffer is larger than the packet, whose fragments fit in 16
      bits; or else, if the buffer happens to hold the packet. And nothing until the pieces are there. */
  ghost predicate ReportsTraced(c: Config, s: System, i: nat)
    requires ConfigOk(c) && i < |s.log|
  {
    var x := s.log[i];
    && x.serial < |s.history|
    && var data, k := s.history[x.serial], PieceCount(c, s, x.serial);
       var o := Start(c.maxAge, k, s.log, i);
       && o <= i
       && (!Gathered(s.log[..i + 1], o, x.serial, k) ==> x.result == [])
       && (x.result == data <==>
             && Gathered(s.log[..i + 1], o, x.serial, k)
             && if x.later - s.log[o].now < c.maxAge then |data| < |x.raw| && Count(|data|, c.fragSize) < FRAG_IDS
                else x.raw == data)
  }

  /** End-to-end integrity of every run that mixes no packets. */
  lemma TraceIntegrity(c: Config, states: seq<System>, acts: seq<Action>, j: nat, i: nat)
    requires ConfigOk(c) && IsRun(c, states, acts) && Unmixed(c, states, acts) && Init(states[0])
    requires j < |states| && i < |states[j].log|
    ensures ReportsTraced(c, states[j], i)
  {
    TraceRun(c, states, acts, j);
    Integrity(c, states, acts, j, i);
    assert TracedAt(c, states[j], i);
  }
}
