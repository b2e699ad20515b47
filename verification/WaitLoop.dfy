/** wait4data of Lib/net_helper/net_helper-x.c: wait for data while the shaper lets queued messages
    out. Times are in microseconds since the call. The shaper's answers, the readiness of the
    descriptors and the failures of select are inputs. */
module WaitLoop {
  import opened Wrappers

  datatype Fd = Fd(number: int)

  const POLL_INTERVAL := 1000

  /** Something watched is ready at a time in [from, to]. */
  ghost predicate ReadyWithin(ready: nat -> set<Fd>, watched: set<Fd>, from: nat, to: int) {
    exists t: nat :: from <= t <= to && ready(t) * watched != {}
  }

  /** select: the watched set is in-out. It returns at the first time something watched is ready,
      with the ready ones; or after the whole sleep, with the set emptied. */
  method Select(ready: nat -> set<Fd>, watched: set<Fd>, start: nat, sleep: nat, fails: bool)
      returns (res: int, watched': set<Fd>, now: nat)
    ensures res == -1 <==> fails
    ensures -1 <= res && start <= now <= start + sleep
    ensures res == 0 ==> watched' == {} && now == start + sleep
    ensures !fails ==> (res > 0 <==> ReadyWithin(ready, watched, start, start + sleep))
    ensures res > 0 ==> watched' == ready(now) * watched && watched' != {}
    ensures watched == {} ==> res <= 0
  {
    if fails {
      return -1, watched, start;
    }
    now := start;
    while ready(now) * watched == {} && now < start + sleep
      invariant start <= now <= start + sleep
      invariant forall t: nat | start <= t < now :: ready(t) * watched == {}
    {
      now := now + 1;
    }
    watched' := ready(now) * watched;
    res := |watched'|;
  }

  /** net_helper_send_attempt: send the first message if the shaper answers 0, and tell how long to
      wait for the next one; an empty queue is polled. used counts the shaper's answers. */
  method SendAttempt<M>(queue: seq<M>, shaper: nat -> nat, used: nat)
      returns (interval: nat, queue': seq<M>, used': nat)
    ensures queue == [] ==> queue' == [] && interval == 1000 && used' == used
    ensures queue != [] && shaper(used) != 0 ==> queue' == queue && interval == shaper(used) && used' == used + 1
    ensures queue != [] && shaper(used) == 0 ==>
              queue' == queue[1..] && interval == shaper(used + 1) && used' == used + 2
    ensures interval == Interval(queue, shaper, used)
  {
    queue', used' := queue, used;
    if queue != [] {
      interval, used' := shaper(used), used + 1;
      if interval == 0 {
        queue' := queue[1..];
        interval, used' := shaper(used'), used' + 1;
      }
    } else {
      interval := POLL_INTERVAL;
    }
  }

  /** How long to wait after an attempt. */
  function Interval<M>(queue: seq<M>, shaper: nat -> nat, used: nat): nat {
    if queue == [] then POLL_INTERVAL
    else if shaper(used) != 0 then shaper(used)
    else shaper(used + 1)
  }

  /** How long the first select of a call sleeps. */
  function FirstSleep<M>(queue: seq<M>, shaper: nat -> nat, tout: nat): nat {
    Sleep(Interval(queue, shaper, 0), tout)
  }

  function Sleep(interval: nat, left: nat): nat {
    if interval < left then interval else left
  }

  /** Each of n messages was let out by an answer of 0 of its own, in order. */
  ghost predicate LetOut(shaper: nat -> nat, n: nat) {
    exists outs: seq<nat> :: AreZeros(shaper, outs) && |outs| == n
  }

  ghost predicate AreZeros(shaper: nat -> nat, outs: seq<nat>) {
    && (forall i | 0 <= i < |outs| :: shaper(outs[i]) == 0)
    && (forall i, j | 0 <= i < j < |outs| :: outs[i] < outs[j])
  }

  /** The messages that left are the first of the queue; with a first answer of 0 one leaves. */
  ghost predicate Shaped<M>(queue: seq<M>, shaper: nat -> nat, queue': seq<M>) {
    && |queue'| <= |queue| && queue' == queue[|queue| - |queue'|..] && LetOut(shaper, |queue| - |queue'|)
    && (queue != [] && shaper(0) == 0 ==> |queue'| < |queue|)
  }

  /** A shaper that always asks to wait lets nothing out. */
  lemma NothingLeaves<M>(fd: Fd, userFds: seq<Fd>, queue: seq<M>, tout: nat, shaper: nat -> nat,
                         ready: nat -> set<Fd>, fails: nat -> bool,
                         res: int, marks: seq<Option<Fd>>, queue': seq<M>, slept: nat)
    requires WaitOutcome(fd, userFds, queue, tout, shaper, ready, fails, res, marks, queue', slept)
    ensures queue' == queue || exists k: nat :: shaper(k) == 0
  {
    var outs :| AreZeros(shaper, outs) && |outs| == |queue| - |queue'|;
    if outs != [] {
      assert shaper(outs[0]) == 0;
    }
  }

  /** The attempts so far: the answers outs let messages out, queue' is left, and the other attempts of a
      call that times out come within the time left, if there is any. */
  ghost predicate Paced<M>(queue: seq<M>, shaper: nat -> nat, tout: nat, outs: seq<nat>, queue': seq<M>, used: nat,
                           more: bool, left: nat) {
    && |outs| <= |queue| && queue' == queue[|outs|..]
    && AreZeros(shaper, outs) && (forall i | 0 <= i < |outs| :: outs[i] < used)
    && LeftAfter(queue, shaper, 0, tout) == if more then LeftAfter(queue', shaper, used, left) else queue'
  }

  lemma PacedNext<M>(queue: seq<M>, shaper: nat -> nat, tout: nat, outs: seq<nat>, q: seq<M>, used: nat, left: nat,
                     queue': seq<M>, used': nat, interval: nat)
    requires Paced(queue, shaper, tout, outs, q, used, true, left)
    requires var leaves := q != [] && shaper(used) == 0;
             && queue' == (if leaves then q[1..] else q) && interval == Interval(q, shaper, used)
             && used' == used + if q == [] then 0 else if leaves then 2 else 1
    ensures Paced(queue, shaper, tout, if |queue'| < |q| then outs + [used] else outs, queue', used',
                  interval < left, if interval < left then left - interval else 0)
  {
  }

  /** What is left of the queue when attempts follow each other, each after the interval the last one
      asked for, for this long. */
  ghost function LeftAfter<M>(queue: seq<M>, shaper: nat -> nat, used: nat, left: nat): seq<M>
    decreases left, |queue|
  {
    var leaves := queue != [] && shaper(used) == 0;
    var rest := if leaves then queue[1..] else queue;
    var used' := used + if queue == [] then 0 else if leaves then 2 else 1;
    if Interval(queue, shaper, used) < left then LeftAfter(rest, shaper, used', left - Interval(queue, shaper, used))
    else rest
  }

  /** The shaper lets a message out and then asks to wait for time t, again and again. */
  ghost predicate Steady(shaper: nat -> nat, t: nat) {
    forall k: nat :: shaper(k) == if k % 2 == 0 then 0 else t
  }

  lemma TimesLess(n: nat, t: nat)
    requires n > 0
    ensures n * t >= t && n * t == (n - 1) * t + t && (n + 1) * t == n * t + t
  {
  }

  lemma SteadyNext<M>(queue: seq<M>, shaper: nat -> nat, t: nat, used: nat, left: nat)
    requires Steady(shaper, t) && t > 0 && used % 2 == 0 && queue != []
    ensures LeftAfter(queue, shaper, used, left) ==
            if t < left then LeftAfter(queue[1..], shaper, used + 2, left - t) else queue[1..]
  {
    assert shaper(used) == 0 && shaper(used + 1) == t;
  }

  /** Then one message leaves at each of the times 0, t, 2t, ... before the end. */
  lemma {:induction false} SteadyRate<M>(queue: seq<M>, shaper: nat -> nat, t: nat, used: nat, left: nat, n: nat)
    requires Steady(shaper, t) && t > 0 && used % 2 == 0 && left > 0 && n < |queue| && n * t < left <= (n + 1) * t
    ensures LeftAfter(queue, shaper, used, left) == queue[n + 1..]
    decreases n
  {
    if n == 0 {
      SteadyNext(queue, shaper, t, used, left);
    } else {
      TimesLess(n, t);
      SteadyNext(queue, shaper, t, used, left);
      SteadyRate(queue[1..], shaper, t, used + 2, left - t, n - 1);
      assert queue[1..][n..] == queue[n + 1..];
    }
  }

  function Watched(fd: Fd, userFds: seq<Fd>): (fds: set<Fd>)
    ensures forall f :: f in fds <==> f == fd || f in userFds
  {
    {fd} + set f | f in userFds
  }

  /** What a call can lead to. A timeout has slept exactly the timeout; data is reported exactly when a
      descriptor is ready during the first sleep, since select empties the set and the later rounds
      watch nothing; an error means that some select failed. */
  ghost predicate WaitOutcome<M>(fd: Fd, userFds: seq<Fd>, queue: seq<M>, tout: nat,
                                 shaper: nat -> nat, ready: nat -> set<Fd>, fails: nat -> bool,
                                 res: int, marks: seq<Option<Fd>>, queue': seq<M>, slept: nat) {
    && Shaped(queue, shaper, queue') && (res == 0 ==> queue' == LeftAfter(queue, shaper, 0, tout))
    && Heard(fd, userFds, tout, ready, fails, FirstSleep(queue, shaper, tout), res, marks, slept)
  }

  /** The result, the marks on the descriptors, and the time slept; first is how long the first select may
      sleep. */
  ghost predicate Heard(fd: Fd, userFds: seq<Fd>, tout: nat, ready: nat -> set<Fd>, fails: nat -> bool, first: nat,
                        res: int, marks: seq<Option<Fd>>, slept: nat) {
    && res in {-1, 0, 1, 2} && slept <= tout
    && (res == 0 ==> slept == tout)
    && (res == -1 ==> exists n: nat :: fails(n))
    && (res > 0 <==> !fails(0) && ReadyWithin(ready, Watched(fd, userFds), 0, first))
    && (res == 1 ==> fd in ready(slept))
    && |marks| == |userFds|
    && (res != 2 ==> forall i | 0 <= i < |userFds| :: marks[i] == Some(userFds[i]))
    && (res == 2 ==> forall i | 0 <= i < |userFds| ::
                       marks[i] == if userFds[i] in ready(slept) then Some(userFds[i]) else None)
    && (res == 2 ==> fd !in ready(slept)
                     && exists i :: 0 <= i < |userFds| && userFds[i] in ready(slept))
  }

  /** What the selects so far did: none yet, or the first decided, as the later ones watch nothing. first
      is how long it may sleep. */
  ghost predicate Selected(watched: set<Fd>, ready: nat -> set<Fd>, fails: nat -> bool, first: nat, rounds: nat,
                           res: int, fds: set<Fd>, slept: nat) {
    && -1 <= res && (res == -1 ==> rounds > 0 && fails(rounds - 1))
    && (rounds == 0 ==> res == 0 && fds == watched && slept == 0)
    && (rounds > 0 ==>
          && (res == 0 ==> fds == {})
          && (res > 0 <==> !fails(0) && ReadyWithin(ready, watched, 0, first))
          && (res > 0 ==> fds == ready(slept) * watched && fds != {}))
  }

  lemma SelectedNext(watched: set<Fd>, ready: nat -> set<Fd>, fails: nat -> bool, first: nat, rounds: nat,
                     fds: set<Fd>, slept: nat, sleep: nat, res': int, fds': set<Fd>, slept': nat)
    requires Selected(watched, ready, fails, first, rounds, 0, fds, slept) && (rounds == 0 ==> sleep == first)
    requires res' == -1 <==> fails(rounds)
    requires -1 <= res' && slept <= slept' <= slept + sleep && (res' == 0 ==> fds' == {})
    requires !fails(rounds) ==> (res' > 0 <==> ReadyWithin(ready, fds, slept, slept + sleep))
    requires res' > 0 ==> fds' == ready(slept') * fds && fds' != {}
    requires fds == {} ==> res' <= 0
    ensures Selected(watched, ready, fails, first, rounds + 1, res', fds', slept')
  {
  }

  /** One attempt of a call, and how long to sleep after it. */
  method Attempt<M>(queue: seq<M>, shaper: nat -> nat, used: nat, left: nat, ghost queue0: seq<M>, ghost tout: nat,
                    ghost outs: seq<nat>)
      returns (sleep: nat, more: bool, left': nat, queue': seq<M>, used': nat, ghost outs': seq<nat>)
    requires Paced(queue0, shaper, tout, outs, queue, used, true, left)
    ensures Paced(queue0, shaper, tout, outs', queue', used', more, left') && |outs'| >= |outs|
    ensures sleep == Sleep(Interval(queue, shaper, used), left) && left' == (if more then left - sleep else left)
    ensures (more <==> Interval(queue, shaper, used) < left) && (more && left' == left ==> |queue'| < |queue|)
    ensures queue != [] && shaper(used) == 0 ==> |outs'| > |outs|
  {
    var interval;
    interval, queue', used' := SendAttempt(queue, shaper, used);
    PacedNext(queue0, shaper, tout, outs, queue, used, left, queue', used', interval);
    outs' := if |queue'| < |queue| then outs + [used] else outs;
    more := interval < left;
    if more {
      sleep, left' := interval, left - interval;
    } else {
      sleep, left' := left, left;
    }
  }

  /** The call terminates because each round lowers the time left or shortens the queue. */
  method Wait4Data<M>(fd: Fd, userFds: seq<Fd>, queue: seq<M>, tout: nat,
                      shaper: nat -> nat, ready: nat -> set<Fd>, fails: nat -> bool)
      returns (res: int, marks: seq<Option<Fd>>, queue': seq<M>, slept: nat)
    ensures WaitOutcome(fd, userFds, queue, tout, shaper, ready, fails, res, marks, queue', slept)
  {
    var fds := Watched(fd, userFds);
    var left: nat, used, rounds := tout, 0, 0;
    ghost var outs: seq<nat> := [];
    queue', slept, res := queue, 0, 0;
    var shaping := true;
    while shaping && res == 0
      invariant Paced(queue, shaper, tout, outs, queue', used, shaping, left)
      invariant rounds > 0 && queue != [] && shaper(0) == 0 ==> outs != []
      invariant slept <= tout && (res == 0 ==> slept + (if shaping then left else 0) == tout)
      invariant rounds == 0 ==> shaping && used == 0 && queue' == queue && left == tout
      invariant Selected(Watched(fd, userFds), ready, fails, FirstSleep(queue, shaper, tout), rounds, res, fds, slept)
      decreases shaping, left, |queue'|
    {
      var sleep;
      sleep, shaping, left, queue', used, outs := Attempt(queue', shaper, used, left, queue, tout, outs);
      res, fds, slept := SelectAgain(Watched(fd, userFds), ready, fails, FirstSleep(queue, shaper, tout), rounds,
                                     fds, slept, sleep);
      rounds := rounds + 1;
    }
    ghost var selected := res;
    res, marks := Conclude(fd, userFds, res, fds);
    DecidedSent(queue, tout, shaper, outs, queue', used, shaping, left, res);
    DecidedHeard(fd, userFds, tout, ready, fails, FirstSleep(queue, shaper, tout), rounds, selected, fds, slept,
                 res, marks);
  }

  /** One select of a call. */
  method SelectAgain(ghost watched: set<Fd>, ready: nat -> set<Fd>, fails: nat -> bool, ghost first: nat,
                     rounds: nat, fds: set<Fd>, start: nat, sleep: nat)
      returns (res: int, fds': set<Fd>, slept: nat)
    requires Selected(watched, ready, fails, first, rounds, 0, fds, start) && (rounds == 0 ==> sleep == first)
    ensures Selected(watched, ready, fails, first, rounds + 1, res, fds', slept)
    ensures slept <= start + sleep && (res == 0 ==> slept == start + sleep)
  {
    res, fds', slept := Select(ready, fds, start, sleep, fails(rounds));
    SelectedNext(watched, ready, fails, first, rounds, fds, start, sleep, res, fds', slept);
  }

  /** The outcome, when the loop is over. */
  lemma DecidedSent<M>(queue: seq<M>, tout: nat, shaper: nat -> nat, outs: seq<nat>, queue': seq<M>, used: nat,
                       more: bool, left: nat, res: int)
    requires Paced(queue, shaper, tout, outs, queue', used, more, left) && (res == 0 ==> !more)
    requires queue != [] && shaper(0) == 0 ==> outs != []
    ensures Shaped(queue, shaper, queue') && (res == 0 ==> queue' == LeftAfter(queue, shaper, 0, tout))
  {
    assert LetOut(shaper, |outs|);
  }

  lemma DecidedHeard(fd: Fd, userFds: seq<Fd>, tout: nat, ready: nat -> set<Fd>, fails: nat -> bool, first: nat,
                     rounds: nat, selected: int, fds: set<Fd>, slept: nat, res: int, marks: seq<Option<Fd>>)
    requires Selected(Watched(fd, userFds), ready, fails, first, rounds, selected, fds, slept) && rounds > 0
    requires slept <= tout && (selected == 0 ==> slept == tout)
    requires IsConclusion(fd, userFds, selected, fds, res, marks)
    ensures Heard(fd, userFds, tout, ready, fails, first, res, marks, slept)
  {
    if res == 2 {
      SomeMarked(fd, userFds, fds);
    }
  }

  lemma SomeMarked(fd: Fd, userFds: seq<Fd>, fds: set<Fd>)
    requires fds <= Watched(fd, userFds) && fds != {} && fd !in fds
    ensures exists i :: 0 <= i < |userFds| && userFds[i] in fds
  {
    var f :| f in fds;
    assert f in userFds;
  }

  ghost predicate IsConclusion(fd: Fd, userFds: seq<Fd>, selected: int, fds: set<Fd>, res: int,
                               marks: seq<Option<Fd>>) {
    && res == (if selected <= 0 then selected else if fd in fds then 1 else 2)
    && |marks| == |userFds|
    && forall i | 0 <= i < |userFds| :: marks[i] == if res != 2 || userFds[i] in fds then Some(userFds[i]) else None
  }

  /** The end of a call: descriptors that are not ready become -2, if it was not the own one. */
  method Conclude(fd: Fd, userFds: seq<Fd>, selected: int, fds: set<Fd>) returns (res: int, marks: seq<Option<Fd>>)
    requires selected >= -1
    ensures IsConclusion(fd, userFds, selected, fds, res, marks)
  {
    res := selected;
    marks := seq(|userFds|, i requires 0 <= i < |userFds| => Some(userFds[i]));
    if res > 0 {
      if fd in fds {
        res := 1;
      } else {
        marks := seq(|userFds|, i requires 0 <= i < |userFds| => if userFds[i] in fds then Some(userFds[i]) else None);
        res := 2;
      }
    }
  }

  /** When data becomes ready, and stays so, at time r within the timeout, and no select fails, a call
      reports it exactly when r is within the first sleep, which takes what the shaper answers last in the
      first attempt, but at most the timeout. Otherwise it reports a timeout. */
  lemma LateDataIsMissed<M>(fd: Fd, userFds: seq<Fd>, queue: seq<M>, tout: nat,
                            shaper: nat -> nat, ready: nat -> set<Fd>, fails: nat -> bool, r: nat, first: nat,
                            res: int, marks: seq<Option<Fd>>, queue': seq<M>, slept: nat)
    requires WaitOutcome(fd, userFds, queue, tout, shaper, ready, fails, res, marks, queue', slept)
    requires forall t: nat :: ready(t) * Watched(fd, userFds) != {} <==> r <= t
    requires r <= tout && forall n: nat :: !fails(n)
    requires queue == [] ==> first == if 1000 < tout then 1000 else tout
    requires queue != [] && shaper(0) != 0 ==> first == if shaper(0) < tout then shaper(0) else tout
    requires queue != [] && shaper(0) == 0 ==> first == if shaper(1) < tout then shaper(1) else tout
    ensures res == 1 || res == 2 <==> r <= first
    ensures res == 0 <==> r > first
  {
    assert ready(r) * Watched(fd, userFds) != {};
  }

  /** The network descriptor is readable from 1.5 ms on. */
  function ReadyLate(fd: Fd): nat -> set<Fd> {
    (t: nat) => if t >= 1500 then {fd} else {}
  }

  /** Such a case: nothing to send, and 2 ms to wait for what is there after 1.5 ms. */
  method MissedInput(fd: Fd, shaper: nat -> nat) returns (res: int)
    ensures ReadyWithin(ReadyLate(fd), Watched(fd, []), 0, 2000) && res == 0
  {
    var marks, queue', slept;
    var queue: seq<nat> := [];
    res, marks, queue', slept := Wait4Data(fd, [], queue, 2000, shaper, ReadyLate(fd), (n: nat) => false);
    forall t: nat ensures ReadyLate(fd)(t) * Watched(fd, []) != {} <==> 1500 <= t {
      assert t >= 1500 ==> fd in ReadyLate(fd)(t) * Watched(fd, []);
    }
    assert ReadyLate(fd)(1500) * Watched(fd, []) != {};
    LateDataIsMissed(fd, [], queue, 2000, shaper, ReadyLate(fd), (n: nat) => false, 1500, 1000,
                     res, marks, queue', slept);
  }
}
