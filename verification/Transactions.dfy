/** The running transactions of src/transaction.c as a sequence, the newest first, and what every run
    of the operations keeps. */
module Transactions {
  import opened Bytes

  const TRANS_ID_MAX_LIFETIME := 4.0

  /** serial is one more than that of the newest transaction at hand when this one was created, 1 if
      there was none; the id is serial modulo 2^16. accepted is -1 until an accept is registered. */
  datatype Trans = Trans(serial: nat, sent: real, accepted: real)

  function IdOf(serial: nat): uint16 {
    serial % 0x1_0000
  }

  // ---- the meaning of the operations ----

  ghost predicate Old(t: Trans, now: real) {
    now - t.sent > TRANS_ID_MAX_LIFETIME
  }

  /** The lifetime filter. */
  ghost function Young(ts: seq<Trans>, now: real): seq<Trans> {
    if ts == [] then [] else (if Old(ts[0], now) then [] else [ts[0]]) + Young(ts[1..], now)
  }

  ghost function NextSerial(ts: seq<Trans>): nat {
    if ts == [] then 1 else ts[0].serial + 1
  }

  /** transaction_create reads the clock for the scan, and again for the new transaction. */
  ghost function Created(ts: seq<Trans>, scan: real, now: real): seq<Trans> {
    var young := Young(ts, scan);
    [Trans(NextSerial(young), now, -1.0)] + young
  }

  /** The first transaction with this id. */
  ghost function Find(ts: seq<Trans>, id: uint16): (i: nat)
    ensures i <= |ts|
    ensures i < |ts| ==> IdOf(ts[i].serial) == id
    ensures forall j | 0 <= j < i :: IdOf(ts[j].serial) != id
  {
    if ts == [] || IdOf(ts[0].serial) == id then 0 else 1 + Find(ts[1..], id)
  }

  ghost function Accepted(ts: seq<Trans>, id: uint16, now: real): seq<Trans> {
    var i := Find(ts, id);
    if i < |ts| then ts[i := ts[i].(accepted := now)] else ts
  }

  ghost function Removed(ts: seq<Trans>, id: uint16): seq<Trans> {
    var i := Find(ts, id);
    if i < |ts| then ts[..i] + ts[i + 1..] else ts
  }

  // ---- what every run keeps ----

  /** From the head on, serial numbers strictly decrease and times never increase. */
  ghost predicate Ordered(ts: seq<Trans>, clock: real) {
    && (forall i | 0 <= i < |ts| :: ts[i].serial >= 1 && ts[i].sent <= clock)
    && (forall i, j | 0 <= i < j < |ts| :: ts[i].serial > ts[j].serial && ts[i].sent >= ts[j].sent)
  }

  ghost predicate IdsDistinct(ts: seq<Trans>) {
    forall i, j | 0 <= i < j < |ts| :: IdOf(ts[i].serial) != IdOf(ts[j].serial)
  }

  datatype Op =
    | Create(scan: real, now: real)
    | RegAccept(id: uint16, now: real)
    | Remove(id: uint16)

  ghost function Apply(ts: seq<Trans>, op: Op): seq<Trans> {
    match op
    case Create(scan, now) => Created(ts, scan, now)
    case RegAccept(id, now) => if id == 0 then ts else Accepted(ts, id, now)
    case Remove(id) => Removed(ts, id)
  }

  /** The lists a run from the empty list goes through, the clock never running backwards. */
  ghost predicate IsRun(lists: seq<seq<Trans>>, clocks: seq<real>, ops: seq<Op>) {
    && |lists| == |clocks| == |ops| + 1 && lists[0] == []
    && forall k | 0 <= k < |ops| ::
         && lists[k + 1] == Apply(lists[k], ops[k])
         && clocks[k] <= clocks[k + 1]
         && (ops[k].Create? ==> clocks[k] <= ops[k].scan <= ops[k].now == clocks[k + 1])
  }

  lemma {:induction false} YoungConcat(a: seq<Trans>, b: seq<Trans>, now: real)
    ensures Young(a + b, now) == Young(a, now) + Young(b, now)
  {
    if a == [] {
      assert a + b == b;
    } else {
      var s := a + b;
      assert s[1..] == a[1..] + b && s[0] == a[0];
      YoungConcat(a[1..], b, now);
      assert Young(s, now) == (if Old(a[0], now) then [] else [a[0]]) + (Young(a[1..], now) + Young(b, now));
    }
  }

  /** Because the times are in order, the expiry scan cuts off a tail. */
  lemma {:induction false} YoungIsPrefix(ts: seq<Trans>, clock: real, now: real)
    requires Ordered(ts, clock)
    ensures Young(ts, now) <= ts
    ensures forall i | 0 <= i < |ts| :: i < |Young(ts, now)| <==> now - ts[i].sent <= 4.0
  {
    if ts != [] {
      assert Ordered(ts[1..], clock);
      YoungIsPrefix(ts[1..], clock, now);
      var rest := Young(ts[1..], now);
      forall i | 0 < i < |ts| ensures i - 1 < |rest| <==> !Old(ts[i], now) {
        assert ts[i] == ts[1..][i - 1];
      }
      assert |ts| > 1 ==> ts[0].sent >= ts[1].sent;
    }
  }

  lemma CreatedOrdered(ts: seq<Trans>, clock: real, scan: real, now: real)
    requires Ordered(ts, clock) && clock <= now
    ensures Ordered(Created(ts, scan, now), now)
  {
    YoungIsPrefix(ts, clock, scan);
    var young := Young(ts, scan);
    PrefixOrdered(young, ts, clock);
    PushedOrdered(young, clock, Trans(NextSerial(young), now, -1.0));
  }

  lemma PushedOrdered(ts: seq<Trans>, clock: real, t: Trans)
    requires Ordered(ts, clock) && clock <= t.sent && t.serial == NextSerial(ts)
    ensures Ordered([t] + ts, t.sent)
  {
    var r := [t] + ts;
    forall j | 1 <= j < |r| ensures r[j] == ts[j - 1] && r[0].serial > r[j].serial && r[0].sent >= r[j].sent {
      assert ts[0].serial >= ts[j - 1].serial;
    }
  }

  lemma PrefixOrdered(young: seq<Trans>, ts: seq<Trans>, clock: real)
    requires Ordered(ts, clock) && young <= ts
    ensures Ordered(young, clock)
  {
    assert forall i | 0 <= i < |young| :: young[i] == ts[i];
  }

  lemma RemovedOrdered(ts: seq<Trans>, clock: real, id: uint16)
    requires Ordered(ts, clock)
    ensures Ordered(Removed(ts, id), clock)
  {
    var i, r := Find(ts, id), Removed(ts, id);
    forall j | 0 <= j < |r| ensures r[j] == ts[if j < i then j else j + 1] {}
  }

  lemma ApplyOrdered(ts: seq<Trans>, clock: real, op: Op, clock': real)
    requires Ordered(ts, clock) && clock <= clock' && (op.Create? ==> op.now == clock')
    ensures Ordered(Apply(ts, op), clock')
  {
    match op
    case Create(scan, now) => CreatedOrdered(ts, clock, scan, now);
    case RegAccept(id, now) =>
    case Remove(id) => RemovedOrdered(ts, clock, id);
  }

  lemma {:induction false} RunOrdered(lists: seq<seq<Trans>>, clocks: seq<real>, ops: seq<Op>, k: nat)
    requires IsRun(lists, clocks, ops) && k < |lists|
    ensures Ordered(lists[k], clocks[k])
  {
    if k > 0 {
      RunOrdered(lists, clocks, ops, k - 1);
      ApplyOrdered(lists[k - 1], clocks[k - 1], ops[k - 1], clocks[k]);
    }
  }

  /** The id a new transaction gets is unused exactly when no live transaction is a multiple of
      2^16 older. */
  lemma FreshIdExact(ts: seq<Trans>, now: real)
    ensures var young, n := Young(ts, now), NextSerial(Young(ts, now));
            (forall i | 0 <= i < |young| :: IdOf(young[i].serial) != IdOf(n)) <==>
            forall i | 0 <= i < |young| :: (n - young[i].serial) % 0x1_0000 != 0
  {
    var young, n := Young(ts, now), NextSerial(Young(ts, now));
    forall i | 0 <= i < |young| ensures IdOf(young[i].serial) == IdOf(n) <==> (n - young[i].serial) % 0x1_0000 == 0 {
      SameId(young[i].serial, n);
    }
  }

  lemma SameId(a: nat, b: nat)
    ensures IdOf(a) == IdOf(b) <==> (b - a) % 0x1_0000 == 0
  {
  }

  /** While the live transactions are among the last 65535, a new one leaves all ids distinct. */
  lemma FreshIdInWindow(ts: seq<Trans>, clock: real, scan: real, now: real)
    requires Ordered(ts, clock) && clock <= now
    requires var young := Young(ts, scan); young != [] ==> young[0].serial - young[|young| - 1].serial < 0xFFFF
    ensures IdsDistinct(Created(ts, scan, now))
  {
    CreatedOrdered(ts, clock, scan, now);
    SpanDistinct(Created(ts, scan, now));
  }

  /** Removing the newest transaction and creating one gives the same number, and so the same id,
      again, exactly when the one behind it is still young, or there was none. */
  lemma RemovedIsReused(ts: seq<Trans>, clock: real, scan1: real, now1: real, scan2: real, now2: real)
    requires Ordered(ts, clock)
    ensures var young, once := Young(ts, scan1), Created(ts, scan1, now1);
            Created(Removed(once, IdOf(once[0].serial)), scan2, now2)[0].serial == once[0].serial <==>
              young == [] || !Old(young[0], scan2)
  {
    var young, once := Young(ts, scan1), Created(ts, scan1, now1);
    YoungIsPrefix(ts, clock, scan1);
    PrefixOrdered(young, ts, clock);
    assert Find(once, IdOf(once[0].serial)) == 0;
    assert Removed(once, IdOf(once[0].serial)) == young;
    YoungIsPrefix(young, clock, scan2);
  }

  // ---- ids in runs ----

  /** The number of transactions created by ops[i..j]. */
  ghost function Creates(ops: seq<Op>, i: int, j: int): nat
    requires 0 <= i && j <= |ops|
    decreases j - i
  {
    if i >= j then 0 else Creates(ops, i, j - 1) + if ops[j - 1].Create? then 1 else 0
  }

  /** No 65536 creates in a row after one happen within the lifetime of that one. */
  ghost predicate Paced(ops: seq<Op>) {
    forall i, j | 0 <= i < j < |ops| && ops[i].Create? && ops[j].Create? && Creates(ops, i + 1, j + 1) >= 0x1_0000 ::
      ops[j].scan - ops[i].now > TRANS_ID_MAX_LIFETIME
  }

  /** Transaction t was created by operation b, and the newest one is at most the number of creates
      since then ahead of it. */
  ghost predicate BornAt(ops: seq<Op>, k: nat, ts: seq<Trans>, t: Trans, b: nat) {
    && b < k <= |ops| && ts != []
    && ops[b].Create? && ops[b].now == t.sent && ts[0].serial - t.serial <= Creates(ops, b + 1, k)
  }

  ghost predicate Born(ops: seq<Op>, k: nat, ts: seq<Trans>, t: Trans) {
    exists b: nat :: BornAt(ops, k, ts, t, b)
  }

  ghost predicate AllBorn(ops: seq<Op>, k: nat, ts: seq<Trans>) {
    forall x | 0 <= x < |ts| :: Born(ops, k, ts, ts[x])
  }

  /** A transaction stays as far behind, or gets one further behind by a create. */
  lemma BornKept(ops: seq<Op>, k: nat, ts: seq<Trans>, us: seq<Trans>, t: Trans, u: Trans)
    requires k < |ops| && Born(ops, k, ts, t) && u.sent == t.sent && u.serial == t.serial && us != []
    requires us[0].serial <= ts[0].serial + if ops[k].Create? then 1 else 0
    ensures Born(ops, k + 1, us, u)
  {
    var b: nat :| BornAt(ops, k, ts, t, b);
    assert BornAt(ops, k + 1, us, u, b);
  }

  lemma CreatedBorn(ops: seq<Op>, k: nat, ts: seq<Trans>, clock: real)
    requires k < |ops| && ops[k].Create? && AllBorn(ops, k, ts) && Ordered(ts, clock)
    ensures AllBorn(ops, k + 1, Created(ts, ops[k].scan, ops[k].now))
  {
    var us, young := Created(ts, ops[k].scan, ops[k].now), Young(ts, ops[k].scan);
    YoungIsPrefix(ts, clock, ops[k].scan);
    forall x | 0 <= x < |us| ensures Born(ops, k + 1, us, us[x]) {
      if x == 0 {
        assert BornAt(ops, k + 1, us, us[0], k);
      } else {
        assert us[x] == young[x - 1] == ts[x - 1] && young[0] == ts[0];
        BornKept(ops, k, ts, us, ts[x - 1], us[x]);
      }
    }
  }

  lemma RemovedBorn(ops: seq<Op>, k: nat, ts: seq<Trans>, clock: real, id: uint16)
    requires k < |ops| && ops[k] == Remove(id) && AllBorn(ops, k, ts) && Ordered(ts, clock)
    ensures AllBorn(ops, k + 1, Removed(ts, id))
  {
    var i, us := Find(ts, id), Removed(ts, id);
    forall x | 0 <= x < |us| ensures Born(ops, k + 1, us, us[x]) {
      var y := if x < i then x else x + 1;
      assert us[x] == ts[y] && us[0] == ts[if 0 < i then 0 else 1];
      BornKept(ops, k, ts, us, ts[y], us[x]);
    }
  }

  lemma AcceptedBorn(ops: seq<Op>, k: nat, ts: seq<Trans>)
    requires k < |ops| && ops[k].RegAccept? && AllBorn(ops, k, ts)
    ensures AllBorn(ops, k + 1, Apply(ts, ops[k]))
  {
    var us := Apply(ts, ops[k]);
    forall x | 0 <= x < |us| ensures Born(ops, k + 1, us, us[x]) {
      BornKept(ops, k, ts, us, ts[x], us[x]);
    }
  }

  lemma ApplyBorn(ops: seq<Op>, k: nat, ts: seq<Trans>, clock: real)
    requires k < |ops| && AllBorn(ops, k, ts) && Ordered(ts, clock)
    ensures AllBorn(ops, k + 1, Apply(ts, ops[k]))
  {
    match ops[k]
    case Create(_, _) => CreatedBorn(ops, k, ts, clock);
    case RegAccept(_, _) => AcceptedBorn(ops, k, ts);
    case Remove(id) => RemovedBorn(ops, k, ts, clock, id);
  }

  lemma {:induction false} RunBorn(lists: seq<seq<Trans>>, clocks: seq<real>, ops: seq<Op>, k: nat)
    requires IsRun(lists, clocks, ops) && k < |lists|
    ensures AllBorn(ops, k, lists[k])
  {
    if k > 0 {
      RunBorn(lists, clocks, ops, k - 1);
      RunOrdered(lists, clocks, ops, k - 1);
      ApplyBorn(ops, k - 1, lists[k - 1], clocks[k - 1]);
    }
  }

  /** In every run in which no 65536 creates follow one within its lifetime, all ids at hand are
      distinct at all times. */
  lemma {:induction false} RunIdsDistinct(lists: seq<seq<Trans>>, clocks: seq<real>, ops: seq<Op>, k: nat)
    requires IsRun(lists, clocks, ops) && Paced(ops) && k < |lists|
    ensures IdsDistinct(lists[k])
  {
    if k > 0 {
      RunIdsDistinct(lists, clocks, ops, k - 1);
      match ops[k - 1]
      case Create(_, _) => CreateDistinct(lists, clocks, ops, k - 1);
      case RegAccept(_, _) =>
      case Remove(id) => RemovedDistinct(lists[k - 1], id);
    }
  }

  lemma RemovedDistinct(ts: seq<Trans>, id: uint16)
    requires IdsDistinct(ts)
    ensures IdsDistinct(Removed(ts, id))
  {
    var i, us := Find(ts, id), Removed(ts, id);
    forall x | 0 <= x < |us| ensures us[x] == ts[if x < i then x else x + 1] {}
  }

  lemma CreateDistinct(lists: seq<seq<Trans>>, clocks: seq<real>, ops: seq<Op>, k: nat)
    requires IsRun(lists, clocks, ops) && Paced(ops) && k < |ops| && ops[k].Create?
    ensures IdsDistinct(lists[k + 1])
  {
    var us := lists[k + 1];
    RunBorn(lists, clocks, ops, k + 1);
    RunOrdered(lists, clocks, ops, k + 1);
    var last := |us| - 1;
    if last > 0 {
      RunOrdered(lists, clocks, ops, k);
      YoungIsPrefix(lists[k], clocks[k], ops[k].scan);
      assert us[last] == lists[k][last - 1] && !Old(us[last], ops[k].scan);
      SpanBound(ops, k, us, us[last]);
    }
    SpanDistinct(us);
  }

  /** A transaction that survives the scan of a create is less than 2^16 behind. */
  lemma SpanBound(ops: seq<Op>, k: nat, us: seq<Trans>, t: Trans)
    requires k < |ops| && ops[k].Create? && Paced(ops) && us != []
    requires Born(ops, k + 1, us, t) && !Old(t, ops[k].scan)
    ensures us[0].serial - t.serial < 0x1_0000
  {
    var b: nat :| BornAt(ops, k + 1, us, t, b);
    if b < k {
      assert ops[k].scan - ops[b].now <= TRANS_ID_MAX_LIFETIME;
    }
  }

  // ---- and only then, while nothing is removed ----

  /** Transaction t is at hand, and the newest one is exactly d ahead of it. */
  ghost predicate Ahead(ts: seq<Trans>, sent: real, d: nat) {
    exists x :: IsAhead(ts, sent, d, x)
  }

  ghost predicate IsAhead(ts: seq<Trans>, sent: real, d: nat, x: int) {
    0 <= x < |ts| && ts[x].sent == sent && ts[0].serial - ts[x].serial == d
  }

  lemma AheadKept(ts: seq<Trans>, clock: real, op: Op, sent: real, d: nat)
    requires Ordered(ts, clock) && Ahead(ts, sent, d) && !op.Remove?
    requires op.Create? ==> op.scan - sent <= TRANS_ID_MAX_LIFETIME
    ensures Ahead(Apply(ts, op), sent, if op.Create? then d + 1 else d)
  {
    var x :| IsAhead(ts, sent, d, x);
    var us := Apply(ts, op);
    match op
    case Create(scan, now) =>
      YoungIsPrefix(ts, clock, scan);
      assert Young(ts, scan)[x] == ts[x] && Young(ts, scan)[0] == ts[0];
      assert IsAhead(us, sent, d + 1, x + 1);
    case RegAccept(id, now) =>
      assert IsAhead(us, sent, d, x);
  }

  /** From the create i on, up to operation k, as long as it is young at every scan. */
  lemma {:induction false} AheadAt(lists: seq<seq<Trans>>, clocks: seq<real>, ops: seq<Op>, i: nat, k: nat)
    requires IsRun(lists, clocks, ops) && i < k <= |ops| && ops[i].Create?
    requires NoRemoval(ops) && StaysYoung(ops, i, k)
    ensures Ahead(lists[k], ops[i].now, Creates(ops, i + 1, k))
  {
    if k == i + 1 {
      AheadStart(lists, clocks, ops, i);
    } else {
      AheadAt(lists, clocks, ops, i, k - 1);
      AheadNext(lists, clocks, ops, i, k - 1);
    }
  }

  lemma AheadStart(lists: seq<seq<Trans>>, clocks: seq<real>, ops: seq<Op>, i: nat)
    requires IsRun(lists, clocks, ops) && i < |ops| && ops[i].Create?
    ensures Ahead(lists[i + 1], ops[i].now, Creates(ops, i + 1, i + 1))
  {
    assert lists[i + 1] == Created(lists[i], ops[i].scan, ops[i].now);
    assert IsAhead(lists[i + 1], ops[i].now, 0, 0);
  }

  lemma AheadNext(lists: seq<seq<Trans>>, clocks: seq<real>, ops: seq<Op>, i: nat, k: nat)
    requires IsRun(lists, clocks, ops) && i < k < |ops| && ops[i].Create?
    requires NoRemoval(ops) && StaysYoung(ops, i, k + 1) && Ahead(lists[k], ops[i].now, Creates(ops, i + 1, k))
    ensures Ahead(lists[k + 1], ops[i].now, Creates(ops, i + 1, k + 1))
  {
    RunOrdered(lists, clocks, ops, k);
    AheadKept(lists[k], clocks[k], ops[k], ops[i].now, Creates(ops, i + 1, k));
    assert lists[k + 1] == Apply(lists[k], ops[k]);
  }

  /** The last of exactly 65536 creates after create i. */
  lemma {:induction false} LastCreate(ops: seq<Op>, i: nat, j: nat) returns (k: nat)
    requires i < j < |ops| && Creates(ops, i + 1, j + 1) >= 0x1_0000
    ensures i < k <= j && ops[k].Create? && Creates(ops, i + 1, k + 1) == 0x1_0000
  {
    if Creates(ops, i + 1, j + 1) == 0x1_0000 && ops[j].Create? {
      k := j;
    } else {
      k := LastCreate(ops, i, j - 1);
    }
  }

  lemma {:induction false} ClocksRise(lists: seq<seq<Trans>>, clocks: seq<real>, ops: seq<Op>, i: nat, k: nat)
    requires IsRun(lists, clocks, ops) && i <= k < |clocks|
    ensures clocks[i] <= clocks[k]
  {
    if i < k {
      ClocksRise(lists, clocks, ops, i, k - 1);
    }
  }

  lemma ScansRise(lists: seq<seq<Trans>>, clocks: seq<real>, ops: seq<Op>, m: nat, j: nat)
    requires IsRun(lists, clocks, ops) && m <= j < |ops| && ops[m].Create? && ops[j].Create?
    ensures ops[m].scan <= ops[j].scan
  {
    if m < j {
      CreateTimes(lists, clocks, ops, m);
      CreateTimes(lists, clocks, ops, j);
      ClocksRise(lists, clocks, ops, m + 1, j);
    }
  }

  lemma CreateTimes(lists: seq<seq<Trans>>, clocks: seq<real>, ops: seq<Op>, k: nat)
    requires IsRun(lists, clocks, ops) && k < |ops| && ops[k].Create?
    ensures clocks[k] <= ops[k].scan <= clocks[k + 1]
  {
    assert clocks[k] <= clocks[k + 1];
  }

  /** Transaction x has the id of the newest one, if that is 2^16 ahead. */
  lemma AheadClashes(ts: seq<Trans>, sent: real)
    requires Ahead(ts, sent, 0x1_0000)
    ensures !IdsDistinct(ts)
  {
    var x :| IsAhead(ts, sent, 0x1_0000, x);
    SameId(ts[x].serial, ts[0].serial);
  }

  /** Without removals: the ids at hand are distinct at all times exactly if no 65536 creates follow
      one within its lifetime. */
  lemma RunIdsDistinctExact(lists: seq<seq<Trans>>, clocks: seq<real>, ops: seq<Op>)
    requires IsRun(lists, clocks, ops) && NoRemoval(ops)
    ensures Paced(ops) <==> forall k | 0 <= k < |lists| :: IdsDistinct(lists[k])
  {
    if Paced(ops) {
      forall k | 0 <= k < |lists| ensures IdsDistinct(lists[k]) {
        RunIdsDistinct(lists, clocks, ops, k);
      }
    } else {
      var i, j :| 0 <= i < j < |ops| && ops[i].Create? && ops[j].Create? && Creates(ops, i + 1, j + 1) >= 0x1_0000
                  && ops[j].scan - ops[i].now <= TRANS_ID_MAX_LIFETIME;
      RunClashes(lists, clocks, ops, i, j);
    }
  }

  lemma RunClashes(lists: seq<seq<Trans>>, clocks: seq<real>, ops: seq<Op>, i: nat, j: nat)
    requires IsRun(lists, clocks, ops) && NoRemoval(ops)
    requires i < j < |ops| && ops[i].Create? && ops[j].Create? && Creates(ops, i + 1, j + 1) >= 0x1_0000
    requires ops[j].scan - ops[i].now <= TRANS_ID_MAX_LIFETIME
    ensures exists k :: 0 <= k < |lists| && !IdsDistinct(lists[k])
  {
    var k := LastCreate(ops, i, j);
    ScansRise(lists, clocks, ops, k, j);
    ClashAt(lists, clocks, ops, i, k);
  }

  lemma ClashAt(lists: seq<seq<Trans>>, clocks: seq<real>, ops: seq<Op>, i: nat, k: nat)
    requires IsRun(lists, clocks, ops) && NoRemoval(ops)
    requires i < k < |ops| && ops[i].Create? && ops[k].Create? && Creates(ops, i + 1, k + 1) == 0x1_0000
    requires ops[k].scan - ops[i].now <= TRANS_ID_MAX_LIFETIME
    ensures !IdsDistinct(lists[k + 1])
  {
    YoungUntil(lists, clocks, ops, i, k);
    AheadAt(lists, clocks, ops, i, k + 1);
    AheadClashes(lists[k + 1], ops[i].now);
  }

  /** Create i is young at every scan from there on before operation k. */
  ghost predicate StaysYoung(ops: seq<Op>, i: nat, k: nat)
    requires i < k <= |ops| && ops[i].Create?
  {
    forall m | i < m < k && ops[m].Create? :: ops[m].scan - ops[i].now <= TRANS_ID_MAX_LIFETIME
  }

  ghost predicate NoRemoval(ops: seq<Op>) {
    forall m | 0 <= m < |ops| :: !ops[m].Remove?
  }

  lemma YoungUntil(lists: seq<seq<Trans>>, clocks: seq<real>, ops: seq<Op>, i: nat, j: nat)
    requires IsRun(lists, clocks, ops) && i < j < |ops| && ops[i].Create? && ops[j].Create?
    requires ops[j].scan - ops[i].now <= TRANS_ID_MAX_LIFETIME
    ensures StaysYoung(ops, i, j + 1)
  {
    forall m | i < m < j + 1 && ops[m].Create? ensures ops[m].scan - ops[i].now <= TRANS_ID_MAX_LIFETIME {
      ScansRise(lists, clocks, ops, m, j);
    }
  }

  // ---- exactly, with removals ----

  /** The serial number that create i gave. */
  ghost function SerialOf(lists: seq<seq<Trans>>, i: nat): nat
    requires i + 1 < |lists|
  {
    if lists[i + 1] == [] then 0 else lists[i + 1][0].serial
  }

  /** No operation between i and k removes this id. */
  ghost predicate NotRemoved(ops: seq<Op>, i: int, k: int, id: uint16) {
    forall m | i < m < k && 0 <= m < |ops| :: ops[m] != Remove(id)
  }

  /** Unless its id was removed in between, create j comes after the lifetime of create i if its serial
      number is 2^16 or more ahead. */
  ghost predicate PacedPair(lists: seq<seq<Trans>>, ops: seq<Op>, i: nat, j: nat)
    requires |lists| == |ops| + 1 && i < j < |ops|
  {
    && ops[i].Create? && ops[j].Create? && NotRemoved(ops, i, j, IdOf(SerialOf(lists, i)))
    && SerialOf(lists, j) >= SerialOf(lists, i) + 0x1_0000 ==>
      ops[j].scan - ops[i].now > TRANS_ID_MAX_LIFETIME
  }

  ghost predicate SerialPaced(lists: seq<seq<Trans>>, ops: seq<Op>)
    requires |lists| == |ops| + 1
  {
    forall i, j | 0 <= i < j < |ops| :: PacedPair(lists, ops, i, j)
  }

  ghost predicate AtHand(ts: seq<Trans>, serial: nat, sent: real) {
    exists x :: IsAt(ts, serial, sent, x)
  }

  ghost predicate IsAt(ts: seq<Trans>, serial: nat, sent: real, x: int) {
    0 <= x < |ts| && ts[x].serial == serial && ts[x].sent == sent
  }

  /** A transaction stays at hand while it is young and its id is not removed. */
  lemma AtHandKept(ts: seq<Trans>, clock: real, op: Op, serial: nat, sent: real)
    requires Ordered(ts, clock) && AtHand(ts, serial, sent) && op != Remove(IdOf(serial))
    requires op.Create? ==> op.scan - sent <= TRANS_ID_MAX_LIFETIME
    ensures AtHand(Apply(ts, op), serial, sent)
  {
    match op
    case Create(scan, now) => CreateKeeps(ts, clock, scan, now, serial, sent);
    case RegAccept(id, now) =>
      if id != 0 { AcceptKeeps(ts, id, now, serial, sent); }
    case Remove(id) => RemoveKeeps(ts, id, serial, sent);
  }

  lemma CreateKeeps(ts: seq<Trans>, clock: real, scan: real, now: real, serial: nat, sent: real)
    requires Ordered(ts, clock) && AtHand(ts, serial, sent) && scan - sent <= TRANS_ID_MAX_LIFETIME
    ensures AtHand(Created(ts, scan, now), serial, sent)
  {
    var x :| IsAt(ts, serial, sent, x);
    YoungIsPrefix(ts, clock, scan);
    assert Created(ts, scan, now)[x + 1] == Young(ts, scan)[x] == ts[x];
    assert IsAt(Created(ts, scan, now), serial, sent, x + 1);
  }

  lemma AcceptKeeps(ts: seq<Trans>, id: uint16, now: real, serial: nat, sent: real)
    requires AtHand(ts, serial, sent)
    ensures AtHand(Accepted(ts, id, now), serial, sent)
  {
    var x :| IsAt(ts, serial, sent, x);
    assert IsAt(Accepted(ts, id, now), serial, sent, x);
  }

  lemma RemoveKeeps(ts: seq<Trans>, id: uint16, serial: nat, sent: real)
    requires AtHand(ts, serial, sent) && id != IdOf(serial)
    ensures AtHand(Removed(ts, id), serial, sent)
  {
    var x :| IsAt(ts, serial, sent, x);
    var i := Find(ts, id);
    assert i != x;
    assert Removed(ts, id)[if x < i then x else x - 1] == ts[x];
    assert IsAt(Removed(ts, id), serial, sent, if x < i then x else x - 1);
  }

  /** So does the one of create i, up to operation k. */
  lemma {:induction false} AtHandAt(lists: seq<seq<Trans>>, clocks: seq<real>, ops: seq<Op>, i: nat, k: nat)
    requires IsRun(lists, clocks, ops) && i < k <= |ops| && ops[i].Create?
    requires NotRemoved(ops, i, k, IdOf(SerialOf(lists, i))) && StaysYoung(ops, i, k)
    ensures AtHand(lists[k], SerialOf(lists, i), ops[i].now)
  {
    if k == i + 1 {
      assert lists[i + 1] == Created(lists[i], ops[i].scan, ops[i].now);
      assert IsAt(lists[i + 1], SerialOf(lists, i), ops[i].now, 0);
    } else {
      AtHandAt(lists, clocks, ops, i, k - 1);
      RunOrdered(lists, clocks, ops, k - 1);
      AtHandKept(lists[k - 1], clocks[k - 1], ops[k - 1], SerialOf(lists, i), ops[i].now);
    }
  }

  /** The newest serial number rises by at most one at a time. */
  lemma NewestNext(ts: seq<Trans>, clock: real, op: Op)
    requires Ordered(ts, clock) && ts != [] && Apply(ts, op) != []
    ensures Apply(ts, op)[0].serial <= ts[0].serial + 1
  {
    if op.Create? {
      YoungIsPrefix(ts, clock, op.scan);
    }
  }

  lemma NewestAt(lists: seq<seq<Trans>>, clocks: seq<real>, ops: seq<Op>, j: nat)
    requires IsRun(lists, clocks, ops) && j < |ops| && lists[j] != [] && lists[j + 1] != []
    ensures lists[j + 1][0].serial <= lists[j][0].serial + 1
  {
    RunOrdered(lists, clocks, ops, j);
    NewestNext(lists[j], clocks[j], ops[j]);
  }

  /** Coming from create i to 2^16 ahead of it, the newest one is exactly 2^16 ahead at some time. */
  lemma {:induction false} Crossing(lists: seq<seq<Trans>>, clocks: seq<real>, ops: seq<Op>, i: nat, j: nat)
      returns (k: nat)
    requires IsRun(lists, clocks, ops) && i < j <= |ops| && (forall m | i < m <= j :: lists[m] != [])
    requires lists[j][0].serial >= SerialOf(lists, i) + 0x1_0000
    ensures i < k <= j && lists[k][0].serial == SerialOf(lists, i) + 0x1_0000
  {
    if lists[j][0].serial == SerialOf(lists, i) + 0x1_0000 {
      k := j;
    } else {
      NewestAt(lists, clocks, ops, j - 1);
      k := Crossing(lists, clocks, ops, i, j - 1);
    }
  }

  /** A pair that is not paced makes two ids meet. */
  lemma UnpacedClashes(lists: seq<seq<Trans>>, clocks: seq<real>, ops: seq<Op>, i: nat, j: nat)
    requires IsRun(lists, clocks, ops) && i < j < |ops| && !PacedPair(lists, ops, i, j)
    ensures exists k :: 0 <= k < |lists| && !IdsDistinct(lists[k])
  {
    YoungUntil(lists, clocks, ops, i, j);
    forall m | i < m <= j + 1 ensures AtHand(lists[m], SerialOf(lists, i), ops[i].now) {
      AtHandAt(lists, clocks, ops, i, m);
    }
    var k := Crossing(lists, clocks, ops, i, j + 1);
    var x :| IsAt(lists[k], SerialOf(lists, i), ops[i].now, x);
    SameId(lists[k][x].serial, lists[k][0].serial);
  }

  /** Transaction t was created by operation b, and its id was not removed since. */
  ghost predicate CameFrom(lists: seq<seq<Trans>>, ops: seq<Op>, k: nat, t: Trans, b: nat)
    requires |lists| == |ops| + 1
  {
    && b < k <= |ops| && ops[b].Create? && ops[b].now == t.sent && SerialOf(lists, b) == t.serial
    && NotRemoved(ops, b, k, IdOf(t.serial))
  }

  ghost predicate Came(lists: seq<seq<Trans>>, ops: seq<Op>, k: nat, t: Trans)
    requires |lists| == |ops| + 1
  {
    exists b: nat :: CameFrom(lists, ops, k, t, b)
  }

  ghost predicate AllCame(lists: seq<seq<Trans>>, ops: seq<Op>, k: nat)
    requires |lists| == |ops| + 1 && k <= |ops|
  {
    forall x | 0 <= x < |lists[k]| :: Came(lists, ops, k, lists[k][x])
  }

  lemma CameKept(lists: seq<seq<Trans>>, ops: seq<Op>, k: nat, t: Trans, u: Trans)
    requires |lists| == |ops| + 1 && k < |ops| && Came(lists, ops, k, t) && ops[k] != Remove(IdOf(t.serial))
    requires u.serial == t.serial && u.sent == t.sent
    ensures Came(lists, ops, k + 1, u)
  {
    var b: nat :| CameFrom(lists, ops, k, t, b);
    assert CameFrom(lists, ops, k + 1, u, b);
  }

  /** While the ids are distinct, a removal takes the one transaction with its id. */
  lemma CameNext(lists: seq<seq<Trans>>, clocks: seq<real>, ops: seq<Op>, k: nat)
    requires IsRun(lists, clocks, ops) && k < |ops| && AllCame(lists, ops, k) && IdsDistinct(lists[k])
    ensures AllCame(lists, ops, k + 1)
  {
    var ts, us := lists[k], lists[k + 1];
    forall x | 0 <= x < |us| ensures Came(lists, ops, k + 1, us[x]) {
      if ops[k].Create? && x == 0 {
        assert CameFrom(lists, ops, k + 1, us[0], k);
      } else {
        var y := KeptFrom(lists, clocks, ops, k, x);
        CameKept(lists, ops, k, ts[y], us[x]);
      }
    }
  }

  /** Where a transaction was before operation k. */
  lemma KeptFrom(lists: seq<seq<Trans>>, clocks: seq<real>, ops: seq<Op>, k: nat, x: nat) returns (y: nat)
    requires IsRun(lists, clocks, ops) && k < |ops| && IdsDistinct(lists[k]) && x < |lists[k + 1]|
    requires ops[k].Create? ==> x > 0
    ensures y < |lists[k]| && lists[k][y].serial == lists[k + 1][x].serial
    ensures lists[k][y].sent == lists[k + 1][x].sent && ops[k] != Remove(IdOf(lists[k][y].serial))
    ensures ops[k].Create? ==> !Old(lists[k + 1][x], ops[k].scan)
  {
    RunOrdered(lists, clocks, ops, k);
    match ops[k]
    case Create(scan, now) => y := SurvivorFrom(lists[k], clocks[k], scan, now, x);
    case RegAccept(id, now) => y := x;
    case Remove(id) => y := RemainderFrom(lists[k], id, x);
  }

  lemma SurvivorFrom(ts: seq<Trans>, clock: real, scan: real, now: real, x: nat) returns (y: nat)
    requires Ordered(ts, clock) && 0 < x < |Created(ts, scan, now)|
    ensures y < |ts| && ts[y] == Created(ts, scan, now)[x] && !Old(ts[y], scan)
  {
    YoungIsPrefix(ts, clock, scan);
    y := x - 1;
    assert Created(ts, scan, now)[x] == Young(ts, scan)[y];
  }

  lemma RemainderFrom(ts: seq<Trans>, id: uint16, x: nat) returns (y: nat)
    requires IdsDistinct(ts) && x < |Removed(ts, id)|
    ensures y < |ts| && ts[y] == Removed(ts, id)[x] && IdOf(ts[y].serial) != id
  {
    y := if x < Find(ts, id) then x else x + 1;
  }

  lemma {:induction false} PacedIsDistinct(lists: seq<seq<Trans>>, clocks: seq<real>, ops: seq<Op>, k: nat)
    requires IsRun(lists, clocks, ops) && SerialPaced(lists, ops) && k < |lists|
    ensures AllCame(lists, ops, k) && IdsDistinct(lists[k])
  {
    if k > 0 {
      PacedIsDistinct(lists, clocks, ops, k - 1);
      CameNext(lists, clocks, ops, k - 1);
      PacedNext(lists, clocks, ops, k - 1);
    }
  }

  lemma PacedNext(lists: seq<seq<Trans>>, clocks: seq<real>, ops: seq<Op>, k: nat)
    requires IsRun(lists, clocks, ops) && SerialPaced(lists, ops) && k < |ops|
    requires AllCame(lists, ops, k) && IdsDistinct(lists[k])
    ensures IdsDistinct(lists[k + 1])
  {
    assert lists[k + 1] == Apply(lists[k], ops[k]);
    match ops[k]
    case Create(_, _) => PacedCreate(lists, clocks, ops, k);
    case RegAccept(id, now) => AcceptedDistinct(lists[k], id, now);
    case Remove(id) => RemovedDistinct(lists[k], id);
  }

  lemma AcceptedDistinct(ts: seq<Trans>, id: uint16, now: real)
    requires IdsDistinct(ts)
    ensures IdsDistinct(Accepted(ts, id, now))
  {
    assert forall x | 0 <= x < |ts| :: Accepted(ts, id, now)[x].serial == ts[x].serial;
  }

  lemma PacedCreate(lists: seq<seq<Trans>>, clocks: seq<real>, ops: seq<Op>, k: nat)
    requires IsRun(lists, clocks, ops) && SerialPaced(lists, ops) && k < |ops| && ops[k].Create?
    requires AllCame(lists, ops, k) && IdsDistinct(lists[k])
    ensures IdsDistinct(lists[k + 1])
  {
    RunOrdered(lists, clocks, ops, k + 1);
    if |lists[k + 1]| > 1 {
      PacedSpan(lists, clocks, ops, k, |lists[k + 1]| - 1);
    }
    SpanDistinct(lists[k + 1]);
  }

  lemma PacedSpan(lists: seq<seq<Trans>>, clocks: seq<real>, ops: seq<Op>, k: nat, x: nat)
    requires IsRun(lists, clocks, ops) && SerialPaced(lists, ops) && k < |ops| && ops[k].Create?
    requires AllCame(lists, ops, k) && IdsDistinct(lists[k]) && 0 < x < |lists[k + 1]|
    ensures lists[k + 1][0].serial - lists[k + 1][x].serial < 0x1_0000
  {
    var y := KeptFrom(lists, clocks, ops, k, x);
    var b: nat :| CameFrom(lists, ops, k, lists[k][y], b);
    assert PacedPair(lists, ops, b, k);
  }

  /** The ids at hand are distinct at all times of a run exactly if no create gives a serial number that
      is 2^16 or more ahead of one given within its lifetime and not removed since. */
  lemma AnyRunDistinctExact(lists: seq<seq<Trans>>, clocks: seq<real>, ops: seq<Op>)
    requires IsRun(lists, clocks, ops)
    ensures SerialPaced(lists, ops) <==> forall k | 0 <= k < |lists| :: IdsDistinct(lists[k])
  {
    if SerialPaced(lists, ops) {
      forall k | 0 <= k < |lists| ensures IdsDistinct(lists[k]) {
        PacedIsDistinct(lists, clocks, ops, k);
      }
    } else {
      var i, j :| 0 <= i < j < |ops| && !PacedPair(lists, ops, i, j);
      UnpacedClashes(lists, clocks, ops, i, j);
    }
  }

  /** Live transactions that span fewer than 2^16 serial numbers have distinct ids. */
  lemma SpanDistinct(ts: seq<Trans>)
    requires forall i, j | 0 <= i < j < |ts| :: ts[i].serial > ts[j].serial
    requires ts != [] ==> ts[0].serial - ts[|ts| - 1].serial < 0x1_0000
    ensures IdsDistinct(ts)
  {
    forall i, j | 0 <= i < j < |ts| ensures IdOf(ts[i].serial) != IdOf(ts[j].serial) {
      assert ts[0].serial >= ts[i].serial > ts[j].serial >= ts[|ts| - 1].serial;
    }
  }

  /** The id after 65535 is 0, the invalid one, since the test for the wrap is made before the
      value is cut to 16 bits; an id is never 0 otherwise. */
  lemma NewIdValidExact(ts: seq<Trans>, clock: real, scan: real, now: real)
    requires Ordered(ts, clock)
    ensures IdOf(Created(ts, scan, now)[0].serial) == 0 <==>
            Young(ts, scan) != [] && IdOf(Young(ts, scan)[0].serial) == 0xFFFF
  {
  }

  /** A new transaction is found under its id, with -1 for the accept time until one is registered. */
  lemma AcceptTime(ts: seq<Trans>, scan: real, now: real, at: real)
    ensures var once := Created(ts, scan, now);
            var id := IdOf(once[0].serial);
            && Find(once, id) == 0 && once[0].sent == now && once[0].accepted == -1.0
            && Find(Accepted(once, id, at), id) == 0 && Accepted(once, id, at)[0] == once[0].(accepted := at)
  {
  }

  /** Among distinct ids an operation on an id touches that transaction only. */
  lemma OnlyThatOne(ts: seq<Trans>, id: uint16, now: real, i: nat)
    requires IdsDistinct(ts) && i < |ts|
    ensures IdOf(ts[i].serial) == id <==> Find(ts, id) == i
    ensures Accepted(ts, id, now)[i] == if IdOf(ts[i].serial) == id then ts[i].(accepted := now) else ts[i]
    ensures ts[i] in Removed(ts, id) <==> IdOf(ts[i].serial) != id
  {
    var k, r := Find(ts, id), Removed(ts, id);
    if k < |ts| {
      forall j | 0 <= j < |r| ensures r[j] == ts[if j < k then j else j + 1] {}
      if i != k {
        assert r[if i < k then i else i - 1] == ts[i];
      }
    }
  }
}
