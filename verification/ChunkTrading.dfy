/** Latest-useful chunk selection under timed locks, on values: src/chunk_trader.c (offers) over
    src/chunklock.c. */
module ChunkTrading {

  /** A chunk was asked for at some time, in microseconds. */
  datatype Lock = Lock(chunk: int, at: int)

  ghost predicate TimedOut(l: Lock, now: int, timeout: nat) {
    now > l.at + timeout
  }

  /** chunk_locks_cleanup. */
  ghost function Cleaned(locks: seq<Lock>, now: int, timeout: nat): seq<Lock> {
    if locks == [] then []
    else Cleaned(locks[..|locks| - 1], now, timeout)
         + if TimedOut(locks[|locks| - 1], now, timeout) then [] else [locks[|locks| - 1]]
  }

  /** Where the first lock on this chunk is. */
  ghost function LockIndex(locks: seq<Lock>, chunk: int): (i: nat)
    ensures i <= |locks|
    ensures i < |locks| ==> locks[i].chunk == chunk
    ensures forall j | 0 <= j < i :: locks[j].chunk != chunk
  {
    if locks == [] || locks[0].chunk == chunk then 0 else 1 + LockIndex(locks[1..], chunk)
  }

  /** chunk_unlock. */
  ghost function Unlocked(locks: seq<Lock>, chunk: int): seq<Lock> {
    var i := LockIndex(locks, chunk);
    if i < |locks| then locks[..i] + locks[i + 1..] else locks
  }

  ghost predicate Locked(locks: seq<Lock>, chunk: int) {
    LockIndex(locks, chunk) < |locks|
  }

  ghost predicate ChunksDistinct(locks: seq<Lock>) {
    forall i, j | 0 <= i < j < |locks| :: locks[i].chunk != locks[j].chunk
  }

  // ---- selection ----

  ghost predicate Wanted(offer: seq<int>, buffer: set<int>, chunk: int) {
    chunk in offer && chunk !in buffer
  }

  /** The downward scan of chunk_trader_handle_offer from chunk on: what is accepted after acc, and
      the locks then. A lock is looked up, and the table cleaned, only for a wanted chunk. */
  ghost function Scan(chunk: int, min: int, offer: seq<int>, buffer: set<int>, maxDeliver: int, now: int, timeout: nat,
                      acc: seq<int>, locks: seq<Lock>): (seq<int>, seq<Lock>)
    decreases chunk - min
  {
    if chunk < min || |acc| >= maxDeliver then (acc, locks)
    else
      var ls := if Wanted(offer, buffer, chunk) then Cleaned(locks, now, timeout) else locks;
      if Wanted(offer, buffer, chunk) && !Locked(ls, chunk) then
        Scan(chunk - 1, min, offer, buffer, maxDeliver, now, timeout, acc + [chunk], ls + [Lock(chunk, now)])
      else
        Scan(chunk - 1, min, offer, buffer, maxDeliver, now, timeout, acc, ls)
  }

  ghost predicate InRange(offer: seq<int>, min: int, max: int) {
    forall i | 0 <= i < |offer| :: min <= offer[i] <= max
  }

  /** Offered, missing, and not asked for within the timeout. */
  ghost predicate Eligible(offer: seq<int>, buffer: set<int>, locks: seq<Lock>, now: int, timeout: nat, chunk: int) {
    Wanted(offer, buffer, chunk)
    && forall i | 0 <= i < |locks| && locks[i].chunk == chunk :: TimedOut(locks[i], now, timeout)
  }

  /** acc are the latest eligible chunks, as many as may be delivered, latest first. */
  ghost predicate LatestUseful(acc: seq<int>, offer: seq<int>, buffer: set<int>, locks: seq<Lock>, now: int,
                               timeout: nat, maxDeliver: int) {
    && (forall i, j | 0 <= i < j < |acc| :: acc[i] > acc[j])
    && (forall i | 0 <= i < |acc| :: Eligible(offer, buffer, locks, now, timeout, acc[i]))
    && (acc != [] ==> |acc| <= maxDeliver)
    && (|acc| < maxDeliver ==> forall k | 0 <= k < |offer| && Eligible(offer, buffer, locks, now, timeout, offer[k]) ::
                                 offer[k] in acc)
    && (forall i, k | 0 <= i < |acc| && 0 <= k < |offer| && Eligible(offer, buffer, locks, now, timeout, offer[k]) ::
          offer[k] in acc || offer[k] < acc[i])
  }

  // ---- lemmas about the lock table ----

  lemma {:induction false} CleanedExact(locks: seq<Lock>, now: int, timeout: nat)
    ensures forall l :: l in Cleaned(locks, now, timeout) <==> l in locks && now <= l.at + timeout
    ensures ChunksDistinct(locks) ==> ChunksDistinct(Cleaned(locks, now, timeout))
  {
    if locks != [] {
      var init, last := locks[..|locks| - 1], locks[|locks| - 1];
      CleanedExact(init, now, timeout);
      assert forall l | l in locks :: l in init || l == last;
      assert locks == init + [last];
      var rest := Cleaned(init, now, timeout);
      forall i | 0 <= i < |rest| && ChunksDistinct(locks) ensures rest[i].chunk != last.chunk {
        assert rest[i] in init;
      }
    }
  }

  lemma LockedExact(locks: seq<Lock>, chunk: int)
    ensures Locked(locks, chunk) <==> exists i :: 0 <= i < |locks| && locks[i].chunk == chunk
  {
    if i :| 0 <= i < |locks| && locks[i].chunk == chunk {
      assert LockIndex(locks, chunk) <= i;
    }
  }

  /** After a cleanup a chunk is locked exactly when a lock on it is young. */
  lemma CleanedLocked(locks: seq<Lock>, now: int, timeout: nat, chunk: int)
    ensures Locked(Cleaned(locks, now, timeout), chunk) <==>
            exists i :: 0 <= i < |locks| && locks[i].chunk == chunk && now <= locks[i].at + timeout
  {
    var ls := Cleaned(locks, now, timeout);
    CleanedExact(locks, now, timeout);
    LockedExact(ls, chunk);
    if i :| 0 <= i < |locks| && locks[i].chunk == chunk && !TimedOut(locks[i], now, timeout) {
      assert locks[i] in ls;
      var j :| 0 <= j < |ls| && ls[j] == locks[i];
    }
    if i :| 0 <= i < |ls| && ls[i].chunk == chunk {
      assert ls[i] in locks;
      var j :| 0 <= j < |locks| && locks[j] == ls[i];
    }
  }

  /** Unlocking a chunk leaves the locks on the others. */
  lemma UnlockedKeeps(locks: seq<Lock>, chunk: int)
    ensures forall l | l in locks && l.chunk != chunk :: l in Unlocked(locks, chunk)
    ensures ChunksDistinct(locks) ==> ChunksDistinct(Unlocked(locks, chunk)) && !Locked(Unlocked(locks, chunk), chunk)
  {
    var i, r := LockIndex(locks, chunk), Unlocked(locks, chunk);
    if i < |locks| {
      forall j | 0 <= j < |r| ensures r[j] == locks[if j < i then j else j + 1] {}
      forall l | l in locks && l.chunk != chunk ensures l in r {
        var j :| 0 <= j < |locks| && locks[j] == l;
        assert r[if j < i then j else j - 1] == l;
      }
    }
  }

  // ---- the selection is optimal ----

  ghost function NewLocks(acc: seq<int>, now: int): seq<Lock> {
    seq(|acc|, i requires 0 <= i < |acc| => Lock(acc[i], now))
  }

  /** The table is the one before the offer, cleaned or not, and a new lock for each accepted chunk. */
  ghost predicate LockedFor(locks: seq<Lock>, before: seq<Lock>, acc: seq<int>, now: int, timeout: nat) {
    locks == before + NewLocks(acc, now) || locks == Cleaned(before, now, timeout) + NewLocks(acc, now)
  }

  lemma {:induction false} CleanedConcat(a: seq<Lock>, b: seq<Lock>, now: int, timeout: nat)
    ensures Cleaned(a + b, now, timeout) == Cleaned(a, now, timeout) + Cleaned(b, now, timeout)
  {
    if b == [] {
      assert a + b == a;
    } else {
      var init, last := b[..|b| - 1], b[|b| - 1];
      assert (a + b)[..|a + b| - 1] == a + init;
      CleanedConcat(a, init, now, timeout);
    }
  }

  lemma {:induction false} CleanedYoung(locks: seq<Lock>, now: int, timeout: nat)
    requires forall i | 0 <= i < |locks| :: !TimedOut(locks[i], now, timeout)
    ensures Cleaned(locks, now, timeout) == locks
  {
    if locks != [] {
      CleanedYoung(locks[..|locks| - 1], now, timeout);
    }
  }

  /** Cleaning again at the same time changes nothing: new locks stay, old ones are gone. */
  lemma CleanedAgain(before: seq<Lock>, locks: seq<Lock>, acc: seq<int>, now: int, timeout: nat)
    requires LockedFor(locks, before, acc, now, timeout)
    ensures Cleaned(locks, now, timeout) == Cleaned(before, now, timeout) + NewLocks(acc, now)
  {
    var c := Cleaned(before, now, timeout);
    CleanedYoung(NewLocks(acc, now), now, timeout);
    CleanedConcat(before, NewLocks(acc, now), now, timeout);
    CleanedConcat(c, NewLocks(acc, now), now, timeout);
    CleanedExact(before, now, timeout);
    assert forall i | 0 <= i < |c| :: c[i] in c;
    CleanedYoung(c, now, timeout);
  }

  /** A chunk not accepted yet is locked now exactly when it is not eligible by the table before. */
  lemma LockedMeansIneligible(before: seq<Lock>, acc: seq<int>, now: int, timeout: nat, chunk: int)
    requires chunk !in acc
    ensures Locked(Cleaned(before, now, timeout) + NewLocks(acc, now), chunk) <==>
            exists i :: 0 <= i < |before| && before[i].chunk == chunk && now <= before[i].at + timeout
  {
    var c := Cleaned(before, now, timeout);
    CleanedLocked(before, now, timeout, chunk);
    LockedExact(c, chunk);
    LockedExact(c + NewLocks(acc, now), chunk);
    assert forall k | 0 <= k < |acc| :: NewLocks(acc, now)[k].chunk != chunk;
    if i :| 0 <= i < |c| && c[i].chunk == chunk {
      assert (c + NewLocks(acc, now))[i].chunk == chunk;
    }
    if i :| 0 <= i < |c + NewLocks(acc, now)| && (c + NewLocks(acc, now))[i].chunk == chunk {
      assert i < |c| ==> c[i].chunk == chunk;
    }
  }

  /** What the scan has established when it reaches chunk. */
  ghost predicate ScannedAbove(acc: seq<int>, offer: seq<int>, buffer: set<int>, locks: seq<Lock>, now: int,
                               timeout: nat, maxDeliver: int, chunk: int) {
    && (forall i, j | 0 <= i < j < |acc| :: acc[i] > acc[j])
    && (forall i | 0 <= i < |acc| :: acc[i] > chunk && Eligible(offer, buffer, locks, now, timeout, acc[i]))
    && (acc != [] ==> |acc| <= maxDeliver)
    && (forall k | 0 <= k < |offer| && offer[k] > chunk && Eligible(offer, buffer, locks, now, timeout, offer[k]) ::
          offer[k] in acc)
  }

  /** The scan accepts the latest useful chunks and locks exactly those. */
  lemma {:induction false} ScanExact(chunk: int, min: int, offer: seq<int>, buffer: set<int>, maxDeliver: int,
                                     now: int, timeout: nat, acc: seq<int>, locks: seq<Lock>, before: seq<Lock>)
    requires ScannedAbove(acc, offer, buffer, before, now, timeout, maxDeliver, chunk)
    requires LockedFor(locks, before, acc, now, timeout)
    requires forall k | 0 <= k < |offer| :: min <= offer[k]
    ensures var (acc', locks') := Scan(chunk, min, offer, buffer, maxDeliver, now, timeout, acc, locks);
            && LatestUseful(acc', offer, buffer, before, now, timeout, maxDeliver)
            && LockedFor(locks', before, acc', now, timeout)
    decreases chunk - min
  {
    if chunk < min || |acc| >= maxDeliver {
      ScanOver(acc, offer, buffer, before, now, timeout, maxDeliver, chunk, min);
    } else {
      var acc', locks' := ScanOne(chunk, min, offer, buffer, maxDeliver, now, timeout, acc, locks, before);
      ScanExact(chunk - 1, min, offer, buffer, maxDeliver, now, timeout, acc', locks', before);
    }
  }

  lemma ScanOver(acc: seq<int>, offer: seq<int>, buffer: set<int>, before: seq<Lock>, now: int, timeout: nat,
                 maxDeliver: int, chunk: int, min: int)
    requires ScannedAbove(acc, offer, buffer, before, now, timeout, maxDeliver, chunk)
    requires (chunk < min || |acc| >= maxDeliver) && forall k | 0 <= k < |offer| :: min <= offer[k]
    ensures LatestUseful(acc, offer, buffer, before, now, timeout, maxDeliver)
  {
  }

  /** One chunk of the scan. */
  lemma ScanOne(chunk: int, min: int, offer: seq<int>, buffer: set<int>, maxDeliver: int, now: int, timeout: nat,
                acc: seq<int>, locks: seq<Lock>, before: seq<Lock>)
      returns (acc': seq<int>, locks': seq<Lock>)
    requires ScannedAbove(acc, offer, buffer, before, now, timeout, maxDeliver, chunk)
    requires LockedFor(locks, before, acc, now, timeout) && min <= chunk && |acc| < maxDeliver
    ensures Scan(chunk, min, offer, buffer, maxDeliver, now, timeout, acc, locks) ==
            Scan(chunk - 1, min, offer, buffer, maxDeliver, now, timeout, acc', locks')
    ensures ScannedAbove(acc', offer, buffer, before, now, timeout, maxDeliver, chunk - 1)
    ensures LockedFor(locks', before, acc', now, timeout)
  {
    acc', locks' := acc, if Wanted(offer, buffer, chunk) then Cleaned(locks, now, timeout) else locks;
    TakenIfEligible(acc, offer, buffer, locks, before, now, timeout, chunk);
    if Wanted(offer, buffer, chunk) && !Locked(locks', chunk) {
      ScanTake(acc, offer, buffer, before, now, timeout, maxDeliver, chunk);
      acc', locks' := acc + [chunk], locks' + [Lock(chunk, now)];
    } else {
      ScanSkip(acc, offer, buffer, before, now, timeout, maxDeliver, chunk);
    }
  }

  lemma ScanSkip(acc: seq<int>, offer: seq<int>, buffer: set<int>, before: seq<Lock>, now: int, timeout: nat,
                 maxDeliver: int, chunk: int)
    requires ScannedAbove(acc, offer, buffer, before, now, timeout, maxDeliver, chunk)
    requires !Eligible(offer, buffer, before, now, timeout, chunk)
    ensures ScannedAbove(acc, offer, buffer, before, now, timeout, maxDeliver, chunk - 1)
  {
  }

  /** The scan takes chunk exactly when it is eligible, and adds a lock if it does. */
  lemma TakenIfEligible(acc: seq<int>, offer: seq<int>, buffer: set<int>, locks: seq<Lock>, before: seq<Lock>,
                        now: int, timeout: nat, chunk: int)
    requires LockedFor(locks, before, acc, now, timeout) && chunk !in acc
    ensures var ls := if Wanted(offer, buffer, chunk) then Cleaned(locks, now, timeout) else locks;
            && LockedFor(ls, before, acc, now, timeout)
            && (Eligible(offer, buffer, before, now, timeout, chunk) <==>
                  Wanted(offer, buffer, chunk) && !Locked(ls, chunk))
            && (Wanted(offer, buffer, chunk) ==>
                  LockedFor(ls + [Lock(chunk, now)], before, acc + [chunk], now, timeout))
  {
    CleanedAgain(before, locks, acc, now, timeout);
    LockedMeansIneligible(before, acc, now, timeout, chunk);
    NewLocksGrow(Cleaned(before, now, timeout), acc, chunk, now);
  }

  lemma NewLocksGrow(base: seq<Lock>, acc: seq<int>, chunk: int, now: int)
    ensures base + NewLocks(acc, now) + [Lock(chunk, now)] == base + NewLocks(acc + [chunk], now)
  {
  }

  lemma ScanTake(acc: seq<int>, offer: seq<int>, buffer: set<int>, before: seq<Lock>, now: int, timeout: nat,
                 maxDeliver: int, chunk: int)
    requires ScannedAbove(acc, offer, buffer, before, now, timeout, maxDeliver, chunk) && |acc| < maxDeliver
    requires Eligible(offer, buffer, before, now, timeout, chunk)
    ensures ScannedAbove(acc + [chunk], offer, buffer, before, now, timeout, maxDeliver, chunk - 1)
  {
  }

  // ---- runs: no chunk is fetched twice ----

  datatype Event =
    | Offer(offer: seq<int>, buffer: set<int>, maxDeliver: int, min: int, max: int, now: int)
    | Arrival(chunk: int)

  /** What is accepted in reaction to an event, and the locks after it. */
  ghost function React(locks: seq<Lock>, timeout: nat, e: Event): (seq<int>, seq<Lock>) {
    match e
    case Offer(offer, buffer, maxDeliver, min, max, now) =>
      Scan(max, min, offer, buffer, maxDeliver, now, timeout, [], locks)
    case Arrival(chunk) => ([], Unlocked(locks, chunk))
  }

  /** tables[k] are the locks before event k; the offers come at times that never decrease. */
  ghost predicate IsTrade(events: seq<Event>, tables: seq<seq<Lock>>, timeout: nat) {
    && |tables| == |events| + 1 && tables[0] == []
    && (forall k | 0 <= k < |events| :: tables[k + 1] == React(tables[k], timeout, events[k]).1)
    && (forall k | 0 <= k < |events| && events[k].Offer? ::
          InRange(events[k].offer, events[k].min, events[k].max))
    && (forall j, k | 0 <= j <= k < |events| && events[j].Offer? && events[k].Offer? :: events[j].now <= events[k].now)
  }

  ghost predicate Accepts(events: seq<Event>, tables: seq<seq<Lock>>, timeout: nat, k: nat, chunk: int)
    requires k < |events| < |tables|
  {
    events[k].Offer? && chunk in React(tables[k], timeout, events[k]).0
  }

  lemma OfferExact(locks: seq<Lock>, timeout: nat, e: Event)
    requires e.Offer? && InRange(e.offer, e.min, e.max)
    ensures var (acc, locks') := React(locks, timeout, e);
            && LatestUseful(acc, e.offer, e.buffer, locks, e.now, timeout, e.maxDeliver)
            && LockedFor(locks', locks, acc, e.now, timeout)
  {
    assert locks == locks + NewLocks([], e.now);
    ScanExact(e.max, e.min, e.offer, e.buffer, e.maxDeliver, e.now, timeout, [], locks, locks);
  }

  /** An offer drops only locks that have timed out. */
  lemma OfferKeeps(locks: seq<Lock>, timeout: nat, e: Event, l: Lock)
    requires e.Offer? && InRange(e.offer, e.min, e.max) && l in locks && !TimedOut(l, e.now, timeout)
    ensures l in React(locks, timeout, e).1
  {
    OfferExact(locks, timeout, e);
    CleanedExact(locks, e.now, timeout);
  }

  lemma OfferLocks(locks: seq<Lock>, timeout: nat, e: Event, chunk: int)
    requires e.Offer? && InRange(e.offer, e.min, e.max) && chunk in React(locks, timeout, e).0
    ensures Lock(chunk, e.now) in React(locks, timeout, e).1
  {
    OfferExact(locks, timeout, e);
    var acc := React(locks, timeout, e).0;
    var i :| 0 <= i < |acc| && acc[i] == chunk;
    assert NewLocks(acc, e.now)[i] == Lock(chunk, e.now);
  }

  /** From the accept on, until the chunk arrives, its lock is there or has timed out. */
  lemma {:induction false} LockStays(events: seq<Event>, tables: seq<seq<Lock>>, timeout: nat, i: nat, k: nat,
                                     chunk: int)
    requires IsTrade(events, tables, timeout) && i < k <= |events| && Accepts(events, tables, timeout, i, chunk)
    requires forall m | i < m < k :: events[m] != Arrival(chunk)
    ensures Lock(chunk, events[i].now) in tables[k]
            || exists m :: i < m < k && events[m].Offer? && events[m].now > events[i].now + timeout
  {
    var l := Lock(chunk, events[i].now);
    if k == i + 1 {
      OfferLocks(tables[i], timeout, events[i], chunk);
    } else {
      LockStays(events, tables, timeout, i, k - 1, chunk);
      var e := events[k - 1];
      if l in tables[k - 1] && !(e.Offer? && TimedOut(l, e.now, timeout)) {
        if e.Offer? {
          OfferKeeps(tables[k - 1], timeout, e, l);
        } else {
          UnlockedKeeps(tables[k - 1], e.chunk);
        }
      }
    }
  }

  /** Between two accepts of the same chunk, from whatever offers, either the chunk arrived or
      strictly more than the timeout passed. */
  lemma NoDoubleFetch(events: seq<Event>, tables: seq<seq<Lock>>, timeout: nat, i: nat, k: nat, chunk: int)
    requires IsTrade(events, tables, timeout) && i < k < |events|
    requires Accepts(events, tables, timeout, i, chunk) && Accepts(events, tables, timeout, k, chunk)
    ensures (exists m :: i < m < k && events[m] == Arrival(chunk)) || events[k].now > events[i].now + timeout
  {
    if forall m | i < m < k :: events[m] != Arrival(chunk) {
      LockStays(events, tables, timeout, i, k, chunk);
      OfferExact(tables[k], timeout, events[k]);
      var l := Lock(chunk, events[i].now);
      if l in tables[k] {
        var j :| 0 <= j < |tables[k]| && tables[k][j] == l;
        var acc := React(tables[k], timeout, events[k]).0;
        var a :| 0 <= a < |acc| && acc[a] == chunk;
        assert Eligible(events[k].offer, events[k].buffer, tables[k], events[k].now, timeout, acc[a]);
      }
    }
  }

  /** Every lock of a run is of an accept of its chunk, which did not arrive since. */
  ghost predicate LockedBy(events: seq<Event>, tables: seq<seq<Lock>>, timeout: nat, k: nat, l: Lock, i: nat)
    requires k <= |events| < |tables|
  {
    && i < k && Accepts(events, tables, timeout, i, l.chunk) && events[i].now == l.at
    && forall m | i < m < k :: events[m] != Arrival(l.chunk)
  }

  lemma {:induction false} LockCameFrom(events: seq<Event>, tables: seq<seq<Lock>>, timeout: nat, k: nat, l: Lock)
      returns (i: nat)
    requires IsTrade(events, tables, timeout) && k <= |events| && l in tables[k]
    ensures LockedBy(events, tables, timeout, k, l, i)
  {
    var e := events[k - 1];
    if l in tables[k - 1] && e != Arrival(l.chunk) {
      i := LockCameFrom(events, tables, timeout, k - 1, l);
    } else {
      i := k - 1;
      LocksDistinct(events, tables, timeout, k - 1);
      match e
      case Arrival(chunk) => UnlockedFrom(tables[k - 1], chunk, l);
      case Offer(_, _, _, _, _, _) => OfferAdds(tables[k - 1], timeout, e, l);
    }
  }

  /** An arrival adds no lock, and takes the one on its chunk. */
  lemma UnlockedFrom(locks: seq<Lock>, chunk: int, l: Lock)
    requires ChunksDistinct(locks) && l in Unlocked(locks, chunk)
    ensures l in locks && l.chunk != chunk
  {
    var i, r := LockIndex(locks, chunk), Unlocked(locks, chunk);
    if i < |locks| {
      var j :| 0 <= j < |r| && r[j] == l;
      assert r[j] == locks[if j < i then j else j + 1];
    }
  }

  /** A lock that an offer adds is on an accepted chunk. */
  lemma OfferAdds(locks: seq<Lock>, timeout: nat, e: Event, l: Lock)
    requires e.Offer? && InRange(e.offer, e.min, e.max) && l in React(locks, timeout, e).1 && l !in locks
    ensures l.chunk in React(locks, timeout, e).0 && l.at == e.now
  {
    OfferExact(locks, timeout, e);
    CleanedExact(locks, e.now, timeout);
    assert l in NewLocks(React(locks, timeout, e).0, e.now);
  }

  /** Every accept of the chunk before event k is more than the timeout old, or the chunk arrived since. */
  ghost predicate Free(events: seq<Event>, tables: seq<seq<Lock>>, timeout: nat, k: nat, chunk: int)
    requires k < |events| < |tables| && events[k].Offer?
  {
    forall i | 0 <= i < k && Accepts(events, tables, timeout, i, chunk) ::
      events[k].now > events[i].now + timeout || exists m :: i < m < k && events[m] == Arrival(chunk)
  }

  /** As many as may be delivered were accepted, all of them later than the chunk. */
  ghost predicate LaterOnes(acc: seq<int>, maxDeliver: int, chunk: int) {
    |acc| >= maxDeliver && forall i | 0 <= i < |acc| :: acc[i] > chunk
  }

  /** A chunk is accepted exactly when it is offered, it is not in the buffer, every accept so far is more
      than the timeout old or was followed by its arrival, and there are not enough later ones accepted. */
  lemma AcceptExact(events: seq<Event>, tables: seq<seq<Lock>>, timeout: nat, k: nat, chunk: int)
    requires IsTrade(events, tables, timeout) && k < |events| && events[k].Offer?
    ensures var acc := React(tables[k], timeout, events[k]).0;
            chunk in acc <==>
              && chunk in events[k].offer && chunk !in events[k].buffer
              && Free(events, tables, timeout, k, chunk) && !LaterOnes(acc, events[k].maxDeliver, chunk)
  {
    var e, acc := events[k], React(tables[k], timeout, events[k]).0;
    OfferExact(tables[k], timeout, e);
    if chunk in acc {
      var a :| 0 <= a < |acc| && acc[a] == chunk;
      assert Eligible(e.offer, e.buffer, tables[k], e.now, timeout, acc[a]);
      forall i | 0 <= i < k && Accepts(events, tables, timeout, i, chunk)
        ensures e.now > events[i].now + timeout || exists m :: i < m < k && events[m] == Arrival(chunk)
      {
        NoDoubleFetch(events, tables, timeout, i, k, chunk);
      }
    } else if chunk in e.offer && chunk !in e.buffer && Free(events, tables, timeout, k, chunk) {
      FreeMeansEligible(events, tables, timeout, k, chunk);
      TakenOrLater(acc, e.offer, e.buffer, tables[k], e.now, timeout, e.maxDeliver, chunk);
    }
  }

  lemma FreeMeansEligible(events: seq<Event>, tables: seq<seq<Lock>>, timeout: nat, k: nat, chunk: int)
    requires IsTrade(events, tables, timeout) && k < |events| && events[k].Offer?
    requires Free(events, tables, timeout, k, chunk)
    requires chunk in events[k].offer && chunk !in events[k].buffer
    ensures Eligible(events[k].offer, events[k].buffer, tables[k], events[k].now, timeout, chunk)
  {
    forall j | 0 <= j < |tables[k]| && tables[k][j].chunk == chunk
      ensures TimedOut(tables[k][j], events[k].now, timeout)
    {
      var i := LockCameFrom(events, tables, timeout, k, tables[k][j]);
    }
  }

  lemma TakenOrLater(acc: seq<int>, offer: seq<int>, buffer: set<int>, locks: seq<Lock>, now: int, timeout: nat,
                     maxDeliver: int, chunk: int)
    requires LatestUseful(acc, offer, buffer, locks, now, timeout, maxDeliver) && chunk !in acc
    requires Eligible(offer, buffer, locks, now, timeout, chunk)
    ensures LaterOnes(acc, maxDeliver, chunk)
  {
    var j :| 0 <= j < |offer| && offer[j] == chunk;
  }

  /** The locks of a run are on distinct chunks. */
  lemma {:induction false} LocksDistinct(events: seq<Event>, tables: seq<seq<Lock>>, timeout: nat, k: nat)
    requires IsTrade(events, tables, timeout) && k <= |events|
    ensures ChunksDistinct(tables[k])
  {
    if k > 0 {
      LocksDistinct(events, tables, timeout, k - 1);
      var e := events[k - 1];
      match e
      case Arrival(chunk) => UnlockedKeeps(tables[k - 1], chunk);
      case Offer(offer, buffer, maxDeliver, min, max, now) =>
        ScanDistinct(max, min, offer, buffer, maxDeliver, now, timeout, [], tables[k - 1]);
    }
  }

  lemma {:induction false} ScanDistinct(chunk: int, min: int, offer: seq<int>, buffer: set<int>, maxDeliver: int,
                                        now: int, timeout: nat, acc: seq<int>, locks: seq<Lock>)
    requires ChunksDistinct(locks)
    ensures ChunksDistinct(Scan(chunk, min, offer, buffer, maxDeliver, now, timeout, acc, locks).1)
    decreases chunk - min
  {
    if chunk < min || |acc| >= maxDeliver {
    } else {
      var ls := if Wanted(offer, buffer, chunk) then Cleaned(locks, now, timeout) else locks;
      CleanedExact(locks, now, timeout);
      if Wanted(offer, buffer, chunk) && !Locked(ls, chunk) {
        ScanDistinct(chunk - 1, min, offer, buffer, maxDeliver, now, timeout, acc + [chunk], ls + [Lock(chunk, now)]);
      } else {
        ScanDistinct(chunk - 1, min, offer, buffer, maxDeliver, now, timeout, acc, ls);
      }
    }
  }
}
