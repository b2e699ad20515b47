/** The lock table of src/chunklock.c and the offer handler of src/chunk_trader.c, in place,
    proved against ChunkTrading. */
module ChunkLocks {
  import opened ChunkTrading

  const LSIZE_INCREMENT := 10

  /** c is s with the entries from i up cleaned. */
  ghost predicate CleanedFrom(s: seq<Lock>, i: nat, c: seq<Lock>, now: int, timeout: nat) {
    i <= |s| && i <= |c| && c[..i] == s[..i] && Cleaned(s, now, timeout) == Cleaned(s[..i], now, timeout) + c[i..]
  }

  lemma CleanStep(s: seq<Lock>, i: nat, c: seq<Lock>, now: int, timeout: nat)
    requires CleanedFrom(s, i + 1, c, now, timeout)
    ensures CleanedFrom(s, i, if TimedOut(c[i], now, timeout) then c[..i] + c[i + 1..] else c, now, timeout)
  {
    assert c[..i] == c[..i + 1][..i] == s[..i + 1][..i] == s[..i];
    assert s[..i + 1][i] == c[..i + 1][i] == c[i];
    assert c[i..] == [c[i]] + c[i + 1..];
    assert (c[..i] + c[i + 1..])[i..] == c[i + 1..];
  }

  class LockTable {
    var locks: array<Lock>
    var lcount: nat
    const timeout: nat

    /** One slot is always free. */
    ghost predicate Valid()
      reads this
    {
      lcount < locks.Length
    }

    ghost function Contents(): seq<Lock>
      requires Valid()
      reads this, locks
    {
      locks[..lcount]
    }

    constructor (timeout: nat)
      ensures Valid() && Contents() == [] && this.timeout == timeout && fresh(locks)
    {
      locks := new Lock[LSIZE_INCREMENT](_ => Lock(0, 0));
      lcount := 0;
      this.timeout := timeout;
    }

    /** chunk_lock_remove: shift the tail down over entry i. */
    method RemoveAt(i: nat)
      requires Valid() && i < lcount
      modifies this`lcount, locks
      ensures Valid() && Contents() == old(Contents())[..i] + old(Contents())[i + 1..]
    {
      forall k | i <= k < lcount - 1 {
        locks[k] := locks[k + 1];
      }
      lcount := lcount - 1;
    }

    /** chunk_locks_cleanup: from the last entry down, remove what has timed out. */
    method Cleanup(now: int)
      requires Valid()
      modifies this`lcount, locks
      ensures Valid() && Contents() == Cleaned(old(Contents()), now, timeout)
    {
      ghost var s := Contents();
      var i := lcount - 1;
      assert s[..lcount] == s;
      while i >= 0
        invariant Valid() && -1 <= i < lcount && CleanedFrom(s, i + 1, Contents(), now, timeout)
      {
        CleanStep(s, i, Contents(), now, timeout);
        if now > locks[i].at + timeout {
          RemoveAt(i);
        }
        i := i - 1;
      }
      assert Contents()[0..] == Contents() && s[..0] == [];
    }

    /** chunk_lock. */
    method LockChunk(chunk: int, now: int)
      requires Valid()
      modifies this`lcount, this`locks, locks
      ensures Valid() && Contents() == old(Contents()) + [Lock(chunk, now)]
      ensures locks == old(locks) || fresh(locks)
    {
      locks[lcount] := Lock(chunk, now);
      lcount := lcount + 1;
      if lcount == locks.Length {
        var bigger := new Lock[locks.Length + LSIZE_INCREMENT](_ => Lock(0, 0));
        forall k | 0 <= k < lcount {
          bigger[k] := locks[k];
        }
        locks := bigger;
      }
    }

    /** chunk_unlock: remove the first lock on the chunk. */
    method UnlockChunk(chunk: int)
      requires Valid()
      modifies this`lcount, locks
      ensures Valid() && Contents() == Unlocked(old(Contents()), chunk)
    {
      var i := IndexOf(chunk);
      if i < lcount {
        RemoveAt(i);
      }
    }

    /** The search loop of chunk_unlock and chunk_islocked. */
    method IndexOf(chunk: int) returns (i: nat)
      requires Valid()
      ensures i == LockIndex(Contents(), chunk)
    {
      i := 0;
      assert Contents()[0..] == Contents();
      while i < lcount && locks[i].chunk != chunk
        invariant i <= lcount
        invariant LockIndex(Contents(), chunk) == i + LockIndex(Contents()[i..], chunk)
      {
        assert Contents()[i..][1..] == Contents()[i + 1..];
        i := i + 1;
      }
    }

    /** chunk_islocked: clean up, then look. */
    method IsLocked(chunk: int, now: int) returns (locked: bool)
      requires Valid()
      modifies this`lcount, locks
      ensures Valid() && Contents() == Cleaned(old(Contents()), now, timeout)
      ensures locked <==> Locked(Contents(), chunk)
    {
      Cleanup(now);
      var i := IndexOf(chunk);
      locked := i < lcount;
    }

    /** What the offer handler does with a useful chunk: lock it unless it is locked. */
    method LockIfFree(chunk: int, now: int) returns (taken: bool)
      requires Valid()
      modifies this`lcount, this`locks, locks
      ensures Valid() && (locks == old(locks) || fresh(locks))
      ensures var ls := Cleaned(old(Contents()), now, timeout);
              && taken == !Locked(ls, chunk)
              && Contents() == if taken then ls + [Lock(chunk, now)] else ls
    {
      var locked := IsLocked(chunk, now);
      if !locked {
        LockChunk(chunk, now);
      }
      taken := !locked;
    }
  }

  ghost predicate IsRange(cset: seq<int>, min: int, max: int) {
    InRange(cset, min, max) && if cset == [] then min == max == -1 else min in cset && max in cset
  }

  /** chunkID_set_get_earliest and chunkID_set_get_latest; -1 for the empty set. */
  method Range(cset: seq<int>) returns (min: int, max: int)
    ensures IsRange(cset, min, max) && (cset == [] ==> min == -1 && max == -1)
    ensures cset != [] ==> min in cset && max in cset && forall c | c in cset :: min <= c <= max
  {
    min, max := -1, -1;
    if cset != [] {
      min, max := cset[0], cset[0];
      for i := 1 to |cset|
        invariant min in cset && max in cset
        invariant forall k | 0 <= k < i :: min <= cset[k] <= max
      {
        if cset[i] < min { min := cset[i]; }
        if cset[i] > max { max := cset[i]; }
      }
    }
  }

  /** The counting array: ids[c - min] is positive exactly for the offered chunks c. */
  method CountOffered(cset: seq<int>, min: int, max: int) returns (ids: array<int>)
    requires InRange(cset, min, max) && min <= max
    ensures fresh(ids) && ids.Length == max - min + 1
    ensures forall c | min <= c <= max :: ids[c - min] != 0 <==> c in cset
  {
    ids := new int[max - min + 1](_ => 0);
    for i := 0 to |cset|
      invariant forall k | 0 <= k < ids.Length :: ids[k] >= 0 && (ids[k] != 0 <==> k + min in cset[..i])
    {
      assert cset[..i + 1] == cset[..i] + [cset[i]];
      ids[cset[i] - min] := ids[cset[i] - min] + 1;
    }
    assert cset[..|cset|] == cset;
  }

  /** chunk_trader_handle_offer: accept the latest useful chunks and lock them. buffer is what the
      chunk buffer holds. */
  method HandleOffer(table: LockTable, cset: seq<int>, buffer: set<int>, maxDeliver: int, now: int)
      returns (acc: seq<int>)
    requires table.Valid()
    modifies table`lcount, table`locks, table.locks
    ensures table.Valid()
    ensures LatestUseful(acc, cset, buffer, old(table.Contents()), now, table.timeout, maxDeliver)
    ensures LockedFor(table.Contents(), old(table.Contents()), acc, now, table.timeout)
    ensures exists min, max :: IsRange(cset, min, max) &&
              (acc, table.Contents()) ==
                React(old(table.Contents()), table.timeout, Offer(cset, buffer, maxDeliver, min, max, now))
  {
    var min, max := Range(cset);
    var ids := CountOffered(cset, min, max);
    ghost var before := table.Contents();
    ghost var e := Offer(cset, buffer, maxDeliver, min, max, now);
    OfferExact(before, table.timeout, e);
    acc := [];
    var cid := max;
    while cid >= min && |acc| < maxDeliver
      invariant table.Valid() && min - 1 <= cid <= max
      invariant table.locks == old(table.locks) || fresh(table.locks)
      invariant ids != table.locks as object
      invariant React(before, table.timeout, e) ==
                Scan(cid, min, cset, buffer, maxDeliver, now, table.timeout, acc, table.Contents())
      invariant forall c | min <= c <= max :: ids[c - min] != 0 <==> c in cset
      decreases cid - min
    {
      if ids[cid - min] != 0 && cid !in buffer {
        var taken := table.LockIfFree(cid, now);
        if taken {
          acc := acc + [cid];
        }
      }
      cid := cid - 1;
    }
  }
}
