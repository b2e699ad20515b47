/** The neighbourhood of src/topology.c. Peer sets are sets; the random choices are an input. */
module Topologies {

  datatype Peer = Peer(id: int)

  ghost function Min(a: int, b: int): int {
    if a < b then a else b
  }

  ghost function Max(a: int, b: int): int {
    if a < b then b else a
  }

  ghost function Elements(s: seq<Peer>): set<Peer> {
    set p | p in s
  }

  ghost predicate Distinct(s: seq<Peer>) {
    forall i, j | 0 <= i < j < |s| :: s[i] != s[j]
  }

  lemma {:induction false} DistinctSize(s: seq<Peer>)
    requires Distinct(s)
    ensures |Elements(s)| == |s|
  {
    if s != [] {
      DistinctSize(s[1..]);
      assert Elements(s) == Elements(s[1..]) + {s[0]};
    }
  }

  /** The peers of a set, in some order. */
  method ToArray(pset: set<Peer>) returns (a: array<Peer>)
    ensures fresh(a) && Distinct(a[..]) && Elements(a[..]) == pset
  {
    var s: seq<Peer> := [];
    var rest := pset;
    while rest != {}
      invariant Distinct(s) && Elements(s) !! rest && Elements(s) + rest == pset
      decreases rest
    {
      var p :| p in rest;
      rest := rest - {p};
      assert Elements(s + [p]) == Elements(s) + {p};
      s := s + [p];
    }
    a := new Peer[|s|](i requires 0 <= i < |s| => s[i]);
    assert a[..] == s;
  }

  /** array_shuffle: random(i) picks the place that position i is exchanged with. */
  method ArrayShuffle(a: array<Peer>, random: nat -> nat)
    requires Distinct(a[..])
    modifies a
    ensures Distinct(a[..]) && Elements(a[..]) == Elements(old(a[..]))
    ensures a[..] == Shuffled(old(a[..]), a.Length, random)
  {
    var i := a.Length - 1;
    while i > 0
      invariant -1 <= i < a.Length
      invariant Distinct(a[..]) && Elements(a[..]) == Elements(old(a[..]))
      invariant Shuffled(old(a[..]), a.Length, random) == Shuffled(a[..], i + 1, random)
    {
      var newpos := random(i) % (i + 1);
      ghost var s := a[..];
      a[newpos], a[i] := a[i], a[newpos];
      assert a[..] == Exchanged(s, newpos, i);
      Exchange(s, newpos, i, a[..]);
      i := i - 1;
    }
  }

  ghost function Exchanged(s: seq<Peer>, i: nat, j: nat): seq<Peer>
    requires i < |s| && j < |s|
  {
    s[i := s[j]][j := s[i]]
  }

  /** The first n places shuffled, from the last one down. */
  ghost function Shuffled(s: seq<Peer>, n: nat, random: nat -> nat): (t: seq<Peer>)
    requires n <= |s|
    ensures |t| == |s|
    decreases n
  {
    if n <= 1 then s else Shuffled(Exchanged(s, random(n - 1) % n, n - 1), n - 1, random)
  }

  /** Only the choices below n matter. */
  lemma {:induction false} ShuffledAlike(s: seq<Peer>, n: nat, r: nat -> nat, r': nat -> nat)
    requires n <= |s| && forall k: nat | k < n :: r(k) == r'(k)
    ensures Shuffled(s, n, r) == Shuffled(s, n, r')
    decreases n
  {
    if n > 1 {
      ShuffledAlike(Exchanged(s, r(n - 1) % n, n - 1), n - 1, r, r');
    }
  }

  /** Every order of the peers is the outcome of some choices. */
  lemma {:induction false} EveryOrder(s: seq<Peer>, t: seq<Peer>, n: nat) returns (random: nat -> nat)
    requires Distinct(s) && Distinct(t) && |s| == |t| && Elements(s) == Elements(t) && n <= |s|
    requires forall k | n <= k < |s| :: s[k] == t[k]
    ensures Shuffled(s, n, random) == t
    decreases n
  {
    if n <= 1 {
      random := (k: nat) => 0;
      LastPlace(s, t);
    } else {
      var j := PlaceOf(s, t, n - 1);
      PutInPlace(s, t, n, j);
      var rest := EveryOrder(Exchanged(s, j, n - 1), t, n - 1);
      random := FirstChoice(s, n, j, rest);
    }
  }

  lemma PutInPlace(s: seq<Peer>, t: seq<Peer>, n: nat, j: nat)
    requires Distinct(s) && |s| == |t| && Elements(s) == Elements(t) && j < n <= |s| && s[j] == t[n - 1]
    requires forall k | n <= k < |s| :: s[k] == t[k]
    ensures Distinct(Exchanged(s, j, n - 1)) && Elements(Exchanged(s, j, n - 1)) == Elements(t)
    ensures forall k | n - 1 <= k < |s| :: Exchanged(s, j, n - 1)[k] == t[k]
  {
    Exchange(s, j, n - 1, Exchanged(s, j, n - 1));
  }

  lemma FirstChoice(s: seq<Peer>, n: nat, j: nat, rest: nat -> nat) returns (random: nat -> nat)
    requires 1 < n <= |s| && j < n
    ensures Shuffled(s, n, random) == Shuffled(Exchanged(s, j, n - 1), n - 1, rest)
  {
    random := (k: nat) => if k == n - 1 then j else rest(k);
    assert random(n - 1) % n == j;
    ShuffledAlike(Exchanged(s, j, n - 1), n - 1, rest, random);
  }

  lemma PlaceOf(s: seq<Peer>, t: seq<Peer>, i: nat) returns (j: nat)
    requires Distinct(s) && Distinct(t) && |s| == |t| && Elements(s) == Elements(t) && i < |s|
    requires forall k | i < k < |s| :: s[k] == t[k]
    ensures j <= i && s[j] == t[i]
  {
    assert t[i] in Elements(s);
    j :| 0 <= j < |s| && s[j] == t[i];
  }

  lemma LastPlace(s: seq<Peer>, t: seq<Peer>)
    requires Distinct(s) && Distinct(t) && |s| == |t| && Elements(s) == Elements(t)
    requires forall k | 1 <= k < |s| :: s[k] == t[k]
    ensures s == t
  {
    if s != [] {
      var j := PlaceOf(s, t, 0);
    }
  }

  lemma Exchange(s: seq<Peer>, i: nat, j: nat, t: seq<Peer>)
    requires i < |s| && j < |s| && t == s[i := s[j]][j := s[i]] && Distinct(s)
    ensures Distinct(t) && Elements(t) == Elements(s)
  {
    forall p | p in s ensures p in t {
      var k :| 0 <= k < |s| && s[k] == p;
      assert t[if k == i then j else if k == j then i else k] == p;
    }
  }

  /** The peers gone are the first ones of from, in some order, after the shuffle. */
  ghost predicate IsChoice(order: seq<Peer>, random: nat -> nat, from: set<Peer>, from': set<Peer>) {
    && Distinct(order) && Elements(order) == from && |from'| <= |order|
    && from' == from - Elements(Shuffled(order, |order|, random)[..|order| - |from'|])
  }

  /** topology_move_peers with a random choice: move num peers, all if there are fewer. */
  method MovePeers(from: set<Peer>, to: set<Peer>, num: int, random: nat -> nat)
      returns (from': set<Peer>, to': set<Peer>, ghost order: seq<Peer>)
    requires from !! to
    ensures IsChoice(order, random, from, from')
    ensures from' <= from && to <= to' && from' !! to' && from' + to' == from + to
    ensures |from'| == |from| - Min(Max(num, 0), |from|) && |to'| == |to| + Min(Max(num, 0), |from|)
  {
    var peers := ToArray(from);
    order := peers[..];
    ArrayShuffle(peers, random);
    DistinctSize(peers[..]);
    ghost var moved;
    from', to', moved := MoveFirst(peers[..], from, to, num);
    ExchangeSizes(from, to, moved);
  }

  /** Move the first num peers of s, or all of them. */
  method MoveFirst(s: seq<Peer>, from: set<Peer>, to: set<Peer>, num: int)
      returns (from': set<Peer>, to': set<Peer>, ghost moved: set<Peer>)
    requires Distinct(s)
    ensures moved <= Elements(s) && |moved| == Min(Max(num, 0), |s|) && moved == Elements(s[..|moved|])
    ensures from' == from - moved && to' == to + moved
  {
    from', to' := from, to;
    var i := 0;
    PrefixElements(s, 0);
    while i < |s| && i < num
      invariant i <= Max(num, 0) && MovedPrefix(s, i, from, to, from', to')
    {
      MovedNext(s, i, from, to, from', to');
      from', to' := from' - {s[i]}, to' + {s[i]};
      i := i + 1;
    }
    moved := Elements(s[..i]);
    PrefixElements(s, i);
  }

  /** The first i peers of s were moved. */
  ghost predicate MovedPrefix(s: seq<Peer>, i: int, from: set<Peer>, to: set<Peer>, from': set<Peer>, to': set<Peer>) {
    0 <= i <= |s| && from' == from - Elements(s[..i]) && to' == to + Elements(s[..i])
  }

  lemma MovedNext(s: seq<Peer>, i: int, from: set<Peer>, to: set<Peer>, from': set<Peer>, to': set<Peer>)
    requires Distinct(s) && MovedPrefix(s, i, from, to, from', to') && i < |s|
    ensures MovedPrefix(s, i + 1, from, to, from' - {s[i]}, to' + {s[i]})
  {
    PrefixElements(s, i);
  }

  lemma PrefixElements(s: seq<Peer>, i: nat)
    requires Distinct(s) && i <= |s|
    ensures Elements(s[..i]) <= Elements(s) && |Elements(s[..i])| == i
    ensures i < |s| ==> Elements(s[..i + 1]) == Elements(s[..i]) + {s[i]}
    ensures Elements(s[..0]) == {}
  {
    DistinctSize(s[..i]);
    if i < |s| {
      assert s[..i + 1] == s[..i] + [s[i]];
    }
  }

  class Topology {
    var neighbourhood: set<Peer>
    var swarmBucket: set<Peer>
    var lockedNeighs: set<Peer>
    const targetSize: int

    /** What holds between operations. */
    ghost predicate Valid()
      reads this
    {
      neighbourhood !! swarmBucket && lockedNeighs <= neighbourhood
    }

    constructor (targetSize: int)
      ensures Valid() && neighbourhood == {} && swarmBucket == {} && this.targetSize == targetSize
    {
      neighbourhood, swarmBucket, lockedNeighs := {}, {}, {};
      this.targetSize := targetSize;
    }

    /** topology_node_insert. */
    method NodeInsert(id: Peer)
      requires Valid()
      modifies this`swarmBucket
      ensures Valid()
      ensures swarmBucket == if id in neighbourhood then old(swarmBucket) else old(swarmBucket) + {id}
    {
      if id !in swarmBucket && id !in neighbourhood {
        swarmBucket := swarmBucket + {id};
      }
    }

    /** neighbourhood_add_peer: a peer met for the first time, or again, is locked. */
    method NeighbourhoodAdd(id: Peer)
      requires Valid()
      modifies this
      ensures Valid() && neighbourhood == old(neighbourhood) + {id} && swarmBucket == old(swarmBucket) - {id}
      ensures lockedNeighs == if id in old(swarmBucket) then old(lockedNeighs) else old(lockedNeighs) + {id}
    {
      if id in swarmBucket {
        swarmBucket := swarmBucket - {id};
        neighbourhood := neighbourhood + {id};
      } else {
        neighbourhood := neighbourhood + {id};
        lockedNeighs := lockedNeighs + {id};
      }
    }

    /** neighbourhood_remove_peer. */
    method NeighbourhoodRemove(id: Peer)
      requires Valid()
      modifies this
      ensures Valid() && neighbourhood == old(neighbourhood) - {id} && lockedNeighs == old(lockedNeighs) - {id}
      ensures neighbourhood + swarmBucket == old(neighbourhood + swarmBucket)
    {
      if id in neighbourhood {
        neighbourhood := neighbourhood - {id};
        swarmBucket := swarmBucket + {id};
      }
      lockedNeighs := lockedNeighs - {id};
    }

    /** topology_remove_peer. */
    method RemovePeer(id: Peer)
      requires Valid()
      modifies this
      ensures Valid() && neighbourhood == old(neighbourhood) - {id} && swarmBucket == old(swarmBucket) - {id}
      ensures lockedNeighs == old(lockedNeighs) - {id}
    {
      lockedNeighs := lockedNeighs - {id};
      neighbourhood := neighbourhood - {id};
      swarmBucket := swarmBucket - {id};
    }

    /** topology_update_random: give up d peers, three tenths of the neighbourhood, rounded down, then fill
        it up to its target. */
    method UpdateRandom(random1: nat -> nat, random2: nat -> nat) returns (ghost d: int)
      requires neighbourhood !! swarmBucket
      modifies this`neighbourhood, this`swarmBucket
      ensures neighbourhood !! swarmBucket
      ensures neighbourhood + swarmBucket == old(neighbourhood + swarmBucket)
      ensures 0 <= 10 * d <= 3 * old(|neighbourhood|) < 10 * (d + 1)
      ensures Updated(old(neighbourhood), old(|swarmBucket|), targetSize, d, neighbourhood)
    {
      var discard := Discarded(|neighbourhood|);
      DiscardedIs(|neighbourhood|);
      d := discard;
      ghost var order;
      neighbourhood, swarmBucket, order := MovePeers(neighbourhood, swarmBucket, discard, random1);
      ghost var kept := neighbourhood;
      Refill(random2);
      UpdatedIs(old(neighbourhood), old(|swarmBucket|), targetSize, d, kept, neighbourhood);
    }

    /** Its second half: fill the neighbourhood up to its target. */
    method Refill(random: nat -> nat)
      requires neighbourhood !! swarmBucket
      modifies this`neighbourhood, this`swarmBucket
      ensures neighbourhood !! swarmBucket
      ensures neighbourhood + swarmBucket == old(neighbourhood + swarmBucket)
      ensures old(neighbourhood) <= neighbourhood
      ensures |neighbourhood| == RefillTo(old(|neighbourhood|), old(|swarmBucket|), targetSize)
    {
      var others := if targetSize - |neighbourhood| > 0 then targetSize - |neighbourhood| else 0;
      ghost var order;
      swarmBucket, neighbourhood, order := MovePeers(swarmBucket, neighbourhood, others, random);
    }

    /** topology_sample_peers: unknown peers of the sample join the swarm. */
    method SamplePeers(sample: seq<Peer>)
      requires Valid()
      modifies this`swarmBucket
      ensures Valid() && swarmBucket == old(swarmBucket) + (Elements(sample) - neighbourhood)
    {
      for i := 0 to |sample|
        invariant Valid() && swarmBucket == old(swarmBucket) + (Elements(sample[..i]) - neighbourhood)
      {
        assert sample[..i + 1] == sample[..i] + [sample[i]];
        NodeInsert(sample[i]);
      }
      assert sample[..|sample|] == sample;
    }

    /** neighbourhood_drop_unactives, for the inactive peers it comes across. */
    method DropInactive(inactive: seq<Peer>)
      requires Valid()
      modifies this
      ensures Valid() && neighbourhood == old(neighbourhood) - Elements(inactive)
      ensures swarmBucket == old(swarmBucket) - Elements(inactive)
      ensures lockedNeighs == old(lockedNeighs) - Elements(inactive)
    {
      for i := 0 to |inactive|
        invariant Valid() && neighbourhood == old(neighbourhood) - Elements(inactive[..i])
        invariant swarmBucket == old(swarmBucket) - Elements(inactive[..i])
        invariant lockedNeighs == old(lockedNeighs) - Elements(inactive[..i])
      {
        assert inactive[..i + 1] == inactive[..i] + [inactive[i]];
        RemovePeer(inactive[i]);
      }
      assert inactive[..|inactive|] == inactive;
    }

    /** topology_signal_change: who is told ADD and who REMOVE. */
    method SignalChange(oldNeighs: set<Peer>) returns (added: set<Peer>, removed: set<Peer>)
      ensures added == neighbourhood - oldNeighs && removed == oldNeighs - neighbourhood
    {
      added := Missing(neighbourhood, oldNeighs);
      removed := Missing(oldNeighs, neighbourhood);
    }

    /** The rest of topology_update: the cleared swarm leaves no reference behind. */
    method ForgetSwarm()
      requires neighbourhood !! swarmBucket && lockedNeighs <= neighbourhood + swarmBucket
      modifies this`lockedNeighs, this`swarmBucket
      ensures Valid() && swarmBucket == {} && lockedNeighs == old(lockedNeighs) * neighbourhood
    {
      var rest := swarmBucket;
      while rest != {}
        invariant swarmBucket == old(swarmBucket)
        invariant rest <= swarmBucket && lockedNeighs == old(lockedNeighs) - (swarmBucket - rest)
        decreases rest
      {
        var p :| p in rest;
        rest := rest - {p};
        lockedNeighs := lockedNeighs - {p};
      }
      assert swarmBucket - rest == swarmBucket;
      swarmBucket := {};
    }

    /** topology_update: sample, drop inactive peers, change the neighbourhood at random, tell the
        peers concerned, forget the others. */
    method Update(sample: seq<Peer>, inactive: seq<Peer>, random1: nat -> nat, random2: nat -> nat)
        returns (added: set<Peer>, removed: set<Peer>, ghost d: int)
      requires Valid()
      modifies this
      ensures Valid() && swarmBucket == {} && lockedNeighs == old(lockedNeighs) * neighbourhood
      ensures var known := old(neighbourhood + swarmBucket) + Elements(sample);
              var kept := old(neighbourhood) - Elements(inactive);
              && neighbourhood <= known - Elements(inactive)
              && added == neighbourhood - kept && removed == kept - neighbourhood
              && 0 <= 10 * d <= 3 * |kept| < 10 * (d + 1)
              && |removed| <= d && (|kept| - d >= targetSize ==> added == {} && |neighbourhood| == |kept| - d)
              && (|kept| - d < targetSize <= |known - Elements(inactive)| ==> |neighbourhood| == targetSize)
              && (|kept| - d < targetSize && |known - Elements(inactive)| < targetSize ==>
                    neighbourhood == known - Elements(inactive))
    {
      Prepare(sample, inactive);
      var oldNeighs := neighbourhood;
      ghost var known := neighbourhood + swarmBucket;
      assert swarmBucket == known - oldNeighs;
      d := UpdateRandom(random1, random2);
      added, removed := SignalChange(oldNeighs);
      ForgetSwarm();
      UpdateSizes(oldNeighs, known, targetSize, d, neighbourhood);
    }

    /** The first half of topology_update. */
    method Prepare(sample: seq<Peer>, inactive: seq<Peer>)
      requires Valid()
      modifies this
      ensures Valid() && neighbourhood == old(neighbourhood) - Elements(inactive)
      ensures neighbourhood + swarmBucket == old(neighbourhood + swarmBucket) + Elements(sample) - Elements(inactive)
      ensures lockedNeighs == old(lockedNeighs) - Elements(inactive)
    {
      SamplePeers(sample);
      DropInactive(inactive);
    }
  }

  /** peerset_for_each over one set, checking the other. */
  method Missing(pset: set<Peer>, other: set<Peer>) returns (res: set<Peer>)
    ensures res == pset - other
  {
    res := {};
    var rest := pset;
    while rest != {}
      invariant rest <= pset && res == pset - rest - other
      decreases rest
    {
      var p :| p in rest;
      rest := rest - {p};
      if p !in other {
        res := res + {p};
      }
    }
  }

  /** (1 - topo_mem) of n, with topo_mem = 0.7, rounded down. */
  function Discarded(n: nat): int {
    (0.3 * n as real).Floor
  }

  lemma DiscardedIs(n: nat)
    ensures 0 <= 10 * Discarded(n) <= 3 * n < 10 * (Discarded(n) + 1)
  {
  }

  /** With d peers given up: all the others stay; when they reach the target none joins, else as many as
      the target takes and as there are. */
  ghost predicate Updated(n0: set<Peer>, swarm: nat, target: int, d: int, n: set<Peer>) {
    && |n0 - n| <= d
    && (|n0| - d >= target ==> n <= n0 && |n| == |n0| - d)
    && (|n0| - d < target <= |n0| + swarm ==> |n| == target)
    && (|n0| - d < target && |n0| + swarm < target ==> |n| == |n0| + swarm)
  }

  /** The same, in terms of all the peers known. */
  lemma UpdateSizes(n0: set<Peer>, known: set<Peer>, target: int, d: int, n: set<Peer>)
    requires n0 <= known && n <= known && Updated(n0, |known - n0|, target, d, n)
    ensures |n0| - d >= target ==> n - n0 == {} && |n| == |n0| - d
    ensures |n0| - d < target <= |known| ==> |n| == target
    ensures |n0| - d < target && |known| < target ==> n == known
  {
    assert |known| == |n0| + |known - n0| by { assert known == n0 + (known - n0); }
    if |n0| - d < target && |known| < target {
      SameSize(n, known);
    }
  }

  lemma UpdatedIs(n0: set<Peer>, swarm: nat, target: int, d: int, kept: set<Peer>, n: set<Peer>)
    requires 0 <= d <= |n0| && kept <= n0 && |kept| == |n0| - d && kept <= n
    requires |n| == RefillTo(|kept|, swarm + d, target)
    ensures Updated(n0, swarm, target, d, n)
  {
    SmallerDifference(n0, kept, n);
    if |n0| - d >= target {
      SameSize(kept, n);
    }
  }

  lemma SmallerDifference(n0: set<Peer>, kept: set<Peer>, n: set<Peer>)
    requires kept <= n0 && kept <= n
    ensures |n0 - n| <= |n0| - |kept|
  {
    assert n0 - kept == (n0 - n) + (n0 * n - kept);
    assert |n0 - kept| == |n0| - |kept| by { assert n0 == kept + (n0 - kept); }
  }

  lemma SameSize(a: set<Peer>, b: set<Peer>)
    requires a <= b && |a| == |b|
    ensures a == b
  {
    assert b == a + (b - a);
  }

  ghost function RefillTo(n: int, swarm: int, target: int): int {
    n + Min(Max(target - n, 0), swarm)
  }

  /** Moving some peers from a to b. */
  lemma ExchangeSizes(a: set<Peer>, b: set<Peer>, moved: set<Peer>)
    requires moved <= a && a !! b
    ensures |a - moved| == |a| - |moved| && |b + moved| == |b| + |moved|
    ensures a - moved !! b + moved && (a - moved) + (b + moved) == a + b
  {
    assert (a - moved) + moved == a;
  }
}
