/** What a receiver reports when fragments of two packets with the same id reach it: the proviso of
    EndToEnd is needed. MixingRun and EarlyReuse give runs in which that happens. */
module Mixing {
  import opened Buckets
  import opened Bytes
  import opened Fragmentation
  import opened Receive
  import opened Wrappers

  /** The pieces of x, but for piece fid, which is that of y. */
  ghost function Mixed(x: bytes, y: bytes, fragSize: nat, fid: nat): seq<bytes>
    requires fragSize > 0 && |x| == |y| && fid < FragNum(|x|, fragSize)
  {
    Split(x, fragSize)[fid := Split(y, fragSize)[fid]]
  }

  ghost predicate IsMixture(result: bytes, x: bytes, y: bytes, fragSize: nat, fid: nat)
    requires fragSize > 0 && |x| == |y| && fid < FragNum(|x|, fragSize)
  {
    var a, b := Split(x, fragSize), Split(y, fragSize);
    && result == Join(AllPresent(Mixed(x, y, fragSize, fid)))
    && (result == x <==> a[fid] == b[fid])
    && (result == y <==> forall j | 0 <= j < |a| && j != fid :: a[j] == b[j])
  }

  /** p is under assembly and has all of the pieces v but piece fid. */
  ghost predicate Lacks(b: Bucket, maxAge: nat, now: int, p: Packet, v: seq<bytes>, fid: nat) {
    && WellFormed(b, now) && p in b && !Expired(p, now, maxAge) && SmallPieces(v) && fid < |v|
    && p.frags == AllPresent(v)[fid := None]
  }

  /** Why ids must not be reused early: a receiver that misses only fragment fid of packet x, and gets
      that fragment of a packet y of the same size and id, reports a mixture. It is x, or y, only if
      the pieces taken from the other one happen to be equal. The receiver cannot tell: what it has of
      x, and the fragment of y, fit one and the same packet. */
  lemma MixingBreaksIntegrity(b: Bucket, maxAge: nat, now: int, later: int, p: Packet, x: bytes, y: bytes,
                              fragSize: nat, fid: nat, raw: bytes)
    requires fragSize > 0 && |x| == |y| && fid < FragNum(|x|, fragSize) && Count(|x|, fragSize) < FRAG_IDS
    requires SmallPieces(Split(x, fragSize)) && SmallPieces(Split(y, fragSize))
    requires Lacks(b, maxAge, now, p, Split(x, fragSize), fid)
    requires now <= later && later - p.created < maxAge && |raw| > |x|
    ensures var r := Received(b, maxAge, now, later, FragmentOf(p.pid, Split(y, fragSize), fid), raw);
            r.ready && r.created == p.created && IsMixture(r.result, x, y, fragSize, fid)
  {
    LacksMixed(b, maxAge, now, p, x, y, fragSize, fid);
    MixedEqual(x, y, fragSize, fid);
    LastPiece(b, maxAge, now, later, p, Mixed(x, y, fragSize, fid), fid, raw);
  }

  lemma LacksMixed(b: Bucket, maxAge: nat, now: int, p: Packet, x: bytes, y: bytes, fragSize: nat, fid: nat)
    requires fragSize > 0 && |x| == |y| && fid < FragNum(|x|, fragSize)
    requires SmallPieces(Split(x, fragSize)) && SmallPieces(Split(y, fragSize))
    requires Lacks(b, maxAge, now, p, Split(x, fragSize), fid)
    ensures Lacks(b, maxAge, now, p, Mixed(x, y, fragSize, fid), fid)
    ensures FragmentOf(p.pid, Mixed(x, y, fragSize, fid), fid) == FragmentOf(p.pid, Split(y, fragSize), fid)
  {
    MixedSizes(x, y, fragSize, fid);
    assert AllPresent(Mixed(x, y, fragSize, fid))[fid := None] == AllPresent(Split(x, fragSize))[fid := None];
  }

  /** The piece that completes a packet under assembly makes the receiver report their join. */
  lemma LastPiece(b: Bucket, maxAge: nat, now: int, later: int, p: Packet, v: seq<bytes>, fid: nat, raw: bytes)
    requires Lacks(b, maxAge, now, p, v, fid) && now <= later && later - p.created < maxAge
    requires 0 < |Join(AllPresent(v))| < |raw|
    ensures var r := Received(b, maxAge, now, later, FragmentOf(p.pid, v, fid), raw);
            r.ready && r.created == p.created && r.result == Join(AllPresent(v))
  {
    LacksAgrees(b, maxAge, now, p, v, fid);
    var p' := ReceivedExact(b, maxAge, now, later, p.pid, v, fid, raw);
    AssemblyUnique(b, maxAge, now, p.pid, |v|, p, p');
    LastReceived(b, maxAge, now, later, p, v, fid, raw,
                 Received(b, maxAge, now, later, FragmentOf(p.pid, v, fid), raw));
  }

  lemma LastReceived(b: Bucket, maxAge: nat, now: int, later: int, p: Packet, v: seq<bytes>, fid: nat, raw: bytes,
                     r: Reception)
    requires fid < |v| && p.frags == AllPresent(v)[fid := None] && later - p.created < maxAge
    requires Receives(b, maxAge, now, later, p, v, fid, raw, r) && 0 < |Join(AllPresent(v))| < |raw|
    ensures r.ready && r.created == p.created && r.result == Join(AllPresent(v))
  {
    assert p.frags[fid := Some(v[fid])] == AllPresent(v);
    DumpAll(AllPresent(v), |raw|);
  }

  lemma LacksAgrees(b: Bucket, maxAge: nat, now: int, p: Packet, v: seq<bytes>, fid: nat)
    requires Lacks(b, maxAge, now, p, v, fid)
    ensures YoungAgree(b, maxAge, now, p.pid, v) && IsAssembly(b, maxAge, now, p.pid, |v|, p)
  {
    assert Agrees(p.frags, v);
    forall x | x in b && x.pid == p.pid ensures x == p {
      var i :| 0 <= i < |b| && b[i] == x;
      var j :| 0 <= j < |b| && b[j] == p;
    }
  }

  lemma MixedSizes(x: bytes, y: bytes, fragSize: nat, fid: nat)
    requires fragSize > 0 && |x| == |y| && fid < FragNum(|x|, fragSize)
    requires SmallPieces(Split(x, fragSize)) && SmallPieces(Split(y, fragSize))
    ensures SmallPieces(Mixed(x, y, fragSize, fid))
    ensures forall j | 0 <= j < |Split(x, fragSize)| ::
              |Split(x, fragSize)[j]| == |Split(y, fragSize)[j]| == |Mixed(x, y, fragSize, fid)[j]|
  {
  }

  lemma MixedEqual(x: bytes, y: bytes, fragSize: nat, fid: nat)
    requires fragSize > 0 && |x| == |y| && fid < FragNum(|x|, fragSize) && Count(|x|, fragSize) < FRAG_IDS
    requires SmallPieces(Split(x, fragSize)) && SmallPieces(Split(y, fragSize))
    ensures var joined := Join(AllPresent(Mixed(x, y, fragSize, fid)));
            |joined| == |x| && IsMixture(joined, x, y, fragSize, fid)
  {
    var a, b, v := Split(x, fragSize), Split(y, fragSize), Mixed(x, y, fragSize, fid);
    MixedSizes(x, y, fragSize, fid);
    assert x != [] && y != [];
    SplitJoin(x, fragSize);
    SplitJoin(y, fragSize);
    JoinInjective(v, a);
    JoinInjective(v, b);
    PutEqual(a, b, fid);
  }

  /** Pieces of the same sizes join to the same bytes only if they are the same. */
  lemma {:induction false} JoinInjective(f: seq<bytes>, g: seq<bytes>)
    requires |f| == |g| && forall i | 0 <= i < |f| :: |f[i]| == |g[i]|
    ensures |Join(AllPresent(f))| == |Join(AllPresent(g))|
    ensures Join(AllPresent(f)) == Join(AllPresent(g)) <==> f == g
  {
    if f != [] {
      var n := |f| - 1;
      JoinInjective(f[..n], g[..n]);
      JoinLast(f);
      JoinLast(g);
      Cancel(Join(AllPresent(f[..n])), f[n], Join(AllPresent(g[..n])), g[n]);
      SameUpTo(f, g);
    }
  }

  lemma PutEqual(a: seq<bytes>, b: seq<bytes>, k: nat)
    requires |a| == |b| && k < |a|
    ensures a[k := b[k]] == a <==> a[k] == b[k]
    ensures a[k := b[k]] == b <==> forall j | 0 <= j < |a| && j != k :: a[j] == b[j]
  {
    assert a[k := b[k]][k] == b[k];
  }

  lemma SameUpTo(f: seq<bytes>, g: seq<bytes>)
    requires |f| == |g| > 0
    ensures f == g <==> f[..|f| - 1] == g[..|f| - 1] && f[|f| - 1] == g[|f| - 1]
  {
    assert f == f[..|f| - 1] + [f[|f| - 1]] && g == g[..|f| - 1] + [g[|f| - 1]];
  }

  lemma JoinLast(f: seq<bytes>)
    requires f != []
    ensures Join(AllPresent(f)) == Join(AllPresent(f[..|f| - 1])) + f[|f| - 1]
  {
    assert AllPresent(f)[..|f| - 1] == AllPresent(f[..|f| - 1]);
  }

  lemma Cancel(x: bytes, y: bytes, u: bytes, v: bytes)
    requires |x| == |u|
    ensures x + y == u + v <==> x == u && y == v
  {
    assert (x + y)[..|x|] == x && (x + y)[|x|..] == y;
    assert (u + v)[..|x|] == u && (u + v)[|x|..] == v;
  }
}
