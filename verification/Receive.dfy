/** One call of recv_from_peer (Lib/net_helper/net_helper-x.c) that reads a fragment: file it, and
    pop the packet if that made it complete. The clock is read twice, and that shows. */
module Receive {
  import opened Buckets
  import opened Bytes
  import opened Fragmentation
  import opened Wire
  import opened Wrappers

  ghost predicate IsFragment(datagram: bytes) {
    datagram != [] && Decoded(datagram).Some? && Decoded(datagram).value.Fragment?
  }

  /** What one call does and reports: the bucket afterwards, the index of the fragment, when the
      packet it was filed in was opened, whether that packet is complete, the reported bytes. */
  datatype Reception = Reception(bucket: Bucket, fid: nat, created: int, ready: bool, result: bytes)

  /** The bucket after filing the fragment at time now, and whether its packet is complete. */
  ghost function Filing(b: Bucket, maxAge: nat, now: int, f: Msg): (Bucket, bool)
    requires f.Fragment?
  {
    var r := AddedFragment(b, now, maxAge, f.pid, f.fragNum, f.id, f.data);
    (r.0, r.1 == PKT_READY)
  }

  /** The caller's buffer with the datagram read into it. */
  function Overwritten(datagram: bytes, buffer: bytes): bytes
    requires |datagram| <= |buffer|
  {
    datagram + buffer[|datagram|..]
  }

  /** raw is the caller's buffer with the datagram of fragment f in it. When the pop comes too late,
      the size stays that of the buffer, and the result is the buffer as it is. */
  ghost function Received(b: Bucket, maxAge: nat, now: int, later: int, f: Msg, raw: bytes): Reception
    requires f.Fragment?
  {
    var created := Assembly(b, maxAge, now, f.pid, f.fragNum).created;
    var (c, ready) := Filing(b, maxAge, now, f);
    if !ready then Reception(c, f.id, created, false, [])
    else
      var (d, frags) := Popped(c, later, maxAge, f.pid);
      Reception(d, f.id, created, true, if frags.Some? then Dumped(frags.value, |raw|) else raw)
  }

  /** The packet a fragment is filed in. */
  ghost function Assembly(b: Bucket, maxAge: nat, now: int, pid: uint16, fragNum: uint16): Packet {
    var (c, i) := WithPacket(Refreshed(b, now, maxAge), now, pid, fragNum);
    c[i]
  }

  /** The message that carries piece fid of a packet. */
  function FragmentOf(pid: uint16, pieces: seq<bytes>, fid: nat): Msg
    requires fid < |pieces| < FRAG_IDS
  {
    Fragment(pid, |pieces|, fid, pieces[fid])
  }

  function Datagram(pid: uint16, pieces: seq<bytes>, fid: nat): bytes
    requires fid < |pieces| < FRAG_IDS && |pieces[fid]| < 0x1_0000_0000
  {
    Encoded(FragmentOf(pid, pieces, fid))
  }

  ghost predicate SmallPieces(pieces: seq<bytes>) {
    |pieces| < FRAG_IDS && forall i | 0 <= i < |pieces| :: |pieces[i]| < 0x1_0000_0000
  }

  /** What the bucket holds under pid, if anything, belongs to the packet split into pieces. */
  ghost predicate Holds(b: Bucket, pid: uint16, pieces: seq<bytes>) {
    forall i | 0 <= i < |b| && b[i].pid == pid :: Agrees(b[i].frags, pieces)
  }

  lemma DatagramDecodes(pid: uint16, pieces: seq<bytes>, fid: nat)
    requires SmallPieces(pieces) && fid < |pieces|
    ensures var d := Datagram(pid, pieces, fid);
            IsFragment(d) && Decoded(d) == Some(FragmentOf(pid, pieces, fid))
  {
    var d := Datagram(pid, pieces, fid);
    DecodeExact(d, FragmentOf(pid, pieces, fid));
  }

  lemma DatagramSize(pid: uint16, pieces: seq<bytes>, fid: nat)
    requires SmallPieces(pieces) && fid < |pieces|
    ensures |Datagram(pid, pieces, fid)| == FRAGMENT_HEADER_LEN + |pieces[fid]|
  {
  }

  /** p is the young packet under assembly with this id, or a new one if there is none. */
  ghost predicate IsAssembly(b: Bucket, maxAge: nat, now: int, pid: uint16, fragNum: uint16, p: Packet) {
    && p.pid == pid
    && ((p in b && !Expired(p, now, maxAge))
        || (p == Packet(pid, now, Fragmentation.Empty(fragNum)) && NoneYoung(b, maxAge, now, pid)))
  }

  ghost predicate NoneYoung(b: Bucket, maxAge: nat, now: int, pid: uint16) {
    forall x | x in b && x.pid == pid :: Expired(x, now, maxAge)
  }

  lemma AssemblyIs(b: Bucket, maxAge: nat, now: int, pid: uint16, fragNum: uint16)
    requires TimeSorted(b)
    ensures IsAssembly(b, maxAge, now, pid, fragNum, Assembly(b, maxAge, now, pid, fragNum))
  {
    var r := Refreshed(b, now, maxAge);
    YoungExactly(b, now, maxAge);
    match Index(r, pid)
    case Some(i) => assert r[i] in r;
    case None =>
  }

  lemma AssemblyUnique(b: Bucket, maxAge: nat, now: int, pid: uint16, fragNum: uint16, p: Packet, q: Packet)
    requires PidsDistinct(b)
    requires IsAssembly(b, maxAge, now, pid, fragNum, p) && IsAssembly(b, maxAge, now, pid, fragNum, q)
    ensures p == q
  {
    if p in b && q in b {
      var i :| 0 <= i < |b| && b[i] == p;
      var j :| 0 <= j < |b| && b[j] == q;
    }
  }

  /** The refreshed bucket has the young packets. */
  lemma YoungExactly(b: Bucket, now: int, maxAge: nat)
    requires TimeSorted(b)
    ensures forall x :: x in Refreshed(b, now, maxAge) <==> x in b && !Expired(x, now, maxAge)
  {
    RefreshIsFilter(b, now, maxAge);
    forall x ensures x in Young(b, now, maxAge) <==> x in b && !Expired(x, now, maxAge) {
      YoungMembers(b, now, maxAge, x);
    }
  }

  lemma {:induction false} YoungMembers(c: Bucket, now: int, maxAge: nat, q: Packet)
    ensures q in Young(c, now, maxAge) <==> q in c && !Expired(q, now, maxAge)
  {
    if c != [] {
      YoungMembers(c[1..], now, maxAge, q);
      assert q in c <==> q == c[0] || q in c[1..];
    }
  }

  /** A packet can be popped exactly as long as it is young; the other packets left are old ones. */
  lemma PopExact(c: Bucket, now: int, later: int, maxAge: nat, i: nat)
    requires WellFormed(c, now) && i < |c|
    ensures Popped(c, later, maxAge, c[i].pid).1 == if Expired(c[i], later, maxAge) then None else Some(c[i].frags)
  {
    var b := Refreshed(c, later, maxAge);
    var d := |c| - |b|;
    RefreshKeeps(c, later, maxAge, i);
    assert b == c[d..];
    if Expired(c[i], later, maxAge) {
      IndexBeyond(c, c[i].pid, i, d);
    } else {
      IndexWithin(c, c[i].pid, i, d);
    }
  }

  lemma IndexWithin(c: Bucket, pid: uint16, i: nat, d: nat)
    requires PidsDistinct(c) && d <= i < |c| && c[i].pid == pid
    ensures Index(c[d..], pid) == Some(i - d)
  {
    IndexUnique(c[d..], pid, i - d);
  }

  lemma IndexBeyond(c: Bucket, pid: uint16, i: nat, d: nat)
    requires PidsDistinct(c) && i < d <= |c| && c[i].pid == pid
    ensures Index(c[d..], pid) == None
  {
    var b := c[d..];
    forall j | 0 <= j < |b| ensures b[j].pid != pid {
      assert b[j] == c[j + d];
    }
  }

  /** What filing piece fid does to the packet it belongs to. */
  lemma FilingExact(b: Bucket, maxAge: nat, now: int, pid: uint16, pieces: seq<bytes>, fid: nat) returns (i: nat)
    requires WellFormed(b, now) && SmallPieces(pieces) && fid < |pieces|
    requires Holds(Refreshed(b, now, maxAge), pid, pieces)
    ensures var p := Assembly(b, maxAge, now, pid, |pieces|);
            var (c, ready) := Filing(b, maxAge, now, FragmentOf(pid, pieces, fid));
            && |p.frags| == |pieces|
            && var frags := p.frags[fid := Some(pieces[fid])];
               && Agrees(frags, pieces) && (ready <==> Complete(frags))
               && i < |c| && c[i] == p.(frags := frags) && c[i].pid == pid
    ensures var c := Filing(b, maxAge, now, FragmentOf(pid, pieces, fid)).0;
            && WellFormed(c, now)
            && (forall j | 0 <= j < |c| && j != i :: c[j] in Refreshed(b, now, maxAge))
            && (forall p | p in Refreshed(b, now, maxAge) && p.pid != pid :: p in c)
  {
    AddFragmentWellFormed(b, now, maxAge, pid, |pieces|, fid, pieces[fid]);
    i := FiledExact(Refreshed(b, now, maxAge), now, pid, pieces, fid);
  }

  lemma FiledExact(r: Bucket, now: int, pid: uint16, pieces: seq<bytes>, fid: nat) returns (i: nat)
    requires SmallPieces(pieces) && fid < |pieces| && Holds(r, pid, pieces)
    ensures var (c, k) := WithPacket(r, now, pid, |pieces|);
            var (d, state, _) := Filed(r, now, pid, |pieces|, fid, pieces[fid]);
            && k == i && |c[k].frags| == |pieces|
            && (forall j | 0 <= j < |d| && j != i :: d[j] in r)
            && (forall p | p in r && p.pid != pid :: p in d)
            && var frags := c[k].frags[fid := Some(pieces[fid])];
               && Agrees(frags, pieces) && (state == PKT_READY <==> Complete(frags))
               && i < |d| && d[i] == c[k].(frags := frags) && d[i].pid == pid
  {
    var (c, k) := WithPacket(r, now, pid, |pieces|);
    i := k;
    assert Agrees(c[k].frags, pieces);
    assert forall j | 0 <= j < |c| && j != k :: c[j] in r;
    OthersStay(c, Filed(r, now, pid, |pieces|, fid, pieces[fid]).0, k);
  }

  lemma OthersStay(c: Bucket, d: Bucket, k: nat)
    requires k < |c| == |d| && forall j | 0 <= j < |c| && j != k :: d[j] == c[j]
    ensures forall p | p in c && p.pid != c[k].pid :: p in d
  {
    forall p | p in c && p.pid != c[k].pid ensures p in d {
      var j :| 0 <= j < |c| && c[j] == p;
      assert d[j] == p;
    }
  }

  /** What the pop leaves: the young packets with another id. */
  lemma PopKeeps(c: Bucket, later: int, maxAge: nat, pid: uint16, q: Packet)
    requires PidsDistinct(c) && TimeSorted(c)
    ensures q in Popped(c, later, maxAge, pid).0 <==> q in c && q.pid != pid && !Expired(q, later, maxAge)
  {
    YoungExactly(c, later, maxAge);
    RefreshDistinct(c, later, maxAge);
    PopsOnly(Refreshed(c, later, maxAge), pid, q);
  }

  lemma PopsOnly(b: Bucket, pid: uint16, q: Packet)
    requires PidsDistinct(b)
    ensures var d := match Index(b, pid) case Some(k) => Without(b, k) case None => b;
            q in d <==> q in b && q.pid != pid
  {
    match Index(b, pid)
    case Some(k) => WithoutExact(b, k, q);
    case None =>
  }

  lemma RefreshDistinct(c: Bucket, later: int, maxAge: nat)
    requires PidsDistinct(c)
    ensures PidsDistinct(Refreshed(c, later, maxAge))
  {
  }

  lemma WithoutExact(b: Bucket, i: nat, q: Packet)
    requires PidsDistinct(b) && i < |b|
    ensures q in Without(b, i) <==> q in b && q.pid != b[i].pid
  {
    var r := Without(b, i);
    forall j | 0 <= j < |r| ensures r[j] == b[if j < i then j else j + 1] {}
    if q in b && q.pid != b[i].pid {
      var j :| 0 <= j < |b| && b[j] == q;
      assert r[if j < i then j else j - 1] == q;
    }
  }

  /** Everything one call does with piece fid of the packet that the receiver is assembling as p:
      the piece is added; the packet is ready when all pieces are there; a ready packet is reported if
      it is still young at the second reading of the clock; the packets that stay. */
  ghost predicate Receives(b: Bucket, maxAge: nat, now: int, later: int, p: Packet, pieces: seq<bytes>, fid: nat,
                           raw: bytes, r: Reception)
    requires fid < |pieces|
  {
    && |p.frags| == |pieces|
    && var q := p.(frags := p.frags[fid := Some(pieces[fid])]);
       && Agrees(q.frags, pieces)
       && r.fid == fid && r.created == p.created && (r.ready <==> Complete(q.frags))
       && r.result == Reported(r.ready, later - r.created < maxAge, pieces, raw)
       && Leaves(b, maxAge, now, later, q, r.ready, r.bucket)
  }

  ghost function Reported(ready: bool, inTime: bool, pieces: seq<bytes>, raw: bytes): bytes {
    if !ready then [] else if inTime then Dumped(AllPresent(pieces), |raw|) else raw
  }

  /** The packets afterwards: young ones of other ids, and q until it is ready. */
  ghost predicate Leaves(b: Bucket, maxAge: nat, now: int, later: int, q: Packet, ready: bool, after: Bucket) {
    && (forall x | x in after :: if x.pid == q.pid then x == q && !ready else x in b && !Expired(x, now, maxAge))
    && (forall x | x in b && x.pid != q.pid && !Expired(x, later, maxAge) :: x in after)
    && (!ready ==> q in after)
  }

  /** The bucket after filing q: q and the young packets of other ids. */
  ghost predicate FiledIn(b: Bucket, maxAge: nat, now: int, q: Packet, c: Bucket) {
    forall x :: x in c <==> x == q || (x in b && !Expired(x, now, maxAge) && x.pid != q.pid)
  }

  lemma FiledMembers(b: Bucket, r: Bucket, c: Bucket, i: nat, now: int, maxAge: nat)
    requires i < |c| && PidsDistinct(c)
    requires forall x :: x in r <==> x in b && !Expired(x, now, maxAge)
    requires forall j | 0 <= j < |c| && j != i :: c[j] in r
    requires forall x | x in r && x.pid != c[i].pid :: x in c
    ensures FiledIn(b, maxAge, now, c[i], c)
  {
    forall x | x in c && x != c[i] ensures x in r && x.pid != c[i].pid {
      var j :| 0 <= j < |c| && c[j] == x;
    }
  }

  /** Filing piece fid adds it to the packet under assembly. */
  lemma FilingYoung(b: Bucket, maxAge: nat, now: int, pid: uint16, pieces: seq<bytes>, fid: nat)
      returns (p: Packet, i: nat)
    requires WellFormed(b, now) && SmallPieces(pieces) && fid < |pieces|
    requires YoungAgree(b, maxAge, now, pid, pieces)
    ensures IsAssembly(b, maxAge, now, pid, |pieces|, p) && |p.frags| == |pieces|
    ensures p.created == Assembly(b, maxAge, now, pid, |pieces|).created
    ensures var (c, ready) := Filing(b, maxAge, now, FragmentOf(pid, pieces, fid));
            var q := p.(frags := p.frags[fid := Some(pieces[fid])]);
            && Agrees(q.frags, pieces) && (ready <==> Complete(q.frags))
            && WellFormed(c, now) && i < |c| && c[i] == q && FiledIn(b, maxAge, now, q, c)
  {
    p := Assembly(b, maxAge, now, pid, |pieces|);
    AssemblyIs(b, maxAge, now, pid, |pieces|);
    YoungExactly(b, now, maxAge);
    YoungHolds(b, maxAge, now, pid, pieces);
    i := FilingExact(b, maxAge, now, pid, pieces, fid);
    FiledMembers(b, Refreshed(b, now, maxAge), Filing(b, maxAge, now, FragmentOf(pid, pieces, fid)).0, i, now, maxAge);
  }

  lemma YoungHolds(b: Bucket, maxAge: nat, now: int, pid: uint16, pieces: seq<bytes>)
    requires TimeSorted(b) && YoungAgree(b, maxAge, now, pid, pieces)
    ensures Holds(Refreshed(b, now, maxAge), pid, pieces)
  {
    var r := Refreshed(b, now, maxAge);
    YoungExactly(b, now, maxAge);
    forall i | 0 <= i < |r| && r[i].pid == pid ensures Agrees(r[i].frags, pieces) {
      assert r[i] in r;
    }
  }

  lemma AfterLeaves(b: Bucket, maxAge: nat, now: int, later: int, q: Packet, ready: bool, c: Bucket, after: Bucket)
    requires now <= later && FiledIn(b, maxAge, now, q, c)
    requires forall x :: x in after <==> x in c && (ready ==> x.pid != q.pid && !Expired(x, later, maxAge))
    ensures Leaves(b, maxAge, now, later, q, ready, after)
  {
  }

  /** The bucket after a pop, or none, at time later. */
  ghost function AfterPop(c: Bucket, ready: bool, later: int, maxAge: nat, pid: uint16): Bucket {
    if ready then Popped(c, later, maxAge, pid).0 else c
  }

  lemma AfterPopIs(c: Bucket, ready: bool, now: int, later: int, maxAge: nat, pid: uint16)
    requires WellFormed(c, now) && now <= later
    ensures var after := AfterPop(c, ready, later, maxAge, pid);
            && WellFormed(after, later)
            && forall x :: x in after <==> x in c && (ready ==> x.pid != pid && !Expired(x, later, maxAge))
  {
    assert WellFormed(c, later);
    if ready {
      PopWellFormed(c, later, maxAge, pid);
      forall x ensures x in Popped(c, later, maxAge, pid).0 <==> x in c && x.pid != pid && !Expired(x, later, maxAge) {
        PopKeeps(c, later, maxAge, pid, x);
      }
    }
  }

  /** What a call may find under the id of a packet: pieces of that packet. */
  ghost predicate YoungAgree(b: Bucket, maxAge: nat, now: int, pid: uint16, pieces: seq<bytes>) {
    forall x | x in b && x.pid == pid && !Expired(x, now, maxAge) :: Agrees(x.frags, pieces)
  }

  /** One call with piece fid does just that. */
  lemma ReceivedExact(b: Bucket, maxAge: nat, now: int, later: int, pid: uint16, pieces: seq<bytes>, fid: nat,
                      raw: bytes) returns (p: Packet)
    requires WellFormed(b, now) && now <= later && SmallPieces(pieces) && fid < |pieces|
    requires YoungAgree(b, maxAge, now, pid, pieces)
    ensures IsAssembly(b, maxAge, now, pid, |pieces|, p)
    ensures var r := Received(b, maxAge, now, later, FragmentOf(pid, pieces, fid), raw);
            Receives(b, maxAge, now, later, p, pieces, fid, raw, r) && WellFormed(r.bucket, later)
  {
    var i;
    p, i := FilingYoung(b, maxAge, now, pid, pieces, fid);
    var (c, ready) := Filing(b, maxAge, now, FragmentOf(pid, pieces, fid));
    AfterPopIs(c, ready, now, later, maxAge, pid);
    AfterLeaves(b, maxAge, now, later, c[i], ready, c, AfterPop(c, ready, later, maxAge, pid));
    PoppedReport(c, now, later, maxAge, i, ready, pieces, raw);
  }

  /** The bytes that the pop of packet i, or no pop, leads to. */
  lemma PoppedReport(c: Bucket, now: int, later: int, maxAge: nat, i: nat, ready: bool, pieces: seq<bytes>, raw: bytes)
    requires WellFormed(c, now) && i < |c| && Agrees(c[i].frags, pieces) && (ready <==> Complete(c[i].frags))
    ensures var frags := Popped(c, later, maxAge, c[i].pid).1;
            (if !ready then [] else if frags.Some? then Dumped(frags.value, |raw|) else raw) ==
              Reported(ready, later - c[i].created < maxAge, pieces, raw)
  {
    PopExact(c, now, later, maxAge, i);
    if ready {
      AgreeComplete(c[i].frags, pieces);
    }
  }

  /** The bytes one call reports are the packet exactly when the fragment completes it and, if it is
      still young at the second reading of the clock, the buffer is larger than it and its fragments
      fit in 16 bits; or else, if the buffer happens to hold the packet already. */
  lemma ReportedExact(data: bytes, fragSize: nat, ready: bool, inTime: bool, raw: bytes)
    requires fragSize > 0 && data != []
    ensures Reported(ready, inTime, Split(data, fragSize), raw) == data <==>
            ready && if inTime then |data| < |raw| && Count(|data|, fragSize) < FRAG_IDS else raw == data
  {
    SplitDump(data, fragSize, |raw|);
  }
}
