/** What a packet bucket (Lib/net_helper/nhx/packet_bucket.c) means, on values: the live packets
    in order of creation. Also the id counter of an endpoint's outgoing bucket (endpoint.c). */
module Buckets {
  import opened Bytes
  import opened Fragmentation
  import opened Wrappers

  datatype Packet = Packet(pid: uint16, created: int, frags: Frags)

  type Bucket = seq<Packet>

  predicate Expired(p: Packet, now: int, maxAge: nat) {
    now - p.created >= maxAge
  }

  /** periodic_refresh: drop packets from the front until one is young enough. */
  function Refreshed(b: Bucket, now: int, maxAge: nat): (r: Bucket)
    ensures |r| <= |b| && r == b[|b| - |r|..]
  {
    if b != [] && Expired(b[0], now, maxAge) then Refreshed(b[1..], now, maxAge) else b
  }

  /** The full age filter. */
  ghost function Young(b: Bucket, now: int, maxAge: nat): Bucket {
    if b == [] then []
    else (if Expired(b[0], now, maxAge) then [] else [b[0]]) + Young(b[1..], now, maxAge)
  }

  ghost predicate TimeSorted(b: Bucket) {
    forall i, j | 0 <= i <= j < |b| :: b[i].created <= b[j].created
  }

  ghost predicate PidsDistinct(b: Bucket) {
    forall i, j | 0 <= i < j < |b| :: b[i].pid != b[j].pid
  }

  /** Nothing was created after the last reading of the clock. */
  ghost predicate UpTo(b: Bucket, now: int) {
    forall i | 0 <= i < |b| :: b[i].created <= now
  }

  ghost predicate WellFormed(b: Bucket, now: int) {
    TimeSorted(b) && PidsDistinct(b) && UpTo(b, now)
  }

  /** Where the packet with this pid is. */
  function Index(b: Bucket, pid: uint16): (r: Option<nat>)
    ensures r.Some? ==> r.value < |b| && b[r.value].pid == pid
    ensures r == None ==> forall i | 0 <= i < |b| :: b[i].pid != pid
  {
    if b == [] then None
    else if b[|b| - 1].pid == pid then Some(|b| - 1)
    else Index(b[..|b| - 1], pid)
  }

  function Without(b: Bucket, i: nat): Bucket
    requires i < |b|
  {
    b[..i] + b[i + 1..]
  }

  function NewPacket(pid: uint16, now: int, data: bytes, fragSize: nat): Packet
    requires fragSize > 0
  {
    Packet(pid, now, AllPresent(Split(data, fragSize)))
  }

  /** packet_bucket_add_packet, for a pid not in use. */
  function AddedPacket(b: Bucket, now: int, maxAge: nat, pid: uint16, data: bytes, fragSize: nat): Bucket
    requires fragSize > 0
  {
    Refreshed(b, now, maxAge) + [NewPacket(pid, now, data, fragSize)]
  }

  /** The bucket with a packet for pid, and its index. */
  function WithPacket(b: Bucket, now: int, pid: uint16, fragNum: uint16): (r: (Bucket, nat))
    ensures r.1 < |r.0| && r.0[r.1].pid == pid
  {
    match Index(b, pid)
    case Some(i) => (b, i)
    case None => (b + [Packet(pid, now, Empty(fragNum))], |b|)
  }

  /** packet_bucket_add_fragment. */
  function AddedFragment(b: Bucket, now: int, maxAge: nat, pid: uint16, fragNum: uint16, id: uint16, data: bytes)
      : (Bucket, PacketState, seq<nat>)
  {
    Filed(Refreshed(b, now, maxAge), now, pid, fragNum, id, data)
  }

  /** Filing a fragment in a refreshed bucket. */
  function Filed(b: Bucket, now: int, pid: uint16, fragNum: uint16, id: uint16, data: bytes)
      : (Bucket, PacketState, seq<nat>)
  {
    var (c, i) := WithPacket(b, now, pid, fragNum);
    var frags := Written(c[i].frags, id, data);
    if id < |c[i].frags| then (c[i := c[i].(frags := frags)], StateOf(frags), Requested(frags))
    else (c, PKT_ERROR, [])
  }

  /** packet_bucket_pop_packet: the bucket without the packet, and the packet's fragments. */
  function Popped(b: Bucket, now: int, maxAge: nat, pid: uint16): (Bucket, Option<Frags>) {
    var c := Refreshed(b, now, maxAge);
    match Index(c, pid)
    case Some(i) => (Without(c, i), Some(c[i].frags))
    case None => (c, None)
  }

  // ---- expiry ----

  /** Stopping at the first young packet removes exactly what a full age filter would remove. */
  lemma {:induction false} RefreshIsFilter(b: Bucket, now: int, maxAge: nat)
    requires TimeSorted(b)
    ensures Refreshed(b, now, maxAge) == Young(b, now, maxAge)
  {
    if b != [] {
      RefreshIsFilter(b[1..], now, maxAge);
      if !Expired(b[0], now, maxAge) {
        assert forall i | 0 <= i < |b| :: b[0].created <= b[i].created;
        YoungKeeps(b, now, maxAge);
      }
    }
  }

  lemma {:induction false} YoungKeeps(b: Bucket, now: int, maxAge: nat)
    requires forall i | 0 <= i < |b| :: !Expired(b[i], now, maxAge)
    ensures Young(b, now, maxAge) == b
  {
    if b != [] {
      YoungKeeps(b[1..], now, maxAge);
    }
  }

  /** A packet survives a refresh exactly when it is young. */
  lemma {:induction false} RefreshKeeps(b: Bucket, now: int, maxAge: nat, i: nat)
    requires TimeSorted(b) && i < |b|
    ensures i >= |b| - |Refreshed(b, now, maxAge)| <==> !Expired(b[i], now, maxAge)
  {
    if Expired(b[0], now, maxAge) && i > 0 {
      RefreshKeeps(b[1..], now, maxAge, i - 1);
    }
  }

  lemma RefreshWellFormed(b: Bucket, now: int, maxAge: nat)
    requires WellFormed(b, now)
    ensures WellFormed(Refreshed(b, now, maxAge), now)
  {
  }

  lemma {:induction false} IndexUnique(b: Bucket, pid: uint16, i: nat)
    requires PidsDistinct(b) && i < |b| && b[i].pid == pid
    ensures Index(b, pid) == Some(i)
  {
  }

  lemma AppendSorted(b: Bucket, now: int, p: Packet)
    requires TimeSorted(b) && PidsDistinct(b) && UpTo(b, now)
    requires p.created == now && Index(b, p.pid) == None
    ensures TimeSorted(b + [p]) && PidsDistinct(b + [p]) && UpTo(b + [p], now)
  {
  }

  /** Adding a packet under an unused pid keeps a bucket well formed. */
  lemma AddPacketWellFormed(b: Bucket, now: int, maxAge: nat, pid: uint16, data: bytes, fragSize: nat)
    requires WellFormed(b, now) && fragSize > 0 && Index(Refreshed(b, now, maxAge), pid) == None
    ensures WellFormed(AddedPacket(b, now, maxAge, pid, data, fragSize), now)
  {
    RefreshWellFormed(b, now, maxAge);
    AppendSorted(Refreshed(b, now, maxAge), now, NewPacket(pid, now, data, fragSize));
  }

  /** Filing a fragment keeps a bucket well formed, whether or not it opens a packet. */
  /** What filing a fragment asks for are the gaps of the packet it is filed in. */
  lemma FilingAsks(b: Bucket, now: int, maxAge: nat, pid: uint16, fragNum: uint16, id: uint16, data: bytes)
      returns (i: nat)
    requires AddedFragment(b, now, maxAge, pid, fragNum, id, data).1 != PKT_ERROR
    ensures FiledAt(AddedFragment(b, now, maxAge, pid, fragNum, id, data).0, i, pid, id,
                    AddedFragment(b, now, maxAge, pid, fragNum, id, data).2)
  {
    i := WithPacket(Refreshed(b, now, maxAge), now, pid, fragNum).1;
  }

  /** Packet i of the bucket has this id and fragment, and asked are its gaps. */
  ghost predicate FiledAt(b: Bucket, i: nat, pid: uint16, id: uint16, asked: seq<nat>) {
    && i < |b| && b[i].pid == pid && asked == Requested(b[i].frags) && id < |b[i].frags| && b[i].frags[id].Some?
  }

  lemma AddFragmentWellFormed(b: Bucket, now: int, maxAge: nat, pid: uint16, fragNum: uint16, id: uint16, data: bytes)
    requires WellFormed(b, now)
    ensures WellFormed(AddedFragment(b, now, maxAge, pid, fragNum, id, data).0, now)
  {
    RefreshWellFormed(b, now, maxAge);
    var r := Refreshed(b, now, maxAge);
    if Index(r, pid) == None {
      AppendSorted(r, now, Packet(pid, now, Empty(fragNum)));
    }
    var (c, i) := WithPacket(r, now, pid, fragNum);
    FillWellFormed(c, now, i, Written(c[i].frags, id, data));
  }

  lemma FillWellFormed(b: Bucket, now: int, i: nat, frags: Frags)
    requires WellFormed(b, now) && i < |b|
    ensures WellFormed(b[i := b[i].(frags := frags)], now)
  {
  }

  /** Taking a packet out keeps a bucket well formed. */
  lemma PopWellFormed(b: Bucket, now: int, maxAge: nat, pid: uint16)
    requires WellFormed(b, now)
    ensures WellFormed(Popped(b, now, maxAge, pid).0, now)
  {
    RefreshWellFormed(b, now, maxAge);
    var r := Refreshed(b, now, maxAge);
    if Index(r, pid).Some? {
      WithoutSorted(r, Index(r, pid).value);
    }
  }

  lemma WithoutSorted(b: Bucket, i: nat)
    requires TimeSorted(b) && PidsDistinct(b) && i < |b|
    ensures TimeSorted(Without(b, i)) && PidsDistinct(Without(b, i))
    ensures forall now | UpTo(b, now) :: UpTo(Without(b, i), now)
  {
    var w := Without(b, i);
    forall j | 0 <= j < |w| ensures w[j] == b[if j < i then j else j + 1] {}
  }

  // ---- the outgoing pid window ----

  /** out_id++ on 16 bits. */
  function NextId(outId: uint16): uint16 {
    (outId + 1) % 0x1_0000
  }

  ghost function WindowPid(k: nat, outId: uint16, i: int): uint16 {
    (outId - k + i) % 0x1_0000
  }

  /** The live pids, in list order, are the run of ids that ends just before outId, modulo 2^16. */
  ghost predicate Window(b: Bucket, outId: uint16) {
    forall i | 0 <= i < |b| :: b[i].pid == WindowPid(|b|, outId, i)
  }

  lemma WindowRefreshed(b: Bucket, outId: uint16, now: int, maxAge: nat)
    requires Window(b, outId)
    ensures Window(Refreshed(b, now, maxAge), outId)
  {
    var r := Refreshed(b, now, maxAge);
    var d := |b| - |r|;
    forall i | 0 <= i < |r| ensures r[i].pid == WindowPid(|r|, outId, i) {
      assert r[i] == b[i + d];
    }
  }

  /** endpoint_enqueue_outgoing_packet keeps the window and moves it on by one id. */
  lemma WindowEnqueue(b: Bucket, outId: uint16, now: int, maxAge: nat, data: bytes, fragSize: nat)
    requires Window(b, outId) && fragSize > 0
    ensures Window(AddedPacket(b, now, maxAge, outId, data, fragSize), NextId(outId))
  {
    WindowRefreshed(b, outId, now, maxAge);
    WindowAppend(Refreshed(b, now, maxAge), outId, NewPacket(outId, now, data, fragSize));
  }

  lemma WindowAppend(b: Bucket, outId: uint16, p: Packet)
    requires Window(b, outId) && p.pid == outId
    ensures Window(b + [p], NextId(outId))
  {
    var r, next := b + [p], NextId(outId);
    forall i | 0 <= i < |r| ensures r[i].pid == WindowPid(|r|, next, i) {
      assert i < |b| ==> r[i].pid == WindowPid(|b|, outId, i);
    }
  }

  /** The next id is in use exactly when 65536 packets are still live after the refresh. */
  lemma CollisionExact(b: Bucket, outId: uint16)
    requires Window(b, outId)
    ensures Index(b, outId).Some? <==> |b| >= 0x1_0000
  {
    if |b| >= 0x1_0000 {
      assert b[|b| - 0x1_0000].pid == outId;
    }
  }
}
