/** The packet bucket of Lib/net_helper/nhx/packet_bucket.c: every live packet is in an ordered
    set by pid and in a list by age. Proved against Buckets. */
module PacketBuckets {
  import opened Bytes
  import opened Buckets
  import opened Fragmentation
  import opened FragmentedPackets
  import opened OrdSets
  import opened Wrappers

  /** packet_cmp compares ids; the id of NULL is 0. */
  function PidOf(p: FragmentedPacket?): int {
    if p == null then 0 else p.pid
  }

  ghost function Value(p: FragmentedPacket): Packet
    reads p.frags
  {
    Packet(p.pid, p.created, p.frags[..])
  }

  /** The effect of dumping frags into a buffer. */
  ghost predicate Dumping(frags: Frags, size: nat, before: bytes, after: bytes, res: int, size': nat) {
    && size' == |Dumped(frags, size)| <= |before|
    && after == Dumped(frags, size) + before[size'..]
    && res == if Fitting(frags, size, 0) == |frags| then 0 else 1
  }

  ghost predicate SameMembers(list: seq<FragmentedPacket>, elements: seq<FragmentedPacket?>) {
    && (forall p | p in list :: p in elements)
    && (forall p | p in elements :: p != null && p in list)
  }

  /** b is the value of list, whose packets have separate fragment arrays, all in arrays. */
  ghost predicate Represents(list: seq<FragmentedPacket>, b: Bucket, arrays: set<array<Option<bytes>>>)
    reads arrays
  {
    && |b| == |list|
    && (forall i | 0 <= i < |list| :: list[i].frags in arrays && b[i] == Value(list[i]))
    && (forall i, j | 0 <= i < j < |list| :: list[i].frags != list[j].frags)
  }

  class PacketBucket {
    /** In order of creation. */
    var packetList: seq<FragmentedPacket>
    /** Sorted by pid. */
    const packetSet: OrdSet<FragmentedPacket?>
    const fragSize: nat
    const maxAge: nat
    ghost var Contents: Bucket
    ghost var Arrays: set<array<Option<bytes>>>

    /** Both indices hold the same packets; the list is in order of age, the set in order of pid. */
    ghost predicate Valid()
      reads this, packetSet, packetSet.elements, Arrays
    {
      && fragSize > 0
      && packetSet.Valid() && packetSet.key == PidOf
      && SameMembers(packetList, packetSet.Contents())
      && Represents(packetList, Contents, Arrays)
      && TimeSorted(Contents) && PidsDistinct(Contents)
    }

    constructor (fragSize: nat, maxAge: nat)
      requires fragSize > 0
      ensures Valid() && Contents == [] && this.fragSize == fragSize && this.maxAge == maxAge
      ensures fresh(packetSet) && fresh(packetSet.elements) && Arrays == {}
    {
      packetList, Contents, Arrays := [], [], {};
      packetSet := new OrdSet<FragmentedPacket?>(10, PidOf);
      this.fragSize, this.maxAge := fragSize, maxAge;
    }

    /** The packet with this pid, looked up through a dummy, and its place in the list. */
    method Find(pid: uint16) returns (fp: FragmentedPacket?, ghost at: Option<nat>)
      requires Valid()
      ensures at == Index(Contents, pid)
      ensures fp == null <==> at == None
      ensures fp != null ==> at.value < |packetList| && packetList[at.value] == fp
    {
      var dummy := new FragmentedPacket.Empty(pid, 0, 0);
      var found := packetSet.Find(dummy);
      fp := if found == None then null else found.value;
      at := Locate(packetList, Contents, packetSet.Contents(), dummy);
    }

    /** packet_bucket_destroy_packet. */
    method DestroyPacket(fp: FragmentedPacket, ghost i: nat)
      requires Valid() && i < |packetList| && packetList[i] == fp
      modifies this`packetList, this`Contents, packetSet`n, packetSet.elements
      ensures Valid() && Contents == Without(old(Contents), i)
    {
      var k :| 0 <= k < |packetList| && packetList[k] == fp;
      assert k == i by { assert Contents[k].pid == Contents[i].pid; }
      RemoveFromSet(fp, i);
      WithoutSorted(Contents, i);
      Shorter(packetList, Contents, Arrays, i);
      packetList := packetList[..k] + packetList[k + 1..];
      Contents := Without(Contents, i);
    }

    method RemoveFromSet(fp: FragmentedPacket, ghost i: nat)
      requires Valid() && i < |packetList| && packetList[i] == fp
      modifies packetSet`n, packetSet.elements
      ensures packetSet.Valid() && SameMembers(packetList[..i] + packetList[i + 1..], packetSet.Contents())
    {
      Unlinked(packetList, Contents, packetSet.Contents(), fp, i);
      var missing := packetSet.Remove(fp);
    }

    /** packet_bucket_periodic_refresh: from the oldest on, until one is young enough. */
    method PeriodicRefresh(now: int)
      requires Valid()
      modifies this`packetList, this`Contents, packetSet`n, packetSet.elements
      ensures Valid() && Contents == Refreshed(old(Contents), now, maxAge)
    {
      var timeCheck := true;
      while packetList != [] && timeCheck
        invariant Valid()
        invariant Refreshed(old(Contents), now, maxAge) == Refreshed(Contents, now, maxAge)
        invariant !timeCheck ==> Refreshed(old(Contents), now, maxAge) == Contents
        decreases |packetList|, timeCheck
      {
        var fp := packetList[0];
        ghost var c := Contents;
        if now - fp.created >= maxAge {
          DestroyPacket(fp, 0);
          assert Without(c, 0) == c[1..];
        } else {
          timeCheck := false;
        }
      }
    }

    /** Put a packet into both indices. Its id is not in use, so the set stores this very packet. */
    method Link(fp: FragmentedPacket, ghost now: int)
      requires Valid() && UpTo(Contents, now) && fp.created == now
      requires fp.frags !in Arrays && Index(Contents, fp.pid) == None
      modifies this`packetList, this`Contents, this`Arrays, packetSet`n, packetSet`elements, packetSet.elements
      ensures packetSet.elements == old(packetSet.elements) || fresh(packetSet.elements)
      ensures Valid() && packetList == old(packetList) + [fp] && Arrays == old(Arrays) + {fp.frags}
      ensures Contents == old(Contents) + [Value(fp)]
    {
      ghost var l := packetList;
      AppendSorted(Contents, now, Value(fp));
      var inserted := InsertNew(fp);
      assert Represents(l, Contents, Arrays);
      if inserted == fp {
        packetList := packetList + [fp];
      }
      Contents, Arrays := Contents + [Value(fp)], Arrays + {fp.frags};
    }

    /** Put a packet into the set, under an id that is not in use. */
    method InsertNew(fp: FragmentedPacket) returns (inserted: FragmentedPacket?)
      requires Valid() && Index(Contents, fp.pid) == None
      modifies packetSet`n, packetSet`elements, packetSet.elements
      ensures packetSet.elements == old(packetSet.elements) || fresh(packetSet.elements)
      ensures packetSet.Valid() && SameMembers(packetList + [fp], packetSet.Contents()) && inserted == fp
    {
      ghost var s := packetSet.Contents();
      ghost var at := Locate(packetList, Contents, s, fp);
      InsertedMembers(PidOf, s, fp);
      inserted := packetSet.Insert(fp, false);
      MembersAppend(packetList, s, fp, packetSet.Contents());
    }

    /** packet_bucket_add_packet: refresh, then store the packet split into fragments.
        The id must not be in use, see CollisionExact. NULL for an empty packet. */
    method AddPacket(now: int, pid: uint16, data: bytes) returns (msgs: FragmentedPacket?)
      requires Valid() && UpTo(Contents, now)
      requires Index(Refreshed(Contents, now, maxAge), pid) == None
      modifies this`packetList, this`Contents, this`Arrays, packetSet`n, packetSet`elements, packetSet.elements
      ensures packetSet.elements == old(packetSet.elements) || fresh(packetSet.elements)
      ensures Valid() && UpTo(Contents, now)
      ensures data == [] ==> msgs == null && Contents == old(Contents) && Arrays == old(Arrays)
      ensures data != [] ==>
                && msgs != null && msgs in packetList && Value(msgs) == NewPacket(pid, now, data, fragSize)
                && Contents == AddedPacket(old(Contents), now, maxAge, pid, data, fragSize)
                && fresh(msgs.frags) && Arrays == old(Arrays) + {msgs.frags}
    {
      msgs := null;
      if data != [] {
        PeriodicRefresh(now);
        RefreshWellFormed(old(Contents), now, maxAge);
        AddPacketWellFormed(old(Contents), now, maxAge, pid, data, fragSize);
        msgs := StorePacket(now, pid, data);
      }
    }

    method StorePacket(now: int, pid: uint16, data: bytes) returns (fp: FragmentedPacket)
      requires Valid() && UpTo(Contents, now) && Index(Contents, pid) == None && data != []
      modifies this`packetList, this`Contents, this`Arrays, packetSet`n, packetSet`elements, packetSet.elements
      ensures packetSet.elements == old(packetSet.elements) || fresh(packetSet.elements)
      ensures Valid() && fp in packetList && Value(fp) == NewPacket(pid, now, data, fragSize)
      ensures Contents == old(Contents) + [NewPacket(pid, now, data, fragSize)]
      ensures fresh(fp.frags) && Arrays == old(Arrays) + {fp.frags}
    {
      fp := FragmentedPacket.Create(pid, now, data, fragSize);
      Link(fp, now);
    }

    /** packet_bucket_add_fragment: file a fragment, opening its packet when it is the first one. */
    method AddFragment(now: int, pid: uint16, fragNum: uint16, id: uint16, data: bytes)
        returns (res: PacketState, requests: seq<nat>)
      requires Valid() && UpTo(Contents, now)
      modifies this`packetList, this`Contents, this`Arrays, packetSet`n, packetSet`elements, packetSet.elements, Arrays
      ensures packetSet.elements == old(packetSet.elements) || fresh(packetSet.elements)
      ensures Valid() && UpTo(Contents, now) && forall a | a in Arrays :: a in old(Arrays) || fresh(a)
      ensures (Contents, res, requests) == AddedFragment(old(Contents), now, maxAge, pid, fragNum, id, data)
    {
      PeriodicRefresh(now);
      RefreshWellFormed(old(Contents), now, maxAge);
      AddFragmentWellFormed(old(Contents), now, maxAge, pid, fragNum, id, data);
      res, requests := FileFragment(now, pid, fragNum, id, data);
    }

    method FileFragment(now: int, pid: uint16, fragNum: uint16, id: uint16, data: bytes)
        returns (res: PacketState, requests: seq<nat>)
      requires Valid() && UpTo(Contents, now)
      modifies this`packetList, this`Contents, this`Arrays, packetSet`n, packetSet`elements, packetSet.elements, Arrays
      ensures packetSet.elements == old(packetSet.elements) || fresh(packetSet.elements)
      ensures Valid() && forall a | a in Arrays :: a in old(Arrays) || fresh(a)
      ensures (Contents, res, requests) == Filed(old(Contents), now, pid, fragNum, id, data)
    {
      var fp, i := FindOrOpen(now, pid, fragNum);
      ghost var c := Contents;
      res, requests := Fill(fp, i, id, data);
      assert |Written(c[i].frags, id, data)| == |c[i].frags|;
      assert id >= |c[i].frags| ==> Contents == c;
    }

    /** The live packet with this pid, an empty new one if there is none. */
    method FindOrOpen(now: int, pid: uint16, fragNum: uint16) returns (fp: FragmentedPacket, ghost i: nat)
      requires Valid() && UpTo(Contents, now)
      modifies this`packetList, this`Contents, this`Arrays, packetSet`n, packetSet`elements, packetSet.elements
      ensures packetSet.elements == old(packetSet.elements) || fresh(packetSet.elements)
      ensures Valid() && (fp.frags in old(Arrays) || fresh(fp.frags)) && Arrays == old(Arrays) + {fp.frags}
      ensures (Contents, i) == WithPacket(old(Contents), now, pid, fragNum)
      ensures packetList[i] == fp
    {
      var found, at := Find(pid);
      if found == null {
        fp := new FragmentedPacket.Empty(pid, now, fragNum);
        i := |Contents|;
        Link(fp, now);
      } else {
        fp, i := found, at.value;
      }
    }

    /** Write a fragment into a live packet. */
    method Fill(fp: FragmentedPacket, ghost i: nat, id: uint16, data: bytes)
        returns (res: PacketState, requests: seq<nat>)
      requires Valid() && i < |packetList| && packetList[i] == fp
      modifies this`Contents, fp.frags
      ensures Valid()
      ensures var frags := Written(old(Contents)[i].frags, id, data);
              && Contents == old(Contents)[i := old(Contents)[i].(frags := frags)]
              && if id < |frags| then res == StateOf(frags) && requests == Requested(frags)
                 else res == PKT_ERROR && requests == []
    {
      res, requests := fp.WriteFragment(id, data);
      Contents := Contents[i := Value(fp)];
    }

    /** packet_bucket_pop_packet: dump a packet and destroy it, complete or not; -2 if there is none. */
    method PopPacket(now: int, pid: uint16, buff: array<byte>, size: nat) returns (res: int, size': nat)
      requires Valid() && size <= buff.Length
      modifies this`packetList, this`Contents, packetSet`n, packetSet.elements, buff
      ensures Valid()
      ensures var (b, frags) := Popped(old(Contents), now, maxAge, pid);
              && Contents == b
              && match frags
                 case None => res == -2 && size' == size && buff[..] == old(buff[..])
                 case Some(f) => Dumping(f, size, old(buff[..]), buff[..], res, size')
    {
      PeriodicRefresh(now);
      res, size' := PopRefreshed(pid, buff, size);
    }

    method PopRefreshed(pid: uint16, buff: array<byte>, size: nat) returns (res: int, size': nat)
      requires Valid() && size <= buff.Length
      modifies this`packetList, this`Contents, packetSet`n, packetSet.elements, buff
      ensures Valid()
      ensures match Index(old(Contents), pid)
              case None => Contents == old(Contents) && res == -2 && size' == size && buff[..] == old(buff[..])
              case Some(i) =>
                && Contents == Without(old(Contents), i)
                && Dumping(old(Contents)[i].frags, size, old(buff[..]), buff[..], res, size')
    {
      res, size' := -2, size;
      var fp, at := Find(pid);
      if fp != null {
        res, size' := DumpAndDestroy(fp, at.value, buff, size);
      }
    }

    method DumpAndDestroy(fp: FragmentedPacket, ghost i: nat, buff: array<byte>, size: nat)
        returns (res: int, size': nat)
      requires Valid() && i < |packetList| && packetList[i] == fp && size <= buff.Length
      modifies this`packetList, this`Contents, packetSet`n, packetSet.elements, buff
      ensures Valid() && Contents == Without(old(Contents), i)
      ensures Dumping(old(Contents)[i].frags, size, old(buff[..]), buff[..], res, size')
    {
      res, size' := fp.DumpData(buff, size);
      DestroyPacket(fp, i);
    }

    /** packet_bucket_get_fragment: the data of a fragment of a live packet. */
    method GetFragment(now: int, pid: uint16, fid: uint16) returns (f: Option<Option<bytes>>)
      requires Valid()
      modifies this`packetList, this`Contents, packetSet`n, packetSet.elements
      ensures Valid() && Contents == Refreshed(old(Contents), now, maxAge)
      ensures f == match Index(Contents, pid)
                   case None => None
                   case Some(i) => if fid < |Contents[i].frags| then Some(Contents[i].frags[fid]) else None
    {
      PeriodicRefresh(now);
      var fp, at := Find(pid);
      f := if fp != null && fid < fp.frags.Length then Some(fp.frags[fid]) else None;
    }
  }

  lemma MembersAppend(list: seq<FragmentedPacket>, s: seq<FragmentedPacket?>, fp: FragmentedPacket,
                      s': seq<FragmentedPacket?>)
    requires SameMembers(list, s)
    requires forall y | y in s' :: y in s || y == fp
    requires forall y | y in s || y == fp :: y in s'
    ensures SameMembers(list + [fp], s')
  {
  }

  lemma Shorter(list: seq<FragmentedPacket>, b: Bucket, arrays: set<array<Option<bytes>>>, i: nat)
    requires Represents(list, b, arrays) && i < |list|
    ensures Represents(list[..i] + list[i + 1..], Without(b, i), arrays)
  {
    var rest := list[..i] + list[i + 1..];
    forall j | 0 <= j < |rest| ensures rest[j] == list[if j < i then j else j + 1] {}
  }

  /** The set finds the packet with a pid exactly when the list has one. */
  lemma Locate(list: seq<FragmentedPacket>, b: Bucket, s: seq<FragmentedPacket?>, dummy: FragmentedPacket)
      returns (at: Option<nat>)
    requires |b| == |list| && PidsDistinct(b) && SameMembers(list, s)
    requires forall i | 0 <= i < |list| :: b[i].pid == list[i].pid
    ensures at == Index(b, dummy.pid)
    ensures at == None <==> Lookup(PidOf, s, dummy) == None
    ensures at.Some? ==> at.value < |list| && Lookup(PidOf, s, dummy) == Some(list[at.value])
  {
    at := Index(b, dummy.pid);
    if Lookup(PidOf, s, dummy) == None {
      LookupNone(PidOf, s, dummy);
      assert forall k | 0 <= k < |list| :: list[k] in s;
    } else {
      var j := LookupIn(PidOf, s, dummy);
      assert s[j] in s;
      var i :| 0 <= i < |list| && list[i] == s[j];
      IndexUnique(b, dummy.pid, i);
    }
  }

  /** Removing a packet from both indices leaves them with the same packets. */
  lemma Unlinked(list: seq<FragmentedPacket>, b: Bucket, s: seq<FragmentedPacket?>, fp: FragmentedPacket, i: nat)
    requires |b| == |list| && PidsDistinct(b) && SameMembers(list, s)
    requires forall k | 0 <= k < |list| :: b[k].pid == list[k].pid
    requires i < |list| && list[i] == fp
    ensures SameMembers(list[..i] + list[i + 1..], Removed(PidOf, s, fp))
  {
    var rest, s' := list[..i] + list[i + 1..], Removed(PidOf, s, fp);
    RemovedMembers(PidOf, s, fp);
    forall p | p in s' ensures p != null && p in rest {
      var k :| 0 <= k < |list| && list[k] == p;
      assert rest[if k < i then k else k - 1] == p;
    }
    forall p | p in rest ensures p in s' {
      var k :| 0 <= k < |rest| && rest[k] == p;
      assert p == list[if k < i then k else k + 1];
    }
  }
}
