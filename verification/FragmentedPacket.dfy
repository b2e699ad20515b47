/** The packet object of Lib/net_helper/nhx/fragmented_packet.c, proved against Fragmentation. */
module FragmentedPackets {
  import opened Bytes
  import opened Fragmentation
  import opened Wrappers

  /** The downward scan has seen the fragments from `from` up. */
  ghost predicate Scanned(s: Frags, from: nat, res: PacketState, last: int) {
    && from <= |s|
    && res == (if forall k | from <= k < |s| :: s[k].Some? then PKT_READY else PKT_LOADING)
    && last == (if Highest(s) >= from then Highest(s) else 0)
  }

  /** ... and asked for the gaps from there up. */
  ghost predicate Asked(s: Frags, from: nat, requests: seq<nat>) {
    && from <= |s|
    && (s == [] ==> requests == [])
    && (s != [] ==> requests + Gaps(s, if from < Top(s) then from else Top(s)) == Requested(s))
  }

  ghost function Top(s: Frags): nat
    requires s != []
  {
    if Highest(s) < 1 then 1 else Highest(s)
  }

  lemma {:induction false} ScanStarts(s: Frags)
    ensures Scanned(s, |s|, PKT_READY, 0) && Asked(s, |s|, [])
  {
    if s != [] {
      assert [] + Gaps(s, Top(s)) == Gaps(s, Top(s));
    }
  }

  lemma {:induction false} ScanEnds(s: Frags, res: PacketState, last: int, requests: seq<nat>)
    requires Scanned(s, 0, res, last) && Asked(s, 0, requests)
    ensures res == StateOf(s) && requests == Requested(s)
  {
    if s != [] {
      assert requests + Gaps(s, 0) == requests;
    }
  }

  lemma {:induction false} ScanStep(s: Frags, i: nat, res: PacketState, last: int)
    requires Scanned(s, i + 1, res, last)
    ensures s[i] == None ==> Scanned(s, i, PKT_LOADING, last)
    ensures s[i].Some? ==> Scanned(s, i, res, if last == 0 then i else last)
  {
    assert (forall k | i <= k < |s| :: s[k].Some?) <==> s[i].Some? && forall k | i + 1 <= k < |s| :: s[k].Some?;
  }

  lemma {:induction false} AskStep(s: Frags, i: nat, requests: seq<nat>)
    requires i < |s| && Asked(s, i + 1, requests)
    ensures Asked(s, i, if s[i] == None && (Highest(s) > i || i == 0) then requests + [i] else requests)
  {
    if i < Top(s) {
      assert requests + ([i] + Gaps(s, i)) == requests + [i] + Gaps(s, i);
      assert requests + ([] + Gaps(s, i)) == requests + Gaps(s, i);
    }
  }

  lemma Overwritten(now: bytes, was: bytes, out: bytes)
    requires |out| <= |was| == |now| && now[..|out|] == out
    requires forall k | |out| <= k < |was| :: now[k] == was[k]
    ensures now == out + was[|out|..]
  {
  }

  /** Adding one to a count cut to 16 bits. */
  lemma OneMore(q: nat)
    ensures (q % FRAG_IDS + 1) % FRAG_IDS == (q + 1) % FRAG_IDS
  {
  }

  class FragmentedPacket {
    const pid: uint16
    const created: int
    const frags: array<Option<bytes>>

    /** fragmented_packet_empty: a packet waiting for its fragments. */
    constructor Empty(pid: uint16, now: int, fragNum: uint16)
      ensures this.pid == pid && created == now
      ensures fresh(frags) && frags[..] == Fragmentation.Empty(fragNum)
    {
      this.pid, created := pid, now;
      frags := new Option<bytes>[fragNum](_ => None);
    }

    /** fragmented_packet_create; NULL for an empty packet or a zero fragment size. */
    static method Create(pid: uint16, now: int, data: bytes, fragSize: nat) returns (fp: FragmentedPacket?)
      ensures fp == null <==> data == [] || fragSize == 0
      ensures fp != null ==>
                && fresh(fp) && fresh(fp.frags) && fp.pid == pid && fp.created == now
                && fp.frags[..] == AllPresent(Split(data, fragSize))
    {
      fp := null;
      if data != [] && fragSize > 0 {
        var num := CountFragments(|data|, fragSize);
        fp := new FragmentedPacket.Empty(pid, now, num);
        fp.Fill(data, fragSize);
      }
    }

    /** The fragment count, kept in 16 bits. */
    static method CountFragments(n: nat, fragSize: nat) returns (num: uint16)
      requires fragSize > 0
      ensures num == FragNum(n, fragSize)
    {
      CountIsCeiling(n, fragSize);
      OneMore(n / fragSize);
      num := (n / fragSize) % FRAG_IDS;
      if n % fragSize != 0 {
        num := (num + 1) % FRAG_IDS;
      }
    }

    /** The loop of fragmented_packet_create. */
    method Fill(data: bytes, fragSize: nat)
      requires fragSize > 0 && frags.Length == FragNum(|data|, fragSize)
      modifies frags
      ensures frags[..] == AllPresent(Split(data, fragSize))
    {
      var left := |data|;
      for i := 0 to frags.Length
        invariant left == |data| - Offset(i, fragSize)
        invariant forall k | 0 <= k < i :: frags[k] == Some(Piece(data, fragSize, k))
      {
        CountBound(|data|, fragSize, i);
        OffsetIs(i, fragSize);
        var start, len := i * fragSize, if fragSize < left then fragSize else left;
        frags[i] := Some(data[start..start + len]);
        left := left - fragSize;
      }
    }

    /** fragmented_packet_state: scan downwards, asking for the gaps under the highest fragment. */
    method State() returns (res: PacketState, requests: seq<nat>)
      ensures res == StateOf(frags[..]) && requests == Requested(frags[..])
    {
      res, requests := PKT_READY, [];
      var last, j := 0, frags.Length - 1;
      ghost var s := frags[..];
      ScanStarts(s);
      for i := 0 to frags.Length
        invariant Scanned(s, frags.Length - i, res, last)
        invariant Asked(s, frags.Length - i, requests)
      {
        res, last, requests := Look(s, j - i, res, last, requests);
      }
      ScanEnds(s, res, last, requests);
    }

    /** One round of the scan. */
    method Look(ghost s: Frags, id: nat, res: PacketState, last: int, requests: seq<nat>)
        returns (res': PacketState, last': int, requests': seq<nat>)
      requires s == frags[..] && Scanned(s, id + 1, res, last) && Asked(s, id + 1, requests)
      ensures Scanned(s, id, res', last') && Asked(s, id, requests')
    {
      ScanStep(s, id, res, last);
      AskStep(s, id, requests);
      res', last', requests' := res, last, requests;
      if frags[id] == None {
        if res == PKT_READY { res' := PKT_LOADING; }
        if last != 0 || id == 0 { requests' := requests + [id]; }
      } else if last == 0 {
        last' := id;
      }
    }

    /** fragmented_packet_write_fragment. */
    method WriteFragment(id: uint16, data: bytes) returns (res: PacketState, requests: seq<nat>)
      modifies frags
      ensures frags[..] == Written(old(frags[..]), id, data)
      ensures if id < frags.Length then res == StateOf(frags[..]) && requests == Requested(frags[..])
              else res == PKT_ERROR && requests == []
    {
      res, requests := PKT_ERROR, [];
      if id < frags.Length {
        frags[id] := Some(data);
        res, requests := State();
      }
    }

    /** fragmented_packet_dump_data: copy whole fragments while they fit strictly; size is in-out. */
    method DumpData(buff: array<byte>, size: nat) returns (res: int, size': nat)
      requires size <= buff.Length
      modifies buff
      ensures size' == |Dumped(frags[..], size)|
      ensures buff[..] == Dumped(frags[..], size) + old(buff[..])[size'..]
      ensures res == if Fitting(frags[..], size, 0) == frags.Length then 0 else 1
    {
      ghost var s, was, out: bytes := frags[..], buff[..], [];
      res, size' := 0, 0;
      var i := 0;
      assert s[..0] == [];
      while i < frags.Length && res < 1
        invariant 0 <= i <= frags.Length && 0 <= res <= 1
        invariant out == Join(s[..i]) && size' == |out| <= buff.Length && (i > 0 ==> size' < size)
        invariant buff[..size'] == out
        invariant forall k | size' <= k < buff.Length :: buff[k] == was[k]
        invariant Fitting(s, size, 0) == Fitting(s, size, i)
        invariant res == 1 ==> i < frags.Length && Fitting(s, size, i) == i
        decreases frags.Length - i, 1 - res
      {
        JoinNext(s, i);
        var piece := if frags[i].Some? then frags[i].value else [];
        if |piece| + size' < size {
          Store(buff, size', piece);
          size' := size' + |piece|;
          out := out + piece;
          i := i + 1;
        } else {
          res := 1;
        }
      }
      Overwritten(buff[..], was, out);
    }
  }
}
