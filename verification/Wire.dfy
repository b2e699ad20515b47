/** The datagram format of fragments and fragment requests: Lib/net_helper/nhx/fragment.c,
    frag_request.c and the dispatch of net_msg.c. */
module Wire {
  import opened Bytes
  import opened Wrappers

  const NET_FRAGMENT: byte := 0
  const NET_FRAGMENT_REQ: byte := 1
  const FRAGMENT_HEADER_LEN := 1 + 2 + 2 + 2 + 4
  const FRAG_REQUEST_HEADER_LEN := 1 + 2 + 2

  datatype Msg =
    | Fragment(pid: uint16, fragNum: uint16, id: uint16, data: bytes)
    | Request(pid: uint16, id: uint16)

  /** The size of a fragment travels in 32 bits. */
  predicate Encodable(m: Msg) {
    m.Fragment? ==> |m.data| < 0x1_0000_0000
  }

  function Encoded(m: Msg): bytes
    requires Encodable(m)
  {
    match m
    case Fragment(pid, fragNum, id, data) =>
      [NET_FRAGMENT] + Put16(pid) + Put16(fragNum) + Put16(id) + Put32(|data|) + data
    case Request(pid, id) =>
      [NET_FRAGMENT_REQ] + Put16(pid) + Put16(id)
  }

  /** net_msg_decode: None stands for a NULL result. */
  function Decoded(b: bytes): Option<Msg>
    requires b != []
  {
    if b[0] == NET_FRAGMENT then
      if |b| < FRAGMENT_HEADER_LEN then None
      else
        var size := Get32(b[7..11]);
        if |b| < FRAGMENT_HEADER_LEN + size then None
        else Some(Fragment(Get16(b[1..3]), Get16(b[3..5]), Get16(b[5..7]), b[11..11 + size]))
    else if b[0] == NET_FRAGMENT_REQ then
      if |b| < FRAG_REQUEST_HEADER_LEN then None
      else Some(Request(Get16(b[1..3]), Get16(b[3..5])))
    else None
  }

  /** The octets of a fragment: its type 0, packet id, number of fragments and index in two octets each
      and the size of the data in four, all most significant octet first, and the data. */
  lemma FragmentLayout(m: Msg)
    requires m.Fragment? && Encodable(m)
    ensures var d := Encoded(m);
            && |d| == 11 + |m.data| && d[0] == 0
            && d[1] == m.pid / 256 && d[2] == m.pid % 256 && d[3] == m.fragNum / 256 && d[4] == m.fragNum % 256
            && d[5] == m.id / 256 && d[6] == m.id % 256
            && d[7] == |m.data| / 0x100_0000 && d[8] == |m.data| / 0x1_0000 % 256
            && d[9] == |m.data| / 256 % 256 && d[10] == |m.data| % 256
            && forall i | 0 <= i < |m.data| :: d[11 + i] == m.data[i]
  {
    Layout32(|m.data|);
    SevenThenFour(Put16(m.pid), Put16(m.fragNum), Put16(m.id), Put32(|m.data|), m.data);
  }

  lemma Layout32(n: uint32)
    ensures Put32(n) == [n / 0x100_0000, n / 0x1_0000 % 256, n / 256 % 256, n % 256]
  {
    var high, low := n / 0x1_0000, n % 0x1_0000;
    assert n == high * 0x1_0000 + low;
    assert n / 256 == high * 256 + low / 256;
  }

  lemma SevenThenFour(pid: bytes, fragNum: bytes, id: bytes, size: bytes, data: bytes)
    requires |pid| == |fragNum| == |id| == 2 && |size| == 4
    ensures var d := [NET_FRAGMENT] + pid + fragNum + id + size + data;
            && |d| == 11 + |data| && d[0] == NET_FRAGMENT
            && d[1] == pid[0] && d[2] == pid[1] && d[3] == fragNum[0] && d[4] == fragNum[1]
            && d[5] == id[0] && d[6] == id[1]
            && d[7] == size[0] && d[8] == size[1] && d[9] == size[2] && d[10] == size[3]
            && forall i | 0 <= i < |data| :: d[11 + i] == data[i]
  {
  }

  /** The octets of a request: its type 1, packet id and index. */
  lemma RequestLayout(m: Msg)
    requires m.Request?
    ensures var d := Encoded(m);
            && |d| == 5 && d[0] == 1
            && d[1] == m.pid / 256 && d[2] == m.pid % 256 && d[3] == m.id / 256 && d[4] == m.id % 256
  {
  }

  /** A datagram decodes to m exactly when it starts with the encoding of m. */
  lemma DecodeExact(b: bytes, m: Msg)
    requires b != [] && Encodable(m)
    ensures Decoded(b) == Some(m) <==> Encoded(m) <= b
  {
    match m
    case Fragment(pid, fragNum, id, data) => DecodeFragmentExact(b, pid, fragNum, id, data);
    case Request(pid, id) => DecodeRequestExact(b, pid, id);
  }

  lemma DecodeRequestExact(b: bytes, pid: uint16, id: uint16)
    requires b != []
    ensures Decoded(b) == Some(Request(pid, id)) <==> Encoded(Request(pid, id)) <= b
  {
    var e := Encoded(Request(pid, id));
    assert e[1..3] == Put16(pid) && e[3..5] == Put16(id);
    if |b| >= 5 {
      RoundTrip16(pid, b[1..3]);
      RoundTrip16(id, b[3..5]);
      assert b[..5] == [b[0]] + b[1..3] + b[3..5];
      assert e <= b <==> e == b[..5];
    }
  }

  lemma DecodeFragmentExact(b: bytes, pid: uint16, fragNum: uint16, id: uint16, data: bytes)
    requires b != [] && |data| < 0x1_0000_0000
    ensures var m := Fragment(pid, fragNum, id, data); Decoded(b) == Some(m) <==> Encoded(m) <= b
  {
    var e := Encoded(Fragment(pid, fragNum, id, data));
    var n := |data|;
    HeaderSlices(pid, fragNum, id, n, data);
    if |b| >= 11 {
      RoundTrip16(pid, b[1..3]);
      RoundTrip16(fragNum, b[3..5]);
      RoundTrip16(id, b[5..7]);
      RoundTrip32(n, b[7..11]);
      if |b| >= 11 + n {
        assert b[..11 + n] == [b[0]] + b[1..3] + b[3..5] + b[5..7] + b[7..11] + b[11..11 + n];
        assert e <= b <==> e == b[..11 + n];
      }
    }
  }

  lemma HeaderSlices(pid: uint16, fragNum: uint16, id: uint16, n: uint32, data: bytes)
    ensures var e := [NET_FRAGMENT] + Put16(pid) + Put16(fragNum) + Put16(id) + Put32(n) + data;
            && e[1..3] == Put16(pid) && e[3..5] == Put16(fragNum) && e[5..7] == Put16(id)
            && e[7..11] == Put32(n) && e[11..] == data
  {
  }

  /** fragment_encode: the encoding at the front of the buffer, or -1 and no change. */
  method EncodeFragment(m: Msg, buff: array<byte>) returns (res: int)
    requires m.Fragment? && Encodable(m)
    modifies buff
    ensures res == if buff.Length >= |Encoded(m)| then 0 else -1
    ensures buff[..] == if res == 0 then Encoded(m) + old(buff[..])[|Encoded(m)|..] else old(buff[..])
  {
    res := -1;
    if buff.Length >= FRAGMENT_HEADER_LEN + |m.data| {
      buff[0] := NET_FRAGMENT;
      var ptr := 1;
      Store(buff, ptr, Put16(m.pid));
      ptr := ptr + 2;
      Store(buff, ptr, Put16(m.fragNum));
      ptr := ptr + 2;
      Store(buff, ptr, Put16(m.id));
      ptr := ptr + 2;
      Store(buff, ptr, Put32(|m.data|));
      ptr := ptr + 4;
      assert buff[..ptr] == [NET_FRAGMENT] + Put16(m.pid) + Put16(m.fragNum) + Put16(m.id) + Put32(|m.data|);
      Store(buff, ptr, m.data);
      res := 0;
      assert buff[..ptr + |m.data|] == Encoded(m);
      assert buff[ptr + |m.data|..] == old(buff[..])[ptr + |m.data|..];
      assert buff[..] == buff[..ptr + |m.data|] + buff[ptr + |m.data|..];
    }
  }

  /** frag_request_encode. */
  method EncodeRequest(m: Msg, buff: array<byte>) returns (res: int)
    requires m.Request?
    modifies buff
    ensures res == if buff.Length >= |Encoded(m)| then 0 else -1
    ensures buff[..] == if res == 0 then Encoded(m) + old(buff[..])[|Encoded(m)|..] else old(buff[..])
  {
    res := -1;
    if buff.Length >= FRAG_REQUEST_HEADER_LEN {
      buff[0] := NET_FRAGMENT_REQ;
      var ptr := 1;
      Store(buff, ptr, Put16(m.pid));
      ptr := ptr + 2;
      Store(buff, ptr, Put16(m.id));
      ptr := ptr + 2;
      res := 0;
      assert buff[..ptr] == Encoded(m);
      assert buff[..] == buff[..ptr] + buff[ptr..];
    }
  }
}
