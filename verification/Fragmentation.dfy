/** Splitting a packet into fragments, finding the gaps of a partial packet and joining the
    fragments again (Lib/net_helper/nhx/fragmented_packet.c), on values. */
module Fragmentation {
  import opened Bytes
  import opened Wrappers

  /** The fragment array of a packet; None where no data has arrived. */
  type Frags = seq<Option<bytes>>

  datatype PacketState = PKT_READY | PKT_LOADING | PKT_ERROR

  const FRAG_IDS := 0x1_0000

  // ---- splitting ----

  /** How many fragments of size fs cover n bytes: n / fs rounded up, see CountIsCeiling. */
  function Count(n: nat, fs: nat): nat
    requires fs > 0
  {
    if n == 0 then 0 else if n <= fs then 1 else 1 + Count(n - fs, fs)
  }

  /** The count as the code keeps it, in 16 bits. */
  function FragNum(n: nat, fs: nat): uint16
    requires fs > 0
  {
    Count(n, fs) % FRAG_IDS
  }

  /** Where fragment i starts: i * fs, see OffsetIs. */
  function Offset(i: nat, fs: nat): nat {
    if i == 0 then 0 else Offset(i - 1, fs) + fs
  }

  function Piece(data: bytes, fs: nat, i: nat): bytes {
    Slice(data, Offset(i, fs), Offset(i + 1, fs))
  }

  /** data[lo..hi], cut at the end of data. */
  function Slice(data: bytes, lo: nat, hi: nat): bytes
    requires lo <= hi
  {
    if lo > |data| then [] else data[lo..if hi < |data| then hi else |data|]
  }

  function Split(data: bytes, fs: nat): (pieces: seq<bytes>)
    requires fs > 0
    ensures |pieces| == FragNum(|data|, fs)
    ensures forall i | 0 <= i < |pieces| :: pieces[i] == Piece(data, fs, i)
  {
    seq(FragNum(|data|, fs), i requires 0 <= i => Piece(data, fs, i))
  }

  function AllPresent(pieces: seq<bytes>): Frags {
    seq(|pieces|, i requires 0 <= i < |pieces| => Some(pieces[i]))
  }

  // ---- joining ----

  function Data(f: Option<bytes>): bytes {
    if f.Some? then f.value else []
  }

  /** The bytes at hand, in index order. */
  function Join(frags: Frags): bytes {
    if frags == [] then [] else Join(frags[..|frags| - 1]) + Data(frags[|frags| - 1])
  }

  /** The longest prefix of whole fragments that is strictly shorter than size. */
  function Fitting(frags: Frags, size: nat, k: nat): (r: nat)
    requires k <= |frags| && (k > 0 ==> |Join(frags[..k])| < size)
    ensures k <= r <= |frags|
    ensures r > 0 ==> |Join(frags[..r])| < size
    ensures r < |frags| ==> |Join(frags[..r + 1])| >= size
    decreases |frags| - k
  {
    if k < |frags| && |Join(frags[..k + 1])| < size then Fitting(frags, size, k + 1) else k
  }

  /** fragmented_packet_dump_data: the bytes copied. */
  function Dumped(frags: Frags, size: nat): bytes {
    Join(frags[..Fitting(frags, size, 0)])
  }

  // ---- gaps ----

  function Empty(n: nat): Frags {
    seq(n, _ => None)
  }

  predicate Complete(frags: Frags) {
    forall i | 0 <= i < |frags| :: frags[i].Some?
  }

  /** The highest index with data, -1 when there is none. */
  function Highest(frags: Frags): (h: int)
    ensures -1 <= h < |frags|
    ensures h >= 0 ==> frags[h].Some?
    ensures forall i | h < i < |frags| :: frags[i] == None
  {
    if frags == [] then -1
    else if frags[|frags| - 1].Some? then |frags| - 1
    else Highest(frags[..|frags| - 1])
  }

  /** The empty indices below hi, in descending order. */
  function Gaps(frags: Frags, hi: nat): seq<nat>
    requires hi <= |frags|
  {
    if hi == 0 then []
    else (if frags[hi - 1] == None then [hi - 1] else []) + Gaps(frags, hi - 1)
  }

  /** What fragmented_packet_state asks for: the gaps below the highest fragment at hand. */
  function Requested(frags: Frags): seq<nat> {
    if frags == [] then [] else Gaps(frags, if Highest(frags) < 1 then 1 else Highest(frags))
  }

  function StateOf(frags: Frags): PacketState {
    if Complete(frags) then PKT_READY else PKT_LOADING
  }

  // ---- writing ----

  function Written(frags: Frags, id: nat, data: bytes): Frags {
    if id < |frags| then frags[id := Some(data)] else frags
  }

  ghost function WrittenAll(frags: Frags, ws: seq<(nat, bytes)>): Frags {
    if ws == [] then frags
    else Written(WrittenAll(frags, ws[..|ws| - 1]), ws[|ws| - 1].0, ws[|ws| - 1].1)
  }

  // ---- lemmas: the pieces ----

  lemma {:induction false} OffsetIs(i: nat, fs: nat)
    ensures Offset(i, fs) == i * fs
  {
    if i > 0 {
      OffsetIs(i - 1, fs);
      assert i * fs == (i - 1) * fs + fs;
    }
  }

  /** The count is the quotient rounded up, as the code computes it. */
  lemma {:induction false} CountIsCeiling(n: nat, fs: nat)
    requires fs > 0
    ensures Count(n, fs) == n / fs + if n % fs != 0 then 1 else 0
  {
    if n > fs {
      CountIsCeiling(n - fs, fs);
      DivideLess(n, fs);
    } else if n == fs {
      assert n == 1 * fs + 0;
    }
  }

  lemma DivideLess(n: nat, fs: nat)
    requires 0 < fs <= n
    ensures n / fs == (n - fs) / fs + 1 && n % fs == (n - fs) % fs
  {
    var q, r := (n - fs) / fs, (n - fs) % fs;
    assert n == q * fs + r + fs;
    assert n == (q + 1) * fs + r;
    DivideUnique(n, fs, q + 1, r);
  }

  lemma DivideUnique(n: nat, fs: nat, q: nat, r: nat)
    requires fs > 0 && n == q * fs + r && r < fs
    ensures n / fs == q && n % fs == r
  {
    var d := q - n / fs;
    assert d * fs == n % fs - r;
    assert d >= 1 ==> d * fs >= fs;
    assert d <= -1 ==> d * fs + fs <= 0;
  }

  /** Fragment i starts inside the data exactly when i is below the count. */
  lemma {:induction false} CountBound(n: nat, fs: nat, i: nat)
    requires fs > 0
    ensures i < Count(n, fs) <==> Offset(i, fs) < n
  {
    if i > 0 && n > fs {
      CountBound(n - fs, fs, i - 1);
    } else if i > 0 {
      assert Offset(i, fs) == Offset(i - 1, fs) + fs;
    }
  }

  /** Every piece is non-empty and all but the last one full; together they cover a prefix of the data. */
  lemma PieceSizes(data: bytes, fs: nat, i: nat)
    requires fs > 0 && i < FragNum(|data|, fs)
    ensures 1 <= |Split(data, fs)[i]| <= fs
    ensures i + 1 < Count(|data|, fs) ==> |Split(data, fs)[i]| == fs
  {
    CountBound(|data|, fs, i);
    CountBound(|data|, fs, i + 1);
  }

  lemma JoinAppend(frags: Frags, f: Option<bytes>)
    ensures Join(frags + [f]) == Join(frags) + Data(f)
  {
    assert (frags + [f])[..|frags|] == frags;
  }

  lemma JoinNext(frags: Frags, i: nat)
    requires i < |frags|
    ensures Join(frags[..i + 1]) == Join(frags[..i]) + Data(frags[i])
  {
    assert frags[..i + 1] == frags[..i] + [frags[i]];
    JoinAppend(frags[..i], frags[i]);
  }

  /** The first k pieces. */
  ghost function FirstPieces(data: bytes, fs: nat, k: nat): Frags {
    if k == 0 then [] else FirstPieces(data, fs, k - 1) + [Some(Piece(data, fs, k - 1))]
  }

  lemma {:induction false} FirstPiecesAre(data: bytes, fs: nat, k: nat)
    ensures |FirstPieces(data, fs, k)| == k
    ensures forall i | 0 <= i < k :: FirstPieces(data, fs, k)[i] == Some(Piece(data, fs, i))
  {
    if k > 0 {
      FirstPiecesAre(data, fs, k - 1);
    }
  }

  /** The first k pieces join to the first k * fs bytes. */
  lemma {:induction false} JoinPieces(data: bytes, fs: nat, k: nat)
    requires k > 0 ==> Offset(k - 1, fs) <= |data|
    ensures Join(FirstPieces(data, fs, k)) == Slice(data, 0, Offset(k, fs))
  {
    if k == 0 {
      assert Slice(data, 0, 0) == [];
    } else {
      JoinPieces(data, fs, k - 1);
      PieceNext(data, fs, k - 1);
      JoinOneMore(data, fs, k);
      assert Join(FirstPieces(data, fs, k)) == Slice(data, 0, Offset(k - 1, fs)) + Piece(data, fs, k - 1);
    }
  }

  lemma JoinOneMore(data: bytes, fs: nat, k: nat)
    requires k > 0
    ensures Join(FirstPieces(data, fs, k)) == Join(FirstPieces(data, fs, k - 1)) + Piece(data, fs, k - 1)
  {
    JoinAppend(FirstPieces(data, fs, k - 1), Some(Piece(data, fs, k - 1)));
  }

  lemma PieceNext(data: bytes, fs: nat, i: nat)
    requires Offset(i, fs) <= |data|
    ensures Slice(data, 0, Offset(i, fs)) + Piece(data, fs, i) == Slice(data, 0, Offset(i + 1, fs))
  {
    SliceNext(data, Offset(i, fs), fs);
  }

  lemma SliceNext(data: bytes, lo: nat, len: nat)
    requires lo <= |data|
    ensures Slice(data, 0, lo) + Slice(data, lo, lo + len) == Slice(data, 0, lo + len)
  {
  }

  /** Splitting and joining gives the data back exactly when the fragment count fits in 16 bits. */
  lemma SplitJoin(data: bytes, fs: nat)
    requires fs > 0 && data != []
    ensures Join(AllPresent(Split(data, fs))) == data <==> Count(|data|, fs) < 0x1_0000
  {
    var k := FragNum(|data|, fs);
    SplitIsPrefix(data, fs);
    CountBound(|data|, fs, k);
    PrefixWhole(data, Offset(k, fs));
  }

  lemma PrefixWhole(data: bytes, n: nat)
    ensures Slice(data, 0, n) == data <==> n >= |data|
  {
  }

  /** A buffer receives all the bytes exactly when it is larger than they are; one of just their
      size does not, since the comparison is strict. */
  lemma {:induction false} DumpAll(frags: Frags, size: nat)
    requires Join(frags) != []
    ensures Dumped(frags, size) == Join(frags) <==> |Join(frags)| < size
  {
    var r := Fitting(frags, size, 0);
    if r < |frags| {
      JoinMonotone(frags, r + 1);
    }
    assert frags[..|frags|] == frags;
  }

  lemma DumpedShorter(frags: Frags, size: nat)
    ensures |Dumped(frags, size)| <= |Join(frags)|
  {
    JoinMonotone(frags, Fitting(frags, size, 0));
  }

  /** The pieces of a packet dump to the packet exactly when the buffer is larger than the packet
      and the fragment count fits in 16 bits. */
  lemma SplitDump(data: bytes, fs: nat, size: nat)
    requires fs > 0 && data != []
    ensures Dumped(AllPresent(Split(data, fs)), size) == data <==> |data| < size && Count(|data|, fs) < FRAG_IDS
  {
    var all := AllPresent(Split(data, fs));
    SplitJoin(data, fs);
    if Count(|data|, fs) < FRAG_IDS {
      DumpAll(all, size);
    } else {
      SplitShorter(data, fs);
      DumpedShorter(all, size);
    }
  }

  lemma SplitShorter(data: bytes, fs: nat)
    requires fs > 0 && Join(AllPresent(Split(data, fs))) != data
    ensures |Join(AllPresent(Split(data, fs)))| < |data|
  {
    SplitIsPrefix(data, fs);
    PrefixWhole(data, Offset(FragNum(|data|, fs), fs));
  }

  lemma SplitIsPrefix(data: bytes, fs: nat)
    requires fs > 0
    ensures Join(AllPresent(Split(data, fs))) == Slice(data, 0, Offset(FragNum(|data|, fs), fs))
  {
    var k := FragNum(|data|, fs);
    if k > 0 {
      CountBound(|data|, fs, k - 1);
    }
    JoinPieces(data, fs, k);
    FirstPiecesAre(data, fs, k);
    assert AllPresent(Split(data, fs)) == FirstPieces(data, fs, k);
  }

  lemma {:induction false} JoinMonotone(frags: Frags, k: nat)
    requires k <= |frags|
    ensures |Join(frags[..k])| <= |Join(frags)|
    decreases |frags|
  {
    if k < |frags| {
      var init := frags[..|frags| - 1];
      assert init[..k] == frags[..k];
      JoinMonotone(init, k);
    } else {
      assert frags[..k] == frags;
    }
  }

  // ---- lemmas: the gaps ----

  /** Gaps lists exactly the empty indices below hi, once each, in descending order. */
  lemma {:induction false} GapsExact(frags: Frags, hi: nat)
    requires hi <= |frags|
    ensures forall i: nat :: i in Gaps(frags, hi) <==> i < hi && frags[i] == None
    ensures forall a, b | 0 <= a < b < |Gaps(frags, hi)| :: Gaps(frags, hi)[a] > Gaps(frags, hi)[b]
  {
    if hi > 0 {
      GapsExact(frags, hi - 1);
      var rest := Gaps(frags, hi - 1);
      assert forall a | 0 <= a < |rest| :: rest[a] in rest;
    }
  }

  /** The requests are exactly the missing indices below the highest present one (and index 0
      while nothing is present), once each, in descending order. */
  lemma RequestsExact(frags: Frags)
    ensures var r := Requested(frags);
            && (forall i: nat :: i in r <==>
                  i < |frags| && frags[i] == None && (i < Highest(frags) || i == 0))
            && (forall a, b | 0 <= a < b < |r| :: r[a] > r[b])
  {
    if frags != [] {
      GapsExact(frags, if Highest(frags) < 1 then 1 else Highest(frags));
    }
  }

  /** Missing, with a present one above. */
  ghost predicate IsGap(frags: Frags, i: nat) {
    i < |frags| && frags[i] == None && exists h :: i < h < |frags| && frags[h].Some?
  }

  /** Once something is present: exactly the missing indices that have a present one above them. */
  lemma RequestedAreGaps(frags: Frags, p: nat)
    requires p < |frags| && frags[p].Some?
    ensures forall i: nat :: i in Requested(frags) <==> IsGap(frags, i)
    ensures forall a, b | 0 <= a < b < |Requested(frags)| :: Requested(frags)[a] > Requested(frags)[b]
  {
    RequestsExact(frags);
    assert Highest(frags) >= p;
  }

  /** READY means that nothing is asked for and the top fragment is in. */
  lemma ReadyExact(frags: Frags)
    ensures StateOf(frags) == PKT_READY <==> Requested(frags) == [] && Highest(frags) == |frags| - 1
  {
    RequestsExact(frags);
    var r := Requested(frags);
    forall i: nat | i < |frags| && r == [] && Highest(frags) == |frags| - 1 ensures frags[i].Some? {
      assert i !in r;
    }
    assert r != [] ==> r[0] in r;
  }

  /** A write sequence touches index i. */
  ghost predicate Touches(ws: seq<(nat, bytes)>, i: nat) {
    exists j | 0 <= j < |ws| :: ws[j].0 == i
  }

  lemma {:induction false} WrittenAllPresence(frags: Frags, ws: seq<(nat, bytes)>, i: nat)
    requires i < |frags|
    ensures |WrittenAll(frags, ws)| == |frags|
    ensures WrittenAll(frags, ws)[i].Some? <==> frags[i].Some? || Touches(ws, i)
  {
    if ws != [] {
      var last := |ws| - 1;
      WrittenAllPresence(frags, ws[..last], i);
      assert Touches(ws, i) <==> Touches(ws[..last], i) || ws[last].0 == i by {
        if Touches(ws[..last], i) {
          var j :| 0 <= j < last && ws[..last][j].0 == i;
          assert ws[j].0 == i;
        }
      }
    }
  }

  /** Once the top fragment is in, writing the requested fragments, in any order and among any
      other writes, is what it takes to become READY. */
  lemma RequestsSuffice(frags: Frags, ws: seq<(nat, bytes)>)
    requires frags != [] && Highest(frags) == |frags| - 1
    ensures StateOf(WrittenAll(frags, ws)) == PKT_READY <==>
            forall i | i in Requested(frags) :: Touches(ws, i)
  {
    RequestedAll(frags);
    WrittenAllPresence(frags, ws, 0);
    forall i: nat | i < |frags| ensures WrittenAll(frags, ws)[i].Some? <==> frags[i].Some? || Touches(ws, i) {
      WrittenAllPresence(frags, ws, i);
    }
    CompleteByTouch(frags, WrittenAll(frags, ws), Requested(frags), ws);
  }

  /** With the top fragment in, all that is missing is asked for. */
  lemma RequestedAll(frags: Frags)
    requires frags != [] && frags[|frags| - 1].Some?
    ensures forall i: nat :: i in Requested(frags) <==> i < |frags| && frags[i] == None
  {
    RequestedAreGaps(frags, |frags| - 1);
    forall i: nat | i < |frags| && frags[i] == None ensures IsGap(frags, i) {
      assert i < |frags| - 1;
    }
  }

  lemma CompleteByTouch(frags: Frags, done: Frags, req: seq<nat>, ws: seq<(nat, bytes)>)
    requires |done| == |frags| && forall i: nat | i < |frags| :: done[i].Some? <==> frags[i].Some? || Touches(ws, i)
    requires forall i: nat :: i in req <==> i < |frags| && frags[i] == None
    ensures Complete(done) <==> forall i | i in req :: Touches(ws, i)
  {
    if forall i | i in req :: Touches(ws, i) {
      forall i: nat | i < |done| ensures done[i].Some? {
        assert frags[i] == None ==> i in req;
      }
    }
  }

  // ---- lemmas: reassembly ----

  /** What is present agrees with pieces. */
  ghost predicate Agrees(frags: Frags, pieces: seq<bytes>) {
    && |frags| == |pieces|
    && forall i | 0 <= i < |frags| && frags[i].Some? :: frags[i].value == pieces[i]
  }

  lemma AgreeComplete(frags: Frags, pieces: seq<bytes>)
    requires Agrees(frags, pieces) && Complete(frags)
    ensures frags == AllPresent(pieces)
  {
  }

  lemma {:induction false} WrittenAllAgrees(pieces: seq<bytes>, ws: seq<(nat, bytes)>)
    requires forall j | 0 <= j < |ws| :: ws[j].0 < |pieces| && ws[j].1 == pieces[ws[j].0]
    ensures Agrees(WrittenAll(Empty(|pieces|), ws), pieces)
  {
    if ws != [] {
      WrittenAllAgrees(pieces, ws[..|ws| - 1]);
    }
  }

  /** Fragments written in any order, with any repeats, into an empty packet: once every index has
      been written, exactly a buffer larger than the packet gets the original bytes. */
  lemma Reassembly(data: bytes, fs: nat, ws: seq<(nat, bytes)>, size: nat)
    requires fs > 0 && data != []
    requires var pieces := Split(data, fs);
             && (forall j | 0 <= j < |ws| :: ws[j].0 < |pieces| && ws[j].1 == pieces[ws[j].0])
             && (forall i: nat | i < |pieces| :: Touches(ws, i))
    ensures Dumped(WrittenAll(Empty(FragNum(|data|, fs)), ws), size) == data <==>
            |data| < size && Count(|data|, fs) < FRAG_IDS
  {
    var pieces := Split(data, fs);
    var frags := WrittenAll(Empty(|pieces|), ws);
    WrittenAllAgrees(pieces, ws);
    forall i: nat | i < |frags| ensures frags[i].Some? {
      WrittenAllPresence(Empty(|pieces|), ws, i);
    }
    AgreeComplete(frags, pieces);
    SplitDump(data, fs, size);
  }
}
