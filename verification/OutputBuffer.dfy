/** The reordering ring of src/output-grapes.c: chunks arrive in any order and leave in
    increasing order of id. Delivered is the meaning of a delivery on the pending chunks,
    with no ring in it; class ChunkOutput is the ring, proved against Delivered. OutputRuns has
    the theorems about whole runs of deliveries. */
module OutputBuffer {
  import opened Bytes

  datatype Chunk = Chunk(id: int, data: bytes)

  /** next: the id to be written next, -1 before the first chunk; pending: what is held back. */
  datatype Reorder = Reorder(next: int, pending: map<int, bytes>)

  const FRESH := Reorder(-1, map[])

  // ---- the meaning of a delivery ----

  /** The pending chunks with ids in [from, to), in increasing order. */
  ghost function EmitRange(pending: map<int, bytes>, from: int, to: int): seq<Chunk>
    decreases to - from
  {
    if from >= to then []
    else (if from in pending then [Chunk(from, pending[from])] else []) + EmitRange(pending, from + 1, to)
  }

  /** The first id from `from` on that is not pending. */
  ghost function RunEnd(pending: map<int, bytes>, from: int): (r: int)
    ensures from <= r && r !in pending
    ensures forall x | from <= x < r :: x in pending
    decreases pending.Keys
  {
    if from in pending then
      var rest := pending - {from};
      assert rest.Keys == pending.Keys - {from};
      RunEnd(rest, from + 1)
    else from
  }

  ghost function Max(a: int, b: int): int {
    if a < b then b else a
  }

  ghost function FirstCopy(pending: map<int, bytes>, c: Chunk): map<int, bytes> {
    if c.id in pending then pending else pending[c.id := c.data]
  }

  ghost function From(pending: map<int, bytes>, n: int): map<int, bytes> {
    map id | id in pending && n <= id :: pending[id]
  }

  /** The window starts with the first chunk. */
  ghost function FirstNext(st: Reorder, c: Chunk): int {
    if st.next < 0 then c.id else st.next
  }

  /** The id a delivery of c makes the window start at, before the final flush. */
  ghost function WindowStart(L: int, st: Reorder, c: Chunk): int {
    Max(FirstNext(st, c), c.id - L + 1)
  }

  ghost predicate Late(st: Reorder, c: Chunk) {
    c.id < 0 || c.id < st.next
  }

  /** A window of L ids slides up until c fits, then up to the first missing id; everything
      pending that the window leaves behind is written. */
  ghost function Delivered(L: int, st: Reorder, c: Chunk): (Reorder, seq<Chunk>) {
    if Late(st, c) then (st, [])
    else
      var pending := FirstCopy(st.pending, c);
      var next := RunEnd(pending, WindowStart(L, st, c));
      (Reorder(next, From(pending, next)), EmitRange(pending, FirstNext(st, c), next))
  }

  /** What holds between deliveries. */
  ghost predicate Settled(L: int, st: Reorder) {
    && st.next >= -1
    && (st.next == -1 ==> st.pending == map[])
    && (forall id | id in st.pending :: st.next < id < st.next + L)
  }

  // ---- facts about emission ----

  lemma EmitOne(p: map<int, bytes>, a: int)
    ensures EmitRange(p, a, a + 1) == if a in p then [Chunk(a, p[a])] else []
  {
    assert EmitRange(p, a + 1, a + 1) == [];
  }

  lemma {:induction false} EmitSplit(p: map<int, bytes>, a: int, b: int, c: int)
    requires a <= b <= c
    ensures EmitRange(p, a, c) == EmitRange(p, a, b) + EmitRange(p, b, c)
    decreases b - a
  {
    if a < b {
      EmitSplit(p, a + 1, b, c);
    }
  }

  lemma {:induction false} EmitAgree(p: map<int, bytes>, q: map<int, bytes>, a: int, b: int)
    requires forall x | a <= x < b :: (x in p <==> x in q) && (x in p ==> p[x] == q[x])
    ensures EmitRange(p, a, b) == EmitRange(q, a, b)
    decreases b - a
  {
    if a < b {
      EmitAgree(p, q, a + 1, b);
    }
  }

  ghost predicate Increasing(out: seq<Chunk>) {
    forall i, j | 0 <= i < j < |out| :: out[i].id < out[j].id
  }

  ghost predicate Wrote(out: seq<Chunk>, id: int) {
    exists i | 0 <= i < |out| :: out[i].id == id
  }

  /** Emission writes exactly the pending ids of the range, each with its data, in order. */
  lemma {:induction false} EmitExact(p: map<int, bytes>, a: int, b: int)
    ensures var out := EmitRange(p, a, b);
            && Increasing(out)
            && (forall i | 0 <= i < |out| :: a <= out[i].id < b && out[i].id in p && out[i].data == p[out[i].id])
            && (forall x | a <= x < b && x in p :: Wrote(out, x))
    decreases b - a
  {
    if a < b {
      EmitExact(p, a + 1, b);
      var rest, out := EmitRange(p, a + 1, b), EmitRange(p, a, b);
      var d := |out| - |rest|;
      forall x | a <= x < b && x in p ensures Wrote(out, x) {
        if x == a {
          assert out[0].id == x;
        } else {
          var i :| 0 <= i < |rest| && rest[i].id == x;
          assert out[i + d] == rest[i];
        }
      }
    }
  }

  /** A range without holes comes out as consecutive ids. */
  lemma {:induction false} EmitDense(p: map<int, bytes>, a: int, b: int)
    requires a <= b && forall x | a <= x < b :: x in p
    ensures |EmitRange(p, a, b)| == b - a
    ensures forall k | 0 <= k < b - a :: EmitRange(p, a, b)[k] == Chunk(a + k, p[a + k])
    decreases b - a
  {
    if a < b {
      EmitDense(p, a + 1, b);
    }
  }

  lemma DeliverSettled(L: int, st: Reorder, c: Chunk)
    requires L >= 1 && Settled(L, st)
    ensures Settled(L, Delivered(L, st, c).0)
  {
  }

  // ---- the ring ----

  lemma ModStep(a: int, L: int)
    requires L >= 1
    ensures 0 <= a % L < L
    ensures (a + 1) % L == if a % L + 1 == L then 0 else a % L + 1
  {
    var q, r := a / L, a % L;
    assert a == q * L + r;
    if r + 1 == L {
      assert a + 1 == (q + 1) * L by { assert (q + 1) * L == q * L + L; }
      ModOf(q + 1, 0, L);
    } else {
      ModOf(q, r + 1, L);
    }
  }

  lemma ModOf(q: int, r: int, L: int)
    requires 0 <= r < L
    ensures (q * L + r) % L == r
  {
    var d := q - (q * L + r) / L;
    assert d * L == (q * L + r) % L - r;
    assert d >= 1 ==> d * L >= L;
    assert d <= -1 ==> d * L + L <= 0;
  }

  lemma ModSmall(a: int, L: int)
    requires 0 <= a < 2 * L
    ensures a % L == if a < L then a else a - L
  {
    if a < L { ModOf(0, a, L); } else { ModOf(1, a - L, L); }
  }

  lemma ModPlus(a: int, L: int)
    requires L >= 1
    ensures (a + L) % L == a % L
  {
    assert a + L == (a / L + 1) * L + a % L;
    ModOf(a / L + 1, a % L, L);
  }

  /** From window start n and pending p to m and q: what the window left behind was written, and counted. */
  ghost predicate Emitted(p: map<int, bytes>, n: int, q: map<int, bytes>, m: int,
                          before: seq<Chunk>, after: seq<Chunk>, count: int) {
    n <= m && q == From(p, m) && after == before + EmitRange(p, n, m) && count == |EmitRange(p, n, m)|
  }

  lemma EmittedNone(p: map<int, bytes>, n: int, w: seq<Chunk>)
    requires forall id | id in p :: n <= id
    ensures Emitted(p, n, p, n, w, w, 0)
  {
    assert From(p, n) == p;
  }

  lemma EmittedTwice(p: map<int, bytes>, n: int, q: map<int, bytes>, m: int, r: map<int, bytes>, k: int,
                     w0: seq<Chunk>, w1: seq<Chunk>, w2: seq<Chunk>, c1: int, c2: int)
    requires Emitted(p, n, q, m, w0, w1, c1) && Emitted(q, m, r, k, w1, w2, c2)
    ensures Emitted(p, n, r, k, w0, w2, c1 + c2)
  {
    EmitSplit(p, n, m, k);
    EmitAgree(p, q, m, k);
    assert From(q, k) == From(p, k);
  }

  /** The slot k places after head. */
  ghost function Slot(s: seq<Chunk>, head: nat, k: int): Chunk
    requires head < |s| && 0 <= k < |s|
  {
    s[if head + k < |s| then head + k else head + k - |s|]
  }

  /** Slot k is empty or holds the chunk with id next + k. */
  ghost predicate IsRing(s: seq<Chunk>, head: nat, next: int) {
    && head < |s|
    && next >= -1
    && (forall k | 0 <= k < |s| :: Slot(s, head, k).id == -1 || (next >= 0 && Slot(s, head, k).id == next + k))
  }

  ghost predicate Holds(s: seq<Chunk>, head: nat, next: int, id: int) {
    head < |s| && next <= id < next + |s| && Slot(s, head, id - next).id >= 0
  }

  ghost function PendingOf(s: seq<Chunk>, head: nat, next: int): map<int, bytes> {
    map id | next <= id < next + |s| && Holds(s, head, next, id) :: Slot(s, head, id - next).data
  }

  /** Emptying the head slot and stepping over it forgets exactly the id `next`. */
  lemma StepRing(s: seq<Chunk>, head: nat, next: int, t: seq<Chunk>, head': nat)
    requires IsRing(s, head, next) && next >= 0
    requires |t| == |s| && t == s[head := t[head]] && t[head].id == -1
    requires head' == if head + 1 == |s| then 0 else head + 1
    ensures IsRing(t, head', next + 1)
    ensures PendingOf(t, head', next + 1) == From(PendingOf(s, head, next), next + 1)
  {
    forall k | 0 <= k < |s|
      ensures Slot(t, head', k) == if k + 1 < |s| then Slot(s, head, k + 1) else t[head]
    {}
    var p, q := PendingOf(s, head, next), PendingOf(t, head', next + 1);
    forall id ensures id in q <==> id in From(p, next + 1) {
      assert next < id < next + |s| ==> (Holds(t, head', next + 1, id) <==> Holds(s, head, next, id));
    }
  }

  /** A step writes the chunk in the head slot, if there is one. */
  lemma SentOne(s: seq<Chunk>, head: nat, next: int, t: seq<Chunk>, head': nat,
                before: seq<Chunk>, after: seq<Chunk>, count: int)
    requires IsRing(s, head, next) && next >= 0
    requires |t| == |s| && t == s[head := t[head]] && t[head].id == -1
    requires head' == if head + 1 == |s| then 0 else head + 1
    requires after == before + if s[head].id >= 0 then [s[head]] else []
    requires count == if s[head].id >= 0 then 1 else 0
    ensures IsRing(t, head', next + 1)
    ensures Emitted(PendingOf(s, head, next), next, PendingOf(t, head', next + 1), next + 1, before, after, count)
  {
    StepRing(s, head, next, t, head');
    assert Slot(s, head, 0) == s[head];
    assert Holds(s, head, next, next) <==> s[head].id >= 0;
    EmitOne(PendingOf(s, head, next), next);
  }

  /** Storing c in its slot adds it to the pending chunks. */
  lemma StoreRing(s: seq<Chunk>, head: nat, next: int, c: Chunk, t: seq<Chunk>, pos: nat)
    requires IsRing(s, head, next) && 0 <= next <= c.id < next + |s|
    requires pos == (head + (c.id - next)) % |s| && pos < |s|
    requires t == if c.id != s[pos].id then s[pos := c] else s
    ensures IsRing(t, head, next) && PendingOf(t, head, next) == FirstCopy(PendingOf(s, head, next), c)
  {
    ModSmall(head + (c.id - next), |s|);
    forall k | 0 <= k < |s| && k != c.id - next ensures Slot(t, head, k) == Slot(s, head, k) {}
    assert Slot(s, head, c.id - next) == s[pos] && Slot(t, head, c.id - next) == t[pos];
    StoreAgrees(s, head, next, c, t);
  }

  lemma StoreAgrees(s: seq<Chunk>, head: nat, next: int, c: Chunk, t: seq<Chunk>)
    requires head < |s| == |t| && 0 <= next <= c.id < next + |s|
    requires forall k | 0 <= k < |s| && k != c.id - next :: Slot(t, head, k) == Slot(s, head, k)
    requires Slot(t, head, c.id - next) ==
             if Slot(s, head, c.id - next).id >= 0 then Slot(s, head, c.id - next) else c
    ensures PendingOf(t, head, next) == FirstCopy(PendingOf(s, head, next), c)
  {
    forall id ensures id in PendingOf(t, head, next) <==> id in FirstCopy(PendingOf(s, head, next), c) {
      assert id != c.id ==> (Holds(t, head, next, id) <==> Holds(s, head, next, id));
      assert Holds(t, head, next, c.id);
    }
  }

  class ChunkOutput {
    var buff: array<Chunk>
    var head: nat
    var nextOut: int
    const reorder: bool
    /** The chunks handed to chunk_write so far. */
    ghost var written: seq<Chunk>

    ghost predicate Ring()
      reads this, buff
    {
      IsRing(buff[..], head, nextOut)
    }

    /** Between calls the slot at head is empty. */
    ghost predicate Valid()
      reads this, buff
    {
      Ring() && buff[head].id == -1
    }

    ghost function Pending(): map<int, bytes>
      reads this, buff
    {
      PendingOf(buff[..], head, nextOut)
    }

    ghost function Abs(): Reorder
      reads this, buff
    {
      Reorder(nextOut, Pending())
    }

    constructor (buffLength: nat, reorder: bool)
      requires 1 <= buffLength <= 65535
      ensures Valid() && fresh(buff) && buff.Length == buffLength && this.reorder == reorder
      ensures Abs() == FRESH && written == []
    {
      buff := new Chunk[buffLength](_ => Chunk(-1, []));
      head, nextOut, written := 0, -1, [];
      this.reorder := reorder;
    }

    /** Write the chunk at head, if any, and move on by one id. */
    method SendNext() returns (res: int)
      requires Ring() && nextOut >= 0
      modifies this`head, this`nextOut, this`written, buff
      ensures Ring() && nextOut == old(nextOut) + 1
      ensures head == (old(head) + 1) % buff.Length
      ensures Emitted(old(Pending()), old(nextOut), Pending(), nextOut, old(written), written, res)
    {
      res := WriteHead();
      nextOut := nextOut + 1;
      StepHead();
      SentOne(old(buff[..]), old(head), old(nextOut), buff[..], head, old(written), written, res);
    }

    /** Head moves on by one slot. */
    method StepHead()
      requires head < buff.Length
      modifies this`head
      ensures head == (old(head) + 1) % buff.Length
      ensures head == if old(head) + 1 == buff.Length then 0 else old(head) + 1
    {
      ModSmall(head + 1, buff.Length);
      head := (head + 1) % buff.Length;
    }

    /** Write the chunk in the head slot, if any, and empty the slot. */
    method WriteHead() returns (res: int)
      requires Ring()
      modifies this`written, buff
      ensures buff[head].id == -1 && buff[..] == old(buff[..])[head := buff[head]]
      ensures written == old(written) + if old(buff[head]).id >= 0 then [old(buff[head])] else []
      ensures res == if old(buff[head]).id >= 0 then 1 else 0
    {
      assert Slot(buff[..], head, 0) == buff[head];
      res := 0;
      if buff[head].id >= 0 {
        written := written + [buff[head]];
        res := 1;
        buff[head] := buff[head].(id := -1);
      }
    }

    method BuffFlush(len: int) returns (res: int)
      requires Ring() && nextOut >= 0 && len >= 0
      modifies this`head, this`nextOut, this`written, buff
      ensures Ring() && nextOut == old(nextOut) + len
      ensures head == (old(head) + len) % buff.Length
      ensures Emitted(old(Pending()), old(nextOut), Pending(), nextOut, old(written), written, res)
    {
      res := 0;
      ModSmall(head, buff.Length);
      EmittedNone(Pending(), nextOut, written);
      for i := 0 to len
        invariant Ring() && nextOut == old(nextOut) + i
        invariant head == (old(head) + i) % buff.Length
        invariant Emitted(old(Pending()), old(nextOut), Pending(), nextOut, old(written), written, res)
      {
        ghost var p, n, w := Pending(), nextOut, written;
        ModStep(old(head) + i, buff.Length);
        ModSmall(head + 1, buff.Length);
        var sent := SendNext();
        EmittedTwice(old(Pending()), old(nextOut), p, n, Pending(), nextOut, old(written), w, written, res, sent);
        res := res + sent;
      }
    }

    /** Put a copy of c in its slot, unless one is there; the slot never holds another chunk. */
    method Place(c: Chunk, pos: nat)
      requires Ring() && nextOut <= c.id < nextOut + buff.Length
      requires if c.id < 0 then Abs() == FRESH && buff[head].id == -1 else nextOut >= 0
      requires pos == (head + (c.id - nextOut)) % buff.Length && pos < buff.Length
      modifies buff
      ensures c.id < 0 ==> buff[..] == old(buff[..])
      ensures c.id >= 0 ==> Ring() && Pending() == FirstCopy(old(Pending()), c)
    {
      ModSmall(head + (c.id - nextOut), buff.Length);
      if c.id != buff[pos].id {
        buff[pos] := Chunk(c.id, c.data);
      }
      if c.id >= 0 {
        StoreRing(old(buff[..]), head, nextOut, c, buff[..], pos);
      }
    }

    /** Free enough slots for c; both ways of moving head agree, even when the jump exceeds the ring. */
    method MakeRoom(c: Chunk, newPos: nat) returns (res: int)
      requires Ring() && nextOut >= 0 && c.id >= nextOut + buff.Length
      requires newPos == (head + c.id - nextOut) % buff.Length
      modifies this`head, this`nextOut, this`written, buff
      ensures Ring() && nextOut == c.id - buff.Length + 1
      ensures newPos == (head + (c.id - nextOut)) % buff.Length
      ensures Emitted(old(Pending()), old(nextOut), Pending(), nextOut, old(written), written, res)
    {
      ghost var reach := head + c.id - nextOut;
      res := BuffFlush(c.id - nextOut - buff.Length + 1);
      ModStep(reach, buff.Length);
      ModPlus(reach + 1 - buff.Length, buff.Length);
      ModSmall(newPos + 1, buff.Length);
      assert head == (newPos + 1) % buff.Length;
      head := (newPos + 1) % buff.Length;
      ModSmall(head + (buff.Length - 1), buff.Length);
    }

    /** Write everything up to the first hole. */
    method FlushRun() returns (res: int)
      requires Ring()
      modifies this`head, this`nextOut, this`written, buff
      ensures Valid() && nextOut == RunEnd(old(Pending()), old(nextOut))
      ensures Emitted(old(Pending()), old(nextOut), Pending(), nextOut, old(written), written, res)
    {
      ghost var end := RunEnd(Pending(), nextOut);
      res := 0;
      EmittedNone(Pending(), nextOut, written);
      while buff[head].id >= 0
        invariant Ring() && nextOut <= end
        invariant Emitted(old(Pending()), old(nextOut), Pending(), nextOut, old(written), written, res)
        decreases end - nextOut
      {
        ghost var p, n, w := Pending(), nextOut, written;
        HeadHeld();
        var sent := SendNext();
        EmittedTwice(old(Pending()), old(nextOut), p, n, Pending(), nextOut, old(written), w, written, res, sent);
        res := res + sent;
      }
      HeadHeld();
    }

    lemma HeadHeld()
      requires Ring()
      ensures nextOut in Pending() <==> buff[head].id >= 0
    {
      assert Slot(buff[..], head, 0) == buff[head];
      assert Holds(buff[..], head, nextOut, nextOut) <==> buff[head].id >= 0;
    }

    method Deliver(c: Chunk) returns (res: int)
      requires Valid()
      modifies this`head, this`nextOut, this`written, buff
      ensures Valid()
      ensures reorder ==>
                var (st, out) := Delivered(buff.Length, old(Abs()), c);
                Abs() == st && written == old(written) + out && res == |out|
      ensures !reorder ==> Abs() == old(Abs()) && written == old(written) + [c] && res == 1
    {
      res := 0;
      if reorder {
        if c.id >= nextOut {
          res := DeliverOnTime(c);
        }
      } else {
        written := written + [c];
        res := 1;
      }
    }

    /** The branch for a chunk that is not late. */
    method DeliverOnTime(c: Chunk) returns (res: int)
      requires Valid() && c.id >= nextOut
      modifies this`head, this`nextOut, this`written, buff
      ensures Valid()
      ensures var (st, out) := Delivered(buff.Length, old(Abs()), c);
              Abs() == st && written == old(written) + out && res == |out|
    {
      res := 0;
      ghost var st := Abs();
      var newPos;
      res, newPos := Reserve(c);
      ghost var start, pending, w := nextOut, Pending(), written;
      Place(c, newPos);
      var sent := FlushRun();
      if c.id >= 0 {
        DeliveredInTwo(buff.Length, st, c, start, pending, Pending(), nextOut, old(written), w, written, res, sent);
      }
      res := res + sent;
    }

    /** The first half of a delivery: the window is moved until c fits into slot newPos. */
    method Reserve(c: Chunk) returns (res: int, newPos: nat)
      requires Valid() && c.id >= nextOut
      modifies this`head, this`nextOut, this`written, buff
      ensures Ring() && nextOut <= c.id < nextOut + buff.Length
      ensures newPos == (head + (c.id - nextOut)) % buff.Length && newPos < buff.Length
      ensures c.id >= 0 ==>
                nextOut >= 0 && RoomMade(buff.Length, old(Abs()), c, nextOut, Pending(), old(written), written, res)
      ensures c.id < 0 ==> Valid() && Abs() == old(Abs()) == FRESH && res == 0 && written == old(written)
    {
      ghost var st := Abs();
      if nextOut < 0 {
        nextOut := c.id;
        assert Pending() == st.pending;
      }
      res, newPos := 0, (head + c.id - nextOut) % buff.Length;
      assert head + c.id - nextOut == head + (c.id - nextOut);
      EmittedNone(Pending(), nextOut, written);
      if c.id >= nextOut + buff.Length {
        res := MakeRoom(c, newPos);
      }
    }
  }

  /** The window has moved up to its new start, and what it left behind was written. */
  ghost predicate RoomMade(L: int, st: Reorder, c: Chunk, start: int, pending: map<int, bytes>,
                           before: seq<Chunk>, after: seq<Chunk>, count: int) {
    start == WindowStart(L, st, c) && Emitted(st.pending, FirstNext(st, c), pending, start, before, after, count)
  }

  /** Making room and flushing the run together are one delivery. */
  lemma DeliveredInTwo(L: int, st: Reorder, c: Chunk, start: int, pending: map<int, bytes>,
                       r: map<int, bytes>, next: int,
                       w0: seq<Chunk>, w1: seq<Chunk>, w2: seq<Chunk>, c1: int, c2: int)
    requires !Late(st, c) && L >= 1 && RoomMade(L, st, c, start, pending, w0, w1, c1)
    requires next == RunEnd(FirstCopy(pending, c), start)
    requires Emitted(FirstCopy(pending, c), start, r, next, w1, w2, c2)
    ensures var (st', out) := Delivered(L, st, c);
            Reorder(next, r) == st' && w2 == w0 + out && c1 + c2 == |out|
  {
    var p, first := st.pending, FirstNext(st, c);
    var q, full := FirstCopy(pending, c), FirstCopy(p, c);
    assert q == From(full, start);
    RunEndAgree(full, q, start);
    EmitAgree(p, full, first, start);
    assert Emitted(full, first, q, start, w0, w1, c1);
    EmittedTwice(full, first, q, start, r, next, w0, w1, w2, c1, c2);
  }

  lemma RunEndAgree(p: map<int, bytes>, q: map<int, bytes>, from: int)
    requires q == From(p, from)
    ensures RunEnd(p, from) == RunEnd(q, from)
  {
    var a, b := RunEnd(p, from), RunEnd(q, from);
    assert a < b ==> a in q;
    assert b < a ==> b in p;
  }
}
