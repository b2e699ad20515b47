/** Theorems about whole runs of deliveries into the reordering buffer, from output_create on. */
module OutputRuns {
  import opened Bytes
  import opened OutputBuffer

  /** The state and the output after delivering cs to a fresh buffer of L slots. */
  ghost function Run(L: int, cs: seq<Chunk>): (Reorder, seq<Chunk>) {
    if cs == [] then (FRESH, [])
    else
      var last := |cs| - 1;
      var (st, out) := Run(L, cs[..last]);
      var (st', more) := Delivered(L, st, cs[last]);
      (st', out + more)
  }

  /** For each id, the data of the first copy that did not arrive too late. */
  ghost function Accepted(L: int, cs: seq<Chunk>): map<int, bytes> {
    if cs == [] then map[]
    else
      var last := |cs| - 1;
      var acc := Accepted(L, cs[..last]);
      if Late(Run(L, cs[..last]).0, cs[last]) || cs[last].id in acc then acc
      else acc[cs[last].id := cs[last].data]
  }

  // ---- conservation and order, for any run ----

  /** acc is split between the output and the pending chunks, nothing lost, changed or repeated. */
  ghost predicate Conserved(acc: map<int, bytes>, st: Reorder, out: seq<Chunk>) {
    && Increasing(out)
    && (forall i | 0 <= i < |out| ::
          0 <= out[i].id < st.next && out[i].id in acc && acc[out[i].id] == out[i].data)
    && (forall id | id in st.pending :: id in acc && acc[id] == st.pending[id])
    && (forall id | id in acc :: 0 <= id && (Wrote(out, id) || id in st.pending))
  }

  lemma ConservedStep(L: int, acc: map<int, bytes>, st: Reorder, out: seq<Chunk>, c: Chunk)
    requires L >= 1 && Settled(L, st) && Conserved(acc, st, out) && !Late(st, c)
    ensures var (st', more) := Delivered(L, st, c);
            Conserved(if c.id in acc then acc else acc[c.id := c.data], st', out + more)
  {
    var pending := FirstCopy(st.pending, c);
    var n0 := if st.next < 0 then c.id else st.next;
    var acc' := if c.id in acc then acc else acc[c.id := c.data];
    assert !Wrote(out, c.id);
    ConservedEmit(acc', pending, n0, Delivered(L, st, c).0.next, out);
  }

  /** Emitting a range that starts above the output conserves. */
  lemma ConservedEmit(acc: map<int, bytes>, pending: map<int, bytes>, n: int, m: int, out: seq<Chunk>)
    requires 0 <= n <= m && Increasing(out)
    requires forall i | 0 <= i < |out| :: 0 <= out[i].id < n && out[i].id in acc && acc[out[i].id] == out[i].data
    requires forall id | id in pending :: n <= id && id in acc && acc[id] == pending[id]
    requires forall id | id in acc :: 0 <= id && (Wrote(out, id) || id in pending)
    ensures Conserved(acc, Reorder(m, From(pending, m)), out + EmitRange(pending, n, m))
  {
    EmitExact(pending, n, m);
    var more := EmitRange(pending, n, m);
    forall id | id in acc && id !in From(pending, m) ensures Wrote(out + more, id) {
      WroteConcat(out, more, id);
    }
  }

  lemma WroteConcat(a: seq<Chunk>, b: seq<Chunk>, id: int)
    ensures Wrote(a + b, id) <==> Wrote(a, id) || Wrote(b, id)
  {
    if Wrote(a, id) {
      var i :| 0 <= i < |a| && a[i].id == id;
      assert (a + b)[i].id == id;
    }
    if Wrote(b, id) {
      var i :| 0 <= i < |b| && b[i].id == id;
      assert (a + b)[|a| + i].id == id;
    }
    if Wrote(a + b, id) {
      var i :| 0 <= i < |a + b| && (a + b)[i].id == id;
      assert if i < |a| then a[i].id == id else b[i - |a|].id == id;
    }
  }

  /** Over any run: ids are written in strictly increasing order, and every accepted chunk was
      written once or is still pending, with the data of its first copy. */
  lemma {:induction false} RunConserves(L: int, cs: seq<Chunk>)
    requires L >= 1
    ensures Settled(L, Run(L, cs).0)
    ensures Conserved(Accepted(L, cs), Run(L, cs).0, Run(L, cs).1)
  {
    if cs != [] {
      var last := |cs| - 1;
      RunConserves(L, cs[..last]);
      var (st, out) := Run(L, cs[..last]);
      DeliverSettled(L, st, cs[last]);
      if Late(st, cs[last]) {
        assert out + [] == out;
      } else {
        ConservedStep(L, Accepted(L, cs[..last]), st, out, cs[last]);
      }
    }
  }

  // ---- losslessness ----

  /** x is the id of one of the first i chunks. */
  ghost predicate Seen(cs: seq<Chunk>, i: int, x: int)
    requires i <= |cs|
  {
    exists j | 0 <= j < i :: cs[j].id == x
  }

  /** The ids s .. s+n-1 in some order, possibly repeated, s first. */
  ghost predicate Shuffled(cs: seq<Chunk>, s: int, n: int) {
    && s >= 0
    && cs != [] && cs[0].id == s
    && (forall i | 0 <= i < |cs| :: s <= cs[i].id < s + n)
    && (forall x | s <= x < s + n :: Seen(cs, |cs|, x))
  }

  /** No chunk overtakes a missing one by L or more. */
  ghost predicate Fits(L: int, cs: seq<Chunk>, s: int) {
    forall i, x | 0 <= i < |cs| && s <= x <= cs[i].id - L :: Seen(cs, i, x)
  }

  /** The first m chunks left no hole: what is written is s .. next-1, the rest is pending,
      always the first copy. */
  ghost predicate NoHole(cs: seq<Chunk>, m: int, s: int, st: Reorder, out: seq<Chunk>)
    requires m <= |cs|
  {
    && st.next == s + |out|
    && !Seen(cs, m, st.next)
    && (forall k | 0 <= k < |out| :: out[k].id == s + k && Seen(cs, m, out[k].id))
    && (forall id | id in st.pending :: Seen(cs, m, id))
    && Accounted(cs, m, st.pending, out)
  }

  /** The first copies are written or pending. */
  ghost predicate Accounted(cs: seq<Chunk>, m: int, pending: map<int, bytes>, out: seq<Chunk>)
    requires m <= |cs|
  {
    forall j | 0 <= j < m && !Seen(cs, j, cs[j].id) ::
      cs[j] in out || (cs[j].id in pending && pending[cs[j].id] == cs[j].data)
  }

  lemma SeenMore(cs: seq<Chunk>, m: int, x: int)
    requires 0 <= m < |cs|
    ensures Seen(cs, m + 1, x) <==> Seen(cs, m, x) || cs[m].id == x
  {
    if Seen(cs, m, x) {
      var j :| 0 <= j < m && cs[j].id == x;
    }
  }

  lemma NoHoleLate(L: int, cs: seq<Chunk>, m: int, s: int, st: Reorder, out: seq<Chunk>)
    requires 0 <= m < |cs| && s <= cs[m].id < st.next && NoHole(cs, m, s, st, out)
    ensures NoHole(cs, m + 1, s, st, out)
  {
    assert out[cs[m].id - s].id == cs[m].id;
    SeenMore(cs, m, st.next);
    forall k | 0 <= k < |out| ensures Seen(cs, m + 1, out[k].id) { SeenMore(cs, m, out[k].id); }
    forall id | id in st.pending ensures Seen(cs, m + 1, id) { SeenMore(cs, m, id); }
  }

  /** A chunk that does not overtake the first hole by L only extends the written run. */
  lemma NoHoleStep(L: int, cs: seq<Chunk>, m: int, s: int, st: Reorder, out: seq<Chunk>)
    requires L >= 1 && 0 <= m < |cs| && NoHole(cs, m, s, st, out) && Settled(L, st)
    requires 0 <= st.next <= cs[m].id < st.next + L
    ensures var (st', more) := Delivered(L, st, cs[m]); NoHole(cs, m + 1, s, st', out + more)
  {
    var c, pending := cs[m], FirstCopy(st.pending, cs[m]);
    var (st', more) := Delivered(L, st, c);
    EmitDense(pending, st.next, st'.next);
    forall id | id in pending ensures Seen(cs, m + 1, id) { SeenMore(cs, m, id); }
    SeenMore(cs, m, st'.next);
    if Seen(cs, m, st'.next) { SeenAccounted(cs, m, s, st, out, st'.next); }
    var all := out + more;
    forall k | 0 <= k < |all| ensures all[k].id == s + k && Seen(cs, m + 1, all[k].id) {
      if k < |out| { SeenMore(cs, m, out[k].id); }
    }
    AccountedFirst(cs, m, st.pending, out);
    AccountedOn(cs, m + 1, pending, st.next, st'.next, out);
  }

  lemma AccountedFirst(cs: seq<Chunk>, m: int, pending: map<int, bytes>, out: seq<Chunk>)
    requires 0 <= m < |cs| && Accounted(cs, m, pending, out) && forall id | id in pending :: Seen(cs, m, id)
    ensures Accounted(cs, m + 1, FirstCopy(pending, cs[m]), out)
  {
  }

  lemma AccountedOn(cs: seq<Chunk>, m: int, pending: map<int, bytes>, a: int, b: int, out: seq<Chunk>)
    requires m <= |cs| && Accounted(cs, m, pending, out) && a <= b
    requires (forall x | a <= x < b :: x in pending) && forall x | x in pending :: a <= x
    ensures Accounted(cs, m, From(pending, b), out + EmitRange(pending, a, b))
  {
    forall j | 0 <= j < m && !Seen(cs, j, cs[j].id) && cs[j] !in out
      ensures cs[j] in EmitRange(pending, a, b)
              || (cs[j].id in From(pending, b) && From(pending, b)[cs[j].id] == cs[j].data)
    {
      PendingGoes(pending, a, b, cs[j]);
    }
  }

  /** A pending chunk is written by a dense emission, or stays. */
  lemma PendingGoes(p: map<int, bytes>, a: int, b: int, c: Chunk)
    requires a <= b && c.id in p && p[c.id] == c.data && a <= c.id
    requires forall x | a <= x < b :: x in p
    ensures c in EmitRange(p, a, b) || (c.id in From(p, b) && From(p, b)[c.id] == c.data)
  {
    EmitDense(p, a, b);
    if c.id < b {
      assert EmitRange(p, a, b)[c.id - a] == c;
    }
  }

  lemma SeenAccounted(cs: seq<Chunk>, m: int, s: int, st: Reorder, out: seq<Chunk>, x: int)
    requires m <= |cs| && NoHole(cs, m, s, st, out) && Seen(cs, m, x)
    ensures x < st.next || x in st.pending
  {
    var j := FirstSeen(cs, m, x);
    assert cs[j] in out || cs[j].id in st.pending;
  }

  /** The first of the chunks with id x. */
  lemma {:induction false} FirstSeen(cs: seq<Chunk>, m: int, x: int) returns (j: int)
    requires m <= |cs| && Seen(cs, m, x)
    ensures 0 <= j < m && cs[j].id == x && !Seen(cs, j, x)
  {
    j :| 0 <= j < m && cs[j].id == x;
    if Seen(cs, j, x) {
      j := FirstSeen(cs, j, x);
    }
  }

  lemma {:induction false} NoHoleRun(L: int, cs: seq<Chunk>, m: int, s: int, n: int)
    requires L >= 1 && Shuffled(cs, s, n) && Fits(L, cs, s) && 1 <= m <= |cs|
    ensures NoHole(cs, m, s, Run(L, cs[..m]).0, Run(L, cs[..m]).1)
  {
    var c := cs[m - 1];
    assert cs[..m][..m - 1] == cs[..m - 1];
    var (st, out) := Run(L, cs[..m - 1]);
    var (st', more) := Delivered(L, st, c);
    assert Run(L, cs[..m]) == (st', out + more);
    if m == 1 {
      NoHoleFirst(L, cs, s);
    } else {
      NoHoleRun(L, cs, m - 1, s, n);
      RunConserves(L, cs[..m - 1]);
      if Late(st, c) {
        NoHoleLate(L, cs, m - 1, s, st, out);
        assert out + more == out;
      } else {
        var seen := Seen(cs, m - 1, st.next);
        assert c.id < st.next + L;
        NoHoleStep(L, cs, m - 1, s, st, out);
      }
    }
  }

  lemma NoHoleFirst(L: int, cs: seq<Chunk>, s: int)
    requires L >= 1 && s >= 0 && cs != [] && cs[0].id == s
    ensures NoHole(cs, 1, s, Delivered(L, FRESH, cs[0]).0, Delivered(L, FRESH, cs[0]).1)
  {
    var c := cs[0];
    var pending: map<int, bytes> := map[s := c.data];
    assert FirstCopy(FRESH.pending, c) == pending;
    assert RunEnd(pending, s) == s + 1 by { assert s + 1 !in pending; }
    EmitDense(pending, s, s + 1);
    assert EmitRange(pending, s, s + 1) == [c];
    assert Seen(cs, 1, s + 0);
  }

  ghost predicate WroteExactly(out: seq<Chunk>, s: int, n: int) {
    |out| == n && forall k | 0 <= k < n :: out[k].id == s + k
  }

  /** Once the window has passed an unwritten id, that id is never written. */
  lemma {:induction false} PassedForever(L: int, cs: seq<Chunk>, m: int, x: int)
    requires L >= 1 && 0 <= m <= |cs|
    requires x < Run(L, cs[..m]).0.next && !Wrote(Run(L, cs[..m]).1, x)
    ensures !Wrote(Run(L, cs).1, x)
    decreases |cs| - m
  {
    if m == |cs| {
      assert cs[..m] == cs;
    } else {
      assert cs[..m + 1][..m] == cs[..m];
      var (st, out) := Run(L, cs[..m]);
      var (st', more) := Delivered(L, st, cs[m]);
      RunConserves(L, cs[..m]);
      EmitExact(FirstCopy(st.pending, cs[m]), if st.next < 0 then cs[m].id else st.next, st'.next);
      assert !Wrote(out + more, x) by {
        if i :| 0 <= i < |out + more| && (out + more)[i].id == x {
          assert i < |out| ==> out[i].id == x;
          assert i >= |out| ==> more[i - |out|].id == x;
        }
      }
      PassedForever(L, cs, m + 1, x);
    }
  }

  /** Only ids that arrived are written or held. */
  lemma {:induction false} OnlyArrived(L: int, cs: seq<Chunk>, x: int)
    requires x in Accepted(L, cs)
    ensures Seen(cs, |cs|, x)
  {
    var last := |cs| - 1;
    if x in Accepted(L, cs[..last]) {
      OnlyArrived(L, cs[..last], x);
      var j :| 0 <= j < last && cs[..last][j].id == x;
      assert cs[j].id == x;
    } else {
      assert cs[last].id == x;
    }
  }

  /** A chunk that overtakes a missing id by L or more loses it. */
  lemma OvertakenIsLost(L: int, cs: seq<Chunk>, i: int, x: int)
    requires L >= 1 && 0 <= i < |cs| && 0 <= x <= cs[i].id - L && !Seen(cs, i, x)
    ensures !Wrote(Run(L, cs).1, x)
  {
    var before, upto := cs[..i], cs[..i + 1];
    assert upto[..i] == before;
    var (st, out) := Run(L, upto);
    RunConserves(L, before);
    RunConserves(L, upto);
    assert x < st.next;
    SeenMore(cs, i, x);
    assert !Seen(upto, i + 1, x) by { assert forall j | 0 <= j < i + 1 :: upto[j] == cs[j]; }
    NotArrivedNotWritten(L, upto, x);
    PassedForever(L, cs, i + 1, x);
  }

  lemma NotArrivedNotWritten(L: int, cs: seq<Chunk>, x: int)
    requires L >= 1 && !Seen(cs, |cs|, x)
    ensures !Wrote(Run(L, cs).1, x)
  {
    RunConserves(L, cs);
    if x in Accepted(L, cs) { OnlyArrived(L, cs, x); }
  }

  lemma ExactlyWrote(out: seq<Chunk>, s: int, n: int, x: int)
    requires WroteExactly(out, s, n) && s <= x < s + n
    ensures Wrote(out, x)
  {
    assert out[x - s].id == x;
  }

  /** Shuffled arrivals come out complete and in order exactly when no chunk overtakes a
      missing one by L or more. */
  lemma Lossless(L: int, cs: seq<Chunk>, s: int, n: int)
    requires L >= 1 && Shuffled(cs, s, n)
    ensures WroteExactly(Run(L, cs).1, s, n) <==> Fits(L, cs, s)
  {
    var (st, out) := Run(L, cs);
    if Fits(L, cs, s) {
      LosslessData(L, cs, s, n);
    } else {
      var i, x :| 0 <= i < |cs| && s <= x <= cs[i].id - L && !Seen(cs, i, x);
      OvertakenIsLost(L, cs, i, x);
      if WroteExactly(out, s, n) { ExactlyWrote(out, s, n, x); }
    }
  }

  /** ... and then each id carries the data of its first copy, and nothing stays pending. */
  lemma LosslessData(L: int, cs: seq<Chunk>, s: int, n: int)
    requires L >= 1 && Shuffled(cs, s, n) && Fits(L, cs, s)
    ensures WroteExactly(Run(L, cs).1, s, n)
    ensures Run(L, cs).0 == Reorder(s + n, map[])
    ensures forall j | 0 <= j < |cs| && !Seen(cs, j, cs[j].id) :: Run(L, cs).1[cs[j].id - s] == cs[j]
  {
    assert cs[..|cs|] == cs;
    NoHoleRun(L, cs, |cs|, s, n);
    RunConserves(L, cs);
    NoHoleComplete(L, cs, s, n, Run(L, cs).0, Run(L, cs).1);
  }

  lemma SeenExactly(cs: seq<Chunk>, s: int, n: int)
    requires Shuffled(cs, s, n)
    ensures forall x :: Seen(cs, |cs|, x) <==> s <= x < s + n
  {
  }

  lemma NoHoleComplete(L: int, cs: seq<Chunk>, s: int, n: int, st: Reorder, out: seq<Chunk>)
    requires Shuffled(cs, s, n) && NoHole(cs, |cs|, s, st, out) && Settled(L, st)
    ensures WroteExactly(out, s, n) && st == Reorder(s + n, map[])
    ensures forall j | 0 <= j < |cs| && !Seen(cs, j, cs[j].id) :: out[cs[j].id - s] == cs[j]
  {
    SeenExactly(cs, s, n);
    assert st.next >= s + n;
    assert out[|out| - 1].id < s + n;
    forall id ensures id !in st.pending {}
    NoHoleData(cs, s, st, out);
  }

  lemma NoHoleData(cs: seq<Chunk>, s: int, st: Reorder, out: seq<Chunk>)
    requires NoHole(cs, |cs|, s, st, out) && st.pending == map[]
    ensures forall j | 0 <= j < |cs| && !Seen(cs, j, cs[j].id) ::
              0 <= cs[j].id - s < |out| && out[cs[j].id - s] == cs[j]
  {
    forall j | 0 <= j < |cs| && !Seen(cs, j, cs[j].id)
      ensures 0 <= cs[j].id - s < |out| && out[cs[j].id - s] == cs[j]
    {
      AtItsPlace(out, s, cs[j]);
    }
  }

  lemma AtItsPlace(out: seq<Chunk>, s: int, c: Chunk)
    requires c in out && forall k | 0 <= k < |out| :: out[k].id == s + k
    ensures 0 <= c.id - s < |out| && out[c.id - s] == c
  {
  }

  // ---- exactly what is lost, in any run ----

  /** One of the first m chunks came, by L or more ahead, before any chunk with id x. */
  ghost predicate Overtaken(L: int, cs: seq<Chunk>, m: int, x: int)
    requires m <= |cs|
  {
    exists j | 0 <= j < m :: cs[j].id >= x + L && !Seen(cs, j, x)
  }

  lemma PrefixRun(L: int, cs: seq<Chunk>, m: int)
    requires 0 < m <= |cs|
    ensures Run(L, cs[..m]).0 == Delivered(L, Run(L, cs[..m - 1]).0, cs[m - 1]).0
    ensures Run(L, cs[..m]).1 ==
            Run(L, cs[..m - 1]).1 + Delivered(L, Run(L, cs[..m - 1]).0, cs[m - 1]).1
  {
    assert cs[..m][..m - 1] == cs[..m - 1];
  }

  /** The window only moves up. */
  lemma NextStep(L: int, st: Reorder, c: Chunk)
    requires L >= 1 && Settled(L, st)
    ensures st.next <= Delivered(L, st, c).0.next
  {
  }

  lemma {:induction false} NextGrows(L: int, cs: seq<Chunk>, j: int, m: int)
    requires L >= 1 && 0 <= j <= m <= |cs|
    ensures Run(L, cs[..j]).0.next <= Run(L, cs[..m]).0.next
  {
    if j < m {
      NextGrows(L, cs, j, m - 1);
      PrefixRun(L, cs, m);
      RunConserves(L, cs[..m - 1]);
      NextStep(L, Run(L, cs[..m - 1]).0, cs[m - 1]);
    }
  }

  /** The first chunk starts the window. */
  lemma FirstStarts(L: int, cs: seq<Chunk>, m: int)
    requires L >= 1 && 0 < m <= |cs| && cs[0].id >= 0
    ensures Run(L, cs[..m]).0.next > cs[0].id
  {
    PrefixRun(L, cs, 1);
    assert Run(L, cs[..0]) == (FRESH, []);
    RunEndPast(FirstCopy(FRESH.pending, cs[0]), WindowStart(L, FRESH, cs[0]));
    NextGrows(L, cs, 1, m);
  }

  lemma RunEndPast(pending: map<int, bytes>, from: int)
    ensures from in pending ==> RunEnd(pending, from) > from
  {
  }

  /** What arrived at or above the window was accepted. */
  lemma {:induction false} SeenAccepted(L: int, cs: seq<Chunk>, m: int, x: int)
    requires L >= 1 && 0 <= m <= |cs| && Seen(cs, m, x) && x >= 0 && x >= Run(L, cs[..m]).0.next
    ensures x in Accepted(L, cs[..m])
  {
    var (st, c) := (Run(L, cs[..m - 1]).0, cs[m - 1]);
    assert cs[..m][..m - 1] == cs[..m - 1];
    NextGrows(L, cs, m - 1, m);
    if c.id != x {
      SeenMore(cs, m - 1, x);
      SeenAccepted(L, cs, m - 1, x);
    }
  }

  /** What a delivery passes without writing it, the chunk overtakes by the length of the window. */
  lemma StepPasses(L: int, st: Reorder, c: Chunk, x: int)
    requires L >= 1 && Settled(L, st) && !Late(st, c)
    requires FirstNext(st, c) <= x < Delivered(L, st, c).0.next && !Wrote(Delivered(L, st, c).1, x)
    ensures c.id >= x + L && x !in st.pending
  {
    EmitExact(FirstCopy(st.pending, c), FirstNext(st, c), Delivered(L, st, c).0.next);
  }

  /** The window passes an id that is not written exactly when the id is overtaken. */
  lemma {:induction false} PassedExact(L: int, cs: seq<Chunk>, m: int, x: int)
    requires L >= 1 && 0 < m <= |cs| && 0 <= cs[0].id <= x
    ensures x < Run(L, cs[..m]).0.next && !Wrote(Run(L, cs[..m]).1, x) <==> Overtaken(L, cs, m, x)
  {
    if Overtaken(L, cs, m, x) {
      OvertakenPasses(L, cs, m, x);
    } else if x < Run(L, cs[..m]).0.next && !Wrote(Run(L, cs[..m]).1, x) {
      PassesOvertaken(L, cs, m, x);
    }
  }

  lemma OvertakenPasses(L: int, cs: seq<Chunk>, m: int, x: int)
    requires L >= 1 && 0 < m <= |cs| && x >= 0 && Overtaken(L, cs, m, x)
    ensures x < Run(L, cs[..m]).0.next && !Wrote(Run(L, cs[..m]).1, x)
  {
    var j :| 0 <= j < m && cs[j].id >= x + L && !Seen(cs, j, x);
    PrefixRun(L, cs, j + 1);
    RunConserves(L, cs[..j]);
    NextGrows(L, cs, j + 1, m);
    SeenPrefix(cs, m, j, x);
    OvertakenIsLost(L, cs[..m], j, x);
  }

  lemma SeenPrefix(cs: seq<Chunk>, m: int, j: int, x: int)
    requires 0 <= j <= m <= |cs|
    ensures Seen(cs[..m], j, x) <==> Seen(cs, j, x)
  {
    if i :| 0 <= i < j && cs[i].id == x {
      assert cs[..m][i].id == x;
    }
  }

  lemma {:induction false} PassesOvertaken(L: int, cs: seq<Chunk>, m: int, x: int)
    requires L >= 1 && 0 < m <= |cs| && 0 <= cs[0].id <= x
    requires x < Run(L, cs[..m]).0.next && !Wrote(Run(L, cs[..m]).1, x)
    ensures Overtaken(L, cs, m, x)
  {
    var (st, out) := Run(L, cs[..m - 1]);
    PrefixRun(L, cs, m);
    WroteConcat(out, Delivered(L, st, cs[m - 1]).1, x);
    RunConserves(L, cs[..m - 1]);
    if m > 1 && x < st.next {
      PassesOvertaken(L, cs, m - 1, x);
    } else {
      assert m == 1 ==> cs[..0] == [] && st == FRESH;
      if m > 1 {
        FirstStarts(L, cs, m - 1);
      }
      StepPasses(L, st, cs[m - 1], x);
      if Seen(cs, m - 1, x) {
        SeenAccepted(L, cs, m - 1, x);
      }
      assert cs[m - 1].id >= x + L && !Seen(cs, m - 1, x);
    }
  }

  /** What arrived is written, or waits, exactly unless it was overtaken by the length of the window. */
  lemma LossExact(L: int, cs: seq<Chunk>, x: int)
    requires L >= 1 && cs != [] && 0 <= cs[0].id <= x && Seen(cs, |cs|, x)
    ensures Wrote(Run(L, cs).1, x) || x in Run(L, cs).0.pending <==> !Overtaken(L, cs, |cs|, x)
  {
    assert cs[..|cs|] == cs;
    RunConserves(L, cs);
    PassedExact(L, cs, |cs|, x);
    if x >= Run(L, cs).0.next {
      SeenAccepted(L, cs, |cs|, x);
    }
  }

  /** The window starts at the first id that neither arrived nor was overtaken. */
  lemma NextExact(L: int, cs: seq<Chunk>)
    requires L >= 1 && cs != [] && cs[0].id >= 0
    ensures var n := Run(L, cs).0.next;
            && cs[0].id < n && !Seen(cs, |cs|, n) && !Overtaken(L, cs, |cs|, n)
            && forall x | cs[0].id <= x < n :: Seen(cs, |cs|, x) || Overtaken(L, cs, |cs|, x)
  {
    assert cs[..|cs|] == cs;
    var (st, out) := Run(L, cs);
    RunConserves(L, cs);
    FirstStarts(L, cs, |cs|);
    PassedExact(L, cs, |cs|, st.next);
    if Seen(cs, |cs|, st.next) {
      SeenAccepted(L, cs, |cs|, st.next);
    }
    forall x | cs[0].id <= x < st.next ensures Seen(cs, |cs|, x) || Overtaken(L, cs, |cs|, x) {
      PassedExact(L, cs, |cs|, x);
      if Wrote(out, x) {
        OnlyArrived(L, cs, x);
      }
    }
  }

  /** What is not overtaken is kept as it came first. */
  lemma FirstCopyKept(L: int, cs: seq<Chunk>, j: int)
    requires L >= 1 && 0 <= j < |cs| && 0 <= cs[0].id <= cs[j].id
    requires !Seen(cs, j, cs[j].id) && !Overtaken(L, cs, |cs|, cs[j].id)
    ensures var (st, out) := Run(L, cs);
            cs[j] in out || (cs[j].id in st.pending && st.pending[cs[j].id] == cs[j].data)
  {
    var x := cs[j].id;
    assert Seen(cs, |cs|, x);
    LossExact(L, cs, x);
    RunConserves(L, cs);
    FirstAccepted(L, cs, j);
    assert cs[..|cs|] == cs;
    AcceptedStays(L, cs, j + 1, |cs|, x);
    KeptAsAccepted(Accepted(L, cs), Run(L, cs).0, Run(L, cs).1, cs[j]);
  }

  lemma KeptAsAccepted(acc: map<int, bytes>, st: Reorder, out: seq<Chunk>, c: Chunk)
    requires Conserved(acc, st, out) && c.id in acc && acc[c.id] == c.data
    ensures c in out || (c.id in st.pending && st.pending[c.id] == c.data)
  {
    if Wrote(out, c.id) {
      var i :| 0 <= i < |out| && out[i].id == c.id;
      assert out[i] == c;
    }
  }

  lemma FirstAccepted(L: int, cs: seq<Chunk>, j: int)
    requires L >= 1 && 0 <= j < |cs| && 0 <= cs[0].id <= cs[j].id
    requires !Seen(cs, j, cs[j].id) && !Overtaken(L, cs, |cs|, cs[j].id)
    ensures cs[j].id in Accepted(L, cs[..j + 1]) && Accepted(L, cs[..j + 1])[cs[j].id] == cs[j].data
  {
    var x := cs[j].id;
    assert cs[..j + 1][..j] == cs[..j];
    SeenPrefix(cs, j, j, x);
    if x in Accepted(L, cs[..j]) {
      OnlyArrived(L, cs[..j], x);
    }
    if Late(Run(L, cs[..j]).0, cs[j]) {
      NotArrivedNotWritten(L, cs[..j], x);
      if j > 0 {
        PassedExact(L, cs, j, x);
      }
    }
  }

  lemma {:induction false} AcceptedStays(L: int, cs: seq<Chunk>, j: int, m: int, x: int)
    requires 0 <= j <= m <= |cs| && x in Accepted(L, cs[..j])
    ensures x in Accepted(L, cs[..m]) && Accepted(L, cs[..m])[x] == Accepted(L, cs[..j])[x]
  {
    if j < m {
      AcceptedStays(L, cs, j, m - 1, x);
      assert cs[..m][..m - 1] == cs[..m - 1];
    }
  }
}
