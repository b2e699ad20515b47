/** The doubly linked list of src/transaction.c on the heap, proved against Transactions. */
module TransactionLists {
  import opened Bytes
  import opened Transactions

  class Element {
    const transId: uint16
    const sent: real
    var accepted: real
    var backward: Element?
    var forward: Element?
    ghost const serial: nat

    constructor (ghost serial: nat, transId: uint16, sent: real)
      ensures this.serial == serial && this.transId == transId && this.sent == sent && accepted == -1.0
      ensures backward == null && forward == null
    {
      this.serial, this.transId, this.sent := serial, transId, sent;
      accepted, backward, forward := -1.0, null, null;
    }
  }

  ghost function At(ns: seq<Element>, i: int): Element? {
    if 0 <= i < |ns| then ns[i] else null
  }

  /** The links between positions i-1 and i, both ways. */
  ghost predicate Edge(ns: seq<Element>, i: int)
    reads ns
  {
    && (0 < i <= |ns| ==> ns[i - 1].forward == At(ns, i))
    && (0 <= i < |ns| ==> ns[i].backward == At(ns, i - 1))
  }

  ghost predicate Distinct(ns: seq<Element>) {
    forall i, j | 0 <= i < j < |ns| :: ns[i] != ns[j]
  }

  /** The list at head is ns. */
  ghost predicate IsChain(head: Element?, ns: seq<Element>)
    reads ns
  {
    head == At(ns, 0) && Distinct(ns) && forall i | 0 <= i <= |ns| :: Edge(ns, i)
  }

  ghost function ValueOf(e: Element): Trans
    reads e
  {
    Trans(e.serial, e.sent, e.accepted)
  }

  ghost predicate Represents(ns: seq<Element>, ts: seq<Trans>)
    reads ns
  {
    && |ns| == |ts|
    && forall i | 0 <= i < |ns| :: ts[i] == ValueOf(ns[i]) && ns[i].transId == IdOf(ns[i].serial)
  }

  /** Element i is linked to its neighbours, with element k left out. */
  ghost predicate Skips(ns: seq<Element>, k: int, i: int)
    requires 0 <= i < |ns|
    reads ns
  {
    && ns[i].forward == At(ns, if i + 1 == k then k + 1 else i + 1)
    && ns[i].backward == At(ns, if i - 1 == k then k - 1 else i - 1)
  }

  /** Linked like that, the others are a chain. */
  lemma ChainCloses(ns: seq<Element>, k: nat)
    requires k < |ns| && Distinct(ns) && forall i | 0 <= i < |ns| && i != k :: Skips(ns, k, i)
    ensures IsChain(At(ns, if k == 0 then 1 else 0), Without(ns, k))
  {
    var ws := Without(ns, k);
    WithoutAt(ns, k);
    forall i | 0 < i <= |ws| ensures ws[i - 1].forward == At(ws, i) {
      assert Skips(ns, k, if i - 1 < k then i - 1 else i);
    }
    forall i | 0 <= i < |ws| ensures ws[i].backward == At(ws, i - 1) {
      assert Skips(ns, k, if i < k then i else i + 1);
    }
  }

  lemma WithoutAt(ns: seq<Element>, k: nat)
    requires k < |ns| && Distinct(ns)
    ensures Distinct(Without(ns, k))
    ensures forall i | -1 <= i < |ns| :: At(Without(ns, k), i) == At(ns, if i < k then i else i + 1)
  {
  }

  ghost function Without<T>(s: seq<T>, i: nat): seq<T>
    requires i < |s|
  {
    s[..i] + s[i + 1..]
  }

  class TransactionList {
    var head: Element?
    ghost var nodes: seq<Element>
    /** The transactions, newest first. */
    ghost var Contents: seq<Trans>

    ghost predicate Valid()
      reads this, nodes
    {
      IsChain(head, nodes) && Represents(nodes, Contents)
    }

    constructor ()
      ensures Valid() && Contents == []
    {
      head, nodes, Contents := null, [], [];
    }

    /** _transaction_remove: unlink an element, by four cases. */
    method Unlink(stl: Element, ghost k: nat)
      requires Valid() && k < |nodes| && nodes[k] == stl
      modifies this, nodes
      ensures Valid() && nodes == Without(old(nodes), k) && Contents == Without(old(Contents), k)
    {
      Relink(stl, k);
      ChainCloses(nodes, k);
      nodes, Contents := Without(nodes, k), Without(Contents, k);
    }

    /** The four cases: the neighbours of stl are linked to each other. */
    method Relink(stl: Element, ghost k: nat)
      requires Valid() && k < |nodes| && nodes[k] == stl
      modifies this`head, nodes
      ensures head == At(nodes, if k == 0 then 1 else 0)
      ensures forall i | 0 <= i < |nodes| && i != k :: Skips(nodes, k, i)
      ensures Represents(nodes, Contents)
    {
      assert Edge(nodes, k) && Edge(nodes, k + 1) && Edge(nodes, 0);
      if stl.backward == null {
        if stl.forward != null {
          head := stl.forward;
          head.backward := null;
        } else {
          head := null;
        }
      } else {
        if stl.forward == null {
          stl.backward.forward := null;
        } else {
          stl.backward.forward := stl.forward;
          stl.forward.backward := stl.backward;
        }
      }
      forall i | 0 <= i < |nodes| && i != k ensures Skips(nodes, k, i) {
        assert old(Edge(nodes, i)) && old(Edge(nodes, i + 1));
      }
    }

    /** check_neighbor_status_list: one pass over the list, removing every transaction past its lifetime. */
    method CheckStatus(now: real)
      requires Valid()
      modifies this, nodes
      ensures Valid() && Contents == Young(old(Contents), now)
      ensures forall k | 0 <= k < |nodes| :: nodes[k] in old(nodes)
    {
      if head == null {
        assert Contents == [];
        return;
      }
      ghost var ts, i, m := Contents, 0, 0;
      assert Edge(nodes, 1);
      var stl := head;
      var aux := stl.forward;
      while stl != null
        invariant Valid() && 0 <= m <= |nodes| && 0 <= i <= |ts|
        invariant stl == At(nodes, m) && (stl != null ==> aux == At(nodes, m + 1))
        invariant Scanned(ts, i, Contents, m, now)
        invariant forall k | 0 <= k < |nodes| :: nodes[k] in old(nodes)
        decreases |nodes| - m
      {
        m := Visit(stl, ts, i, m, now);
        i := i + 1;
        stl := aux;
        if stl != null {
          assert Edge(nodes, m + 1);
          aux := aux.forward;
        }
      }
      ScanEnd(ts, i, Contents, m, now);
    }

    /** One step of the scan. */
    method Visit(stl: Element, ghost ts: seq<Trans>, ghost i: nat, ghost m: nat, now: real) returns (ghost m': nat)
      requires Valid() && m < |nodes| && nodes[m] == stl && Scanned(ts, i, Contents, m, now)
      modifies this, nodes
      ensures Valid() && i < |ts| && Scanned(ts, i + 1, Contents, m', now) && m' <= |nodes|
      ensures forall k | 0 <= k < |nodes| :: nodes[k] in old(nodes)
      ensures |nodes| - m' == |old(nodes)| - m - 1
      ensures At(nodes, m') == At(old(nodes), m + 1) && At(nodes, m' + 1) == At(old(nodes), m + 2)
    {
      ScanStep(ts, i, Contents, m, now);
      m' := m + 1;
      if now - stl.sent > TRANS_ID_MAX_LIFETIME {
        WithoutAt(nodes, m);
        Unlink(stl, m);
        m' := m;
      }
    }

    /** transaction_create: scan, then put a new transaction in front. */
    method Create(scan: real, now: real) returns (id: uint16)
      requires Valid()
      modifies this, nodes
      ensures Valid() && Contents == Created(old(Contents), scan, now)
      ensures id == IdOf(Contents[0].serial)
    {
      CheckStatus(scan);
      id := Push(now);
    }

    method Push(now: real) returns (id: uint16)
      requires Valid()
      modifies this, nodes
      ensures Valid() && Contents == [Trans(NextSerial(old(Contents)), now, -1.0)] + old(Contents)
      ensures id == IdOf(Contents[0].serial)
    {
      ghost var serial := NextSerial(Contents);
      id := 1;
      if head != null {
        // the test for 0 is made on an int, before the assignment cuts it to 16 bits
        var next := if head.transId as int + 1 != 0 then head.transId as int + 1 else 1;
        id := next % 0x1_0000;
      }
      var stl2 := new Element(serial, id, now);
      LinkFront(stl2);
    }

    method LinkFront(stl2: Element)
      requires Valid() && stl2 !in nodes && stl2.backward == null && stl2.forward == null
      requires stl2.transId == IdOf(stl2.serial)
      modifies this, nodes, stl2
      ensures Valid() && Contents == [old(ValueOf(stl2))] + old(Contents)
      ensures nodes == [stl2] + old(nodes)
    {
      assert Edge(nodes, 0);
      if head != null {
        head.backward := stl2;
        stl2.forward := head;
      }
      head := stl2;
      Pushed(stl2, nodes);
      nodes, Contents := [stl2] + nodes, [ValueOf(stl2)] + Contents;
    }

    twostate lemma Pushed(new node: Element, ns: seq<Element>)
      requires old(IsChain(At(ns, 0), ns)) && node !in ns
      requires node.backward == null && node.forward == At(ns, 0)
      requires ns != [] ==> ns[0].backward == node && ns[0].forward == old(ns[0].forward)
      requires forall i | 0 < i < |ns| :: ns[i].backward == old(ns[i].backward) && ns[i].forward == old(ns[i].forward)
      ensures IsChain(node, [node] + ns)
    {
      var r := [node] + ns;
      forall i | 0 <= i <= |r| ensures Edge(r, i) {
        assert i > 0 ==> old(Edge(ns, i - 1));
      }
    }

    /** transaction_reg_accept: note the time on the first transaction with this id; 0 is no id. */
    method RegAccept(id: uint16, now: real) returns (found: bool)
      requires Valid()
      modifies nodes, this`Contents
      ensures Valid() && Contents == Apply(old(Contents), Op.RegAccept(id, now))
      ensures found <==> id != 0 && Find(old(Contents), id) < |old(Contents)|
    {
      found := false;
      if head != null && id != 0 {
        var stl, i := FindElement(id);
        if stl != null {
          stl.accepted := now;
          Contents := Contents[i := ValueOf(stl)];
          forall k | 0 <= k <= |nodes| ensures Edge(nodes, k) {
            assert old(Edge(nodes, k));
          }
          return true;
        }
      }
    }

    /** The search loop of transaction_reg_accept and transaction_remove. */
    method FindElement(id: uint16) returns (stl: Element?, ghost i: nat)
      requires Valid()
      ensures i == Find(Contents, id) && stl == At(nodes, i)
    {
      stl, i := head, 0;
      assert Contents[0..] == Contents;
      while stl != null && stl.transId != id
        invariant 0 <= i <= |nodes| && stl == At(nodes, i)
        invariant Find(Contents, id) == i + Find(Contents[i..], id)
        decreases |nodes| - i
      {
        assert Edge(nodes, i + 1);
        assert Contents[i..][1..] == Contents[i + 1..];
        stl, i := stl.forward, i + 1;
      }
    }

    /** transaction_remove: the accept time of the transaction removed, -2 if there is none. */
    method Remove(id: uint16) returns (accepted: real)
      requires Valid()
      modifies this, nodes
      ensures Valid() && Contents == Removed(old(Contents), id)
      ensures var i := Find(old(Contents), id);
              accepted == if i < |old(Contents)| then old(Contents)[i].accepted else -2.0
    {
      var stl, i := FindElement(id);
      if stl == null {
        return -2.0;
      }
      accepted := stl.accepted;
      Unlink(stl, i);
    }

    /** transaction_destroy. */
    method Destroy()
      requires Valid()
      modifies this, nodes
      ensures Valid() && head == null && Contents == []
    {
      while head != null
        invariant Valid() && forall k | 0 <= k < |nodes| :: nodes[k] in old(nodes)
        decreases |nodes|
      {
        Unlink(head, 0);
      }
    }
  }

  /** i transactions of ts were looked at; the m that stay and the rest of ts make up c. */
  ghost predicate Scanned(ts: seq<Trans>, i: nat, c: seq<Trans>, m: nat, now: real) {
    i <= |ts| && m <= |c| && c[..m] == Young(ts[..i], now) && c[m..] == ts[i..]
  }

  lemma ScanStep(ts: seq<Trans>, i: nat, c: seq<Trans>, m: nat, now: real)
    requires Scanned(ts, i, c, m, now) && m < |c|
    ensures i < |ts| && ts[i] == c[m]
    ensures Old(ts[i], now) ==> Scanned(ts, i + 1, Without(c, m), m, now)
    ensures !Old(ts[i], now) ==> Scanned(ts, i + 1, c, m + 1, now)
  {
    assert |c[m..]| > 0;
    assert c[m] == c[m..][0] == ts[i..][0] == ts[i];
    assert ts[..i + 1] == ts[..i] + [ts[i]];
    YoungConcat(ts[..i], [ts[i]], now);
    assert Young([ts[i]], now) == if Old(ts[i], now) then [] else [ts[i]] by { assert [ts[i]][1..] == []; }
    assert c[m + 1..] == c[m..][1..] == ts[i..][1..] == ts[i + 1..];
  }

  lemma ScanEnd(ts: seq<Trans>, i: nat, c: seq<Trans>, m: nat, now: real)
    requires Scanned(ts, i, c, m, now) && m == |c|
    ensures c == Young(ts, now)
  {
    assert |ts[i..]| == 0;
    assert ts[..i] == ts && c[..m] == c;
  }
}
