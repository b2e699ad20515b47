/** The outgoing queue of Lib/net_helper/nhx/network_manager.c: an intrusive list that shares its
    links with the fragments of the live outgoing packets. */
module OutQueues {
  import opened IntrusiveLists

  ghost function MinusAll(s: seq<ListHead>, gone: set<ListHead>): seq<ListHead> {
    if s == [] then []
    else (if s[0] in gone then [] else [s[0]]) + MinusAll(s[1..], gone)
  }

  /** The elements that are requests. */
  ghost function RequestsOf(s: seq<ListHead>): seq<ListHead> {
    if s == [] then []
    else (if s[0].owner.Request? then [s[0]] else []) + RequestsOf(s[1..])
  }

  ghost function Members(s: seq<ListHead>): set<ListHead> {
    set l | l in s
  }

  ghost function FragmentsOf(s: seq<ListHead>): set<ListHead> {
    set l | l in s && l.owner.Fragment?
  }

  ghost predicate Owners(s: seq<ListHead>, msgs: seq<Owner>) {
    |s| == |msgs| && forall i | 0 <= i < |s| :: s[i].owner == msgs[i]
  }

  lemma {:induction false} MinusAllMembers(s: seq<ListHead>, gone: set<ListHead>)
    ensures forall l | l in MinusAll(s, gone) :: l in s && l !in gone
    ensures forall l | l in s && l !in gone :: l in MinusAll(s, gone)
  {
    if s != [] {
      MinusAllMembers(s[1..], gone);
      assert forall l | l in s :: l == s[0] || l in s[1..];
    }
  }

  lemma {:induction false} MinusMembers(s: seq<ListHead>, x: ListHead)
    ensures forall l | l in Minus(s, x) :: l in s && l != x
    ensures forall l | l in s && l != x :: l in Minus(s, x)
  {
    if s != [] {
      MinusMembers(s[1..], x);
      assert forall l | l in s :: l == s[0] || l in s[1..];
    }
  }

  lemma {:induction false} MinusAllNone(s: seq<ListHead>)
    ensures MinusAll(s, {}) == s
  {
    if s != [] {
      MinusAllNone(s[1..]);
    }
  }

  lemma {:induction false} MinusAllStep(s: seq<ListHead>, gone: set<ListHead>, x: ListHead)
    ensures Minus(MinusAll(s, gone), x) == MinusAll(s, gone + {x})
  {
    if s != [] {
      MinusAllStep(s[1..], gone, x);
      var rest := MinusAll(s[1..], gone);
      if s[0] in gone {
        assert MinusAll(s, gone) == rest;
      } else {
        assert MinusAll(s, gone)[1..] == rest;
      }
    }
  }

  lemma UnlinkStep(q: seq<ListHead>, links: seq<ListHead>, i: nat)
    requires i < |links|
    ensures Members(links[..i + 1]) == Members(links[..i]) + {links[i]}
    ensures Minus(MinusAll(q, Members(links[..i])), links[i]) == MinusAll(q, Members(links[..i + 1]))
    ensures var r := MinusAll(q, Members(links[..i + 1])); forall k | 0 <= k < |r| :: r[k] in q
  {
    assert links[..i + 1] == links[..i] + [links[i]];
    MinusAllStep(q, Members(links[..i]), links[i]);
    MinusAllMembers(q, Members(links[..i + 1]));
  }

  lemma {:induction false} MinusAllTwice(s: seq<ListHead>, a: set<ListHead>, b: set<ListHead>)
    ensures MinusAll(MinusAll(s, a), b) == MinusAll(s, a + b)
  {
    if s != [] {
      MinusAllTwice(s[1..], a, b);
      var rest := MinusAll(s[1..], a);
      if s[0] in a {
        assert MinusAll(s, a) == rest;
      } else {
        assert MinusAll(s, a)[1..] == rest;
      }
    }
  }

  /** The order of what stays is kept. */
  lemma {:induction false} MinusAllConcat(a: seq<ListHead>, b: seq<ListHead>, gone: set<ListHead>)
    ensures MinusAll(a + b, gone) == MinusAll(a, gone) + MinusAll(b, gone)
  {
    if a == [] {
      assert a + b == b;
    } else {
      assert (a + b)[1..] == a[1..] + b;
      MinusAllConcat(a[1..], b, gone);
      Reassociate(if a[0] in gone then [] else [a[0]], MinusAll(a[1..], gone), MinusAll(b, gone));
    }
  }

  lemma Reassociate(x: seq<ListHead>, y: seq<ListHead>, z: seq<ListHead>)
    ensures x + (y + z) == x + y + z
  {
  }

  /** The requests, in their order. */
  lemma {:induction false} RequestsOfConcat(a: seq<ListHead>, b: seq<ListHead>)
    ensures RequestsOf(a + b) == RequestsOf(a) + RequestsOf(b)
  {
    if a == [] {
      assert a + b == b;
    } else {
      assert (a + b)[1..] == a[1..] + b;
      RequestsOfConcat(a[1..], b);
      Reassociate(if a[0].owner.Request? then [a[0]] else [], RequestsOf(a[1..]), RequestsOf(b));
    }
  }

  lemma {:induction false} RequestsOfMembers(a: seq<ListHead>)
    ensures forall l :: l in RequestsOf(a) <==> l in a && l.owner.Request?
  {
    if a != [] {
      RequestsOfMembers(a[1..]);
      assert forall l :: l in a <==> l == a[0] || l in a[1..];
    }
  }

  /** When the links gone are exactly the queued fragments, the requests remain, in order. */
  lemma {:induction false} MinusFragments(s: seq<ListHead>, gone: set<ListHead>)
    requires forall l | l in s :: l.owner.Request? <==> l !in gone
    ensures MinusAll(s, gone) == RequestsOf(s)
  {
    if s != [] {
      MinusFragments(s[1..], gone);
      assert s[0] in s;
    }
  }

  class OutQueue {
    const head: ListHead
    /** What is on the list, in order. */
    ghost var queue: seq<ListHead>
    /** The links of the fragments of live outgoing packets. */
    ghost var live: set<ListHead>

    /** A well-formed ring without repeats; whatever is queued is a request or belongs to a live
        packet; the link of a live fragment is null exactly when the fragment is not queued. */
    ghost predicate Valid()
      reads this, head, queue, live
    {
      && IsRing(head, queue)
      && head !in live
      && (forall l | l in queue :: l in live || l.owner.Request?)
      && (forall l | l in live :: l.owner.Fragment? && (l in queue || Off(l)))
    }

    static ghost predicate Off(l: ListHead)
      reads l
    {
      l.next == null && l.prev == null
    }

    /** The link of a live fragment is non-null exactly when the fragment is queued. */
    lemma LinkedExactly(l: ListHead)
      requires Valid() && l in live
      ensures l.next != null <==> l in queue
      ensures l.prev != null <==> l in queue
    {
      if l in queue {
        var i :| 0 <= i < |queue| && queue[i] == l;
        assert Edge(head, queue, i) && Edge(head, queue, i + 1);
      }
    }

    constructor ()
      ensures Valid() && queue == [] && live == {} && fresh(head)
    {
      head := new ListHead(ListItself);
      queue, live := [], {};
      new;
      InitListHead(head);
    }

    /** Create messages on a private list, in order, and splice it to the front of the queue. */
    method SpliceNew(msgs: seq<Owner>) returns (links: seq<ListHead>)
      requires Valid()
      requires forall m | m in msgs :: m.Fragment? || m.Request?
      modifies this, head, queue
      ensures Valid() && Owners(links, msgs) && forall k | 0 <= k < |links| :: fresh(links[k])
      ensures queue == links + old(queue)
      ensures live == old(live) + FragmentsOf(links)
    {
      links := [];
      var list := new ListHead(ListItself);
      InitListHead(list);
      for i := 0 to |msgs|
        invariant Owners(links, msgs[..i]) && IsRing(list, links)
        invariant fresh(list) && forall k | 0 <= k < |links| :: fresh(links[k])
        invariant Valid() && queue == old(queue) && live == old(live)
      {
        var node := new ListHead(msgs[i]);
        ListAddTail(node, list, links);
        links := links + [node];
      }
      ListSplice(list, head, links, queue);
      queue := links + queue;
      live := live + FragmentsOf(links);
    }

    /** net_msg_deinit of a live fragment, queued or not. */
    method Unlink(l: ListHead)
      requires Valid() && l in live
      modifies this, head, queue, l
      ensures Valid() && queue == Minus(old(queue), l) && live == old(live) - {l}
      ensures Off(l)
    {
      MinusMembers(queue, l);
      ListDel(l, head, queue);
      queue, live := Minus(queue, l), live - {l};
    }

    /** fragmented_packet_destroy: unlink every fragment of a packet. */
    method UnlinkAll(links: seq<ListHead>)
      requires Valid() && Distinct(links) && forall i | 0 <= i < |links| :: links[i] in live
      modifies this, head, queue, links
      ensures Valid()
      ensures queue == MinusAll(old(queue), Members(links)) && live == old(live) - Members(links)
    {
      MinusAllNone(queue);
      assert Members(links[..0]) == {};
      for i := 0 to |links|
        invariant Valid()
        invariant queue == MinusAll(old(queue), Members(links[..i])) && live == old(live) - Members(links[..i])
        invariant forall k | 0 <= k < |queue| :: queue[k] in old(queue)
        invariant forall k | i <= k < |links| :: links[k] in live
      {
        UnlinkStep(old(queue), links, i);
        Unlink(links[i]);
      }
      assert links[..|links|] == links;
    }

    /** network_manager_pop_outgoing_net_msg: take the first message; its link becomes null. */
    method Pop() returns (m: ListHead?)
      requires Valid()
      modifies this, head, queue
      ensures Valid() && live == old(live)
      ensures if old(queue) == [] then m == null && queue == []
              else m == old(queue)[0] && queue == old(queue)[1..] && Off(m)
    {
      m := ListPop(head, queue);
      if m != null {
        assert queue == [queue[0]] + queue[1..];
        queue := queue[1..];
      }
    }

    /** network_manager_enqueue_outgoing_fragment on a fragment found: append it unless it is queued. */
    method Requeue(l: ListHead) returns (res: int)
      requires Valid() && l in live
      modifies this, head, queue, l
      ensures Valid() && live == old(live)
      ensures res == if l in old(queue) then 1 else 0
      ensures queue == if l in old(queue) then old(queue) else old(queue) + [l]
    {
      LinkedExactly(l);
      if l.next == null {
        ListAddTail(l, head, queue);
        queue := queue + [l];
        res := 0;
      } else {
        res := 1;
      }
    }

    /** The second loop of network_manager_destroy. It casts every message to a request, which is
        right because no fragment is live any more. */
    method DestroyRequests()
      requires Valid() && live == {}
      modifies this, head, queue
      ensures Valid() && queue == [] && live == {}
    {
      assert Edge(head, queue, 0);
      var pos := head.next;
      while pos != head
        invariant Valid() && live == {} && pos != null
        invariant pos == Element(head, queue, 0)
        invariant forall k | 0 <= k < |queue| :: queue[k] in old(queue)
        decreases |queue|
      {
        assert pos == queue[0];
        assert pos.owner.Request?;
        assert Edge(head, queue, 1);
        var next := pos.next;
        MinusAt(queue, queue[0], 0);
        assert Minus(queue, queue[0]) == queue[1..];
        ListDel(pos, head, queue);
        queue := queue[1..];
        pos := next;
      }
    }
  }
}
