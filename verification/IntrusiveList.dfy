/** The intrusive circular list of Lib/net_helper/nhx/list.h, on the heap. Each link belongs to
    a message (list_entry); a list is a ring of links through a head. */
module IntrusiveLists {
  import opened Bytes

  /** A peer, by its address and port. */
  datatype NodeId = NodeId(key: int)

  /** The structure a link is embedded in. */
  datatype Owner =
    | ListItself
    | Fragment(to: NodeId, pid: uint16, fid: nat, data: bytes)
    | Request(to: NodeId, pid: uint16, fid: nat)

  class ListHead {
    var next: ListHead?
    var prev: ListHead?
    const owner: Owner

    /** memset(list, 0): a link that is on no list. */
    constructor (owner: Owner)
      ensures next == null && prev == null && this.owner == owner
    {
      next, prev := null, null;
      this.owner := owner;
    }
  }

  /** Element i of the ring; positions -1 and |s| are the head. */
  ghost function Element(head: ListHead, s: seq<ListHead>, i: int): ListHead {
    if 0 <= i < |s| then s[i] else head
  }

  /** The i-th edge of the ring, checked in both directions. */
  ghost predicate Edge(head: ListHead, s: seq<ListHead>, i: int)
    reads head, s
  {
    Element(head, s, i - 1).next == Element(head, s, i) && Element(head, s, i).prev == Element(head, s, i - 1)
  }

  ghost predicate Distinct(s: seq<ListHead>) {
    forall i, j | 0 <= i < j < |s| :: s[i] != s[j]
  }

  /** The list at head holds exactly s, in this order. */
  ghost predicate IsRing(head: ListHead, s: seq<ListHead>)
    reads head, s
  {
    head !in s && Distinct(s) && forall i | 0 <= i <= |s| :: Edge(head, s, i)
  }

  ghost function Minus(s: seq<ListHead>, x: ListHead): seq<ListHead> {
    if s == [] then []
    else (if s[0] == x then [] else [s[0]]) + Minus(s[1..], x)
  }

  lemma {:induction false} MinusNone(s: seq<ListHead>, x: ListHead)
    requires x !in s
    ensures Minus(s, x) == s
  {
    if s != [] {
      MinusNone(s[1..], x);
    }
  }

  lemma {:induction false} MinusAt(s: seq<ListHead>, x: ListHead, k: nat)
    requires Distinct(s) && k < |s| && s[k] == x
    ensures Minus(s, x) == s[..k] + s[k + 1..]
  {
    if k > 0 {
      assert s[0] != s[k];
      MinusAt(s[1..], x, k - 1);
    } else {
      MinusNone(s[1..], x);
    }
  }

  method InitListHead(head: ListHead)
    modifies head
    ensures IsRing(head, [])
  {
    head.next := head;
    head.prev := head;
    assert Edge(head, [], 0);
  }

  method ListAddTail(node: ListHead, head: ListHead, ghost s: seq<ListHead>)
    requires IsRing(head, s) && node != head && node !in s
    modifies node, head, s
    ensures IsRing(head, s + [node])
  {
    ghost var t := s + [node];
    assert Edge(head, s, |s|);
    var last := head.prev;
    head.prev := node;
    node.next := head;
    node.prev := last;
    last.next := node;
    forall i | 0 <= i <= |t| ensures Edge(head, t, i) {
      assert i < |s| ==> old(Edge(head, s, i));
    }
  }

  /** Leaving out element k leaves its neighbours side by side. */
  lemma MinusElements(head: ListHead, s: seq<ListHead>, k: int)
    requires Distinct(s) && 0 <= k < |s|
    ensures |Minus(s, s[k])| == |s| - 1
    ensures forall i | -1 <= i < |s| ::
              Element(head, Minus(s, s[k]), i) == Element(head, s, if i < k then i else i + 1)
    ensures Distinct(Minus(s, s[k])) && forall x | x in Minus(s, s[k]) :: x in s
  {
    MinusAt(s, s[k], k);
  }

  /** list_del of an element of the list, or of a link that is on no list. */
  method ListDel(entry: ListHead, ghost head: ListHead, ghost s: seq<ListHead>)
    requires IsRing(head, s) && entry != head
    requires entry in s || (entry.next == null && entry.prev == null)
    modifies entry, head, s
    ensures IsRing(head, Minus(s, entry)) && entry.next == null && entry.prev == null
  {
    ghost var k := -1;
    if entry in s {
      k :| 0 <= k < |s| && s[k] == entry;
    }
    assert entry in s ==> Edge(head, s, k) && Edge(head, s, k + 1);
    if entry.prev != null && entry.next != null {
      entry.next.prev := entry.prev;
      entry.prev.next := entry.next;
    }
    entry.next := null;
    entry.prev := null;
    if entry in s {
      MinusElements(head, s, k);
      forall i | 0 <= i < |s| ensures Edge(head, Minus(s, entry), i) {
        assert old(Edge(head, s, if i < k then i else i + 1));
      }
    } else {
      MinusNone(s, entry);
      forall i | 0 <= i <= |s| ensures Edge(head, s, i) {
        assert old(Edge(head, s, i));
      }
    }
  }

  method ListPop(head: ListHead, ghost s: seq<ListHead>) returns (pos: ListHead?)
    requires IsRing(head, s)
    modifies head, s
    ensures if s == [] then pos == null && IsRing(head, [])
            else pos == s[0] && s[0].next == null && s[0].prev == null && IsRing(head, s[1..])
  {
    pos := null;
    assert Edge(head, s, 0);
    if head.next != head {
      pos := head.next;
      MinusAt(s, s[0], 0);
      assert Minus(s, s[0]) == s[1..];
      ListDel(pos, head, s);
    }
  }

  /** list_splice: the elements of list go to the front of the list at head. */
  method ListSplice(list: ListHead, head: ListHead, ghost s: seq<ListHead>, ghost t: seq<ListHead>)
    requires IsRing(list, s) && IsRing(head, t) && list != head
    requires list !in t && head !in s && forall x | x in s :: x !in t
    modifies head, s, t
    ensures IsRing(head, s + t)
  {
    assert Edge(list, s, 0) && Edge(list, s, |s|) && Edge(head, t, 0);
    if list.next == list {
      assert s + t == t;
    } else {
      var first, last, at := list.next, list.prev, head.next;
      first.prev := head;
      head.next := first;
      last.next := at;
      at.prev := last;
      ghost var r := s + t;
      assert forall i | 0 <= i < |s| :: s[i] in s;
      forall i | 0 <= i <= |r| ensures Edge(head, r, i) {
        assert 0 < i < |s| ==> old(Edge(list, s, i));
        assert |s| < i ==> old(Edge(head, t, i - |s|));
      }
    }
  }
}
