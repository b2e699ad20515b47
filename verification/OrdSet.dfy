/** The sorted-array set of Lib/net_helper/nhx/ord_set.c: its specification on
    sequences, the laws that make it a finite map over the classes of the
    comparison, and the array implementation proved against it. */
module OrdSets {
  import opened Wrappers

  // ---- the comparison ----

  // The comparison is given by a key: cmp(x, y) has the sign of key(x) - key(y).
  // RankRepresents shows that every total preorder on finitely many elements is of this form.

  function Cmp<T>(key: T -> int, x: T, y: T): int {
    key(x) - key(y)
  }

  ghost predicate TotalPreorder<T>(cmp: (T, T) -> int, dom: set<T>) {
    && (forall x | x in dom :: cmp(x, x) == 0)
    && (forall x, y | x in dom && y in dom :: cmp(x, y) < 0 <==> cmp(y, x) > 0)
    && (forall x, y, z | x in dom && y in dom && z in dom && cmp(x, y) <= 0 && cmp(y, z) <= 0 ::
          cmp(x, z) <= 0)
  }

  ghost function Rank<T>(cmp: (T, T) -> int, dom: set<T>, x: T): int {
    |set y | y in dom && cmp(y, x) < 0|
  }

  /** Ranking by the number of smaller elements turns any total preorder into a key. */
  lemma RankRepresents<T>(cmp: (T, T) -> int, dom: set<T>, x: T, y: T)
    requires TotalPreorder(cmp, dom) && x in dom && y in dom
    ensures cmp(x, y) < 0 <==> Rank(cmp, dom, x) < Rank(cmp, dom, y)
    ensures cmp(x, y) == 0 <==> Rank(cmp, dom, x) == Rank(cmp, dom, y)
  {
    if cmp(x, y) < 0 {
      RankGrows(cmp, dom, x, y);
    } else if cmp(y, x) < 0 {
      RankGrows(cmp, dom, y, x);
    } else {
      var below := set z | z in dom && cmp(z, x) < 0;
      assert cmp(x, y) <= 0 && cmp(y, x) <= 0;
      forall z | z in dom ensures cmp(z, x) < 0 <==> cmp(z, y) < 0 {
        assert cmp(x, z) <= 0 ==> cmp(y, z) <= 0;
        assert cmp(y, z) <= 0 ==> cmp(x, z) <= 0;
      }
      assert below == set z | z in dom && cmp(z, y) < 0;
    }
  }

  lemma RankGrows<T>(cmp: (T, T) -> int, dom: set<T>, x: T, y: T)
    requires TotalPreorder(cmp, dom) && x in dom && y in dom && cmp(x, y) < 0
    ensures Rank(cmp, dom, x) < Rank(cmp, dom, y)
  {
    var a := set z | z in dom && cmp(z, x) < 0;
    var b := set z | z in dom && cmp(z, y) < 0;
    forall z | z in a ensures z in b {
      assert cmp(y, z) <= 0 ==> cmp(y, x) <= 0;
    }
    assert x in b && x !in a;
    SubsetSize(a, b - {x});
  }

  lemma {:induction false} SubsetSize<T>(a: set<T>, b: set<T>)
    requires a <= b
    ensures |a| <= |b|
  {
    if x :| x in a {
      SubsetSize(a - {x}, b - {x});
    }
  }

  // ---- the specification ----

  ghost predicate Sorted<T>(key: T -> int, s: seq<T>) {
    forall i, j | 0 <= i < j < |s| :: key(s[i]) < key(s[j])
  }

  /** i separates the elements below x from the others. */
  ghost predicate IsPos<T>(key: T -> int, s: seq<T>, x: T, i: int) {
    && 0 <= i <= |s|
    && (forall j | 0 <= j < i :: key(s[j]) < key(x))
    && (forall j | i <= j < |s| :: key(s[j]) >= key(x))
  }

  /** The number of leading elements below x. */
  ghost function Pos<T>(key: T -> int, s: seq<T>, x: T): (i: nat)
    ensures i <= |s|
    ensures forall j | 0 <= j < i :: key(s[j]) < key(x)
    ensures i < |s| ==> key(s[i]) >= key(x)
  {
    if s != [] && key(s[0]) < key(x) then 1 + Pos(key, s[1..], x) else 0
  }

  /** The element equivalent to x, by linear search. */
  ghost function Lookup<T>(key: T -> int, s: seq<T>, x: T): Option<T> {
    if s == [] then None
    else if key(s[0]) == key(x) then Some(s[0])
    else Lookup(key, s[1..], x)
  }

  ghost predicate Hit<T>(key: T -> int, s: seq<T>, x: T) {
    var i := Pos(key, s, x);
    i < |s| && key(s[i]) == key(x)
  }

  ghost function Inserted<T>(key: T -> int, s: seq<T>, x: T, override: bool): seq<T> {
    var i := Pos(key, s, x);
    if !Hit(key, s, x) then s[..i] + [x] + s[i..]
    else if override then s[i := x]
    else s
  }

  ghost function Removed<T>(key: T -> int, s: seq<T>, x: T): seq<T> {
    if s == [] then []
    else if key(s[0]) == key(x) then Removed(key, s[1..], x)
    else [s[0]] + Removed(key, s[1..], x)
  }

  // ---- the specification is a finite map with a canonical form ----

  /** There is exactly one insertion point. */
  lemma PosUnique<T>(key: T -> int, s: seq<T>, x: T, i: int)
    requires Sorted(key, s)
    ensures IsPos(key, s, x, i) <==> i == Pos(key, s, x)
  {
    var p := Pos(key, s, x);
    assert IsPos(key, s, x, p);
    var m := if i < p then i else p;
    assert 0 <= m < |s| ==> key(s[m]) < key(x) || key(s[m]) >= key(x);
  }

  /** Lookup returns the first equivalent element, wherever it is. */
  lemma {:induction false} LookupAt<T>(key: T -> int, s: seq<T>, x: T, k: int)
    requires 0 <= k <= |s|
    requires forall j | 0 <= j < k :: key(s[j]) != key(x)
    requires k < |s| ==> key(s[k]) == key(x)
    ensures Lookup(key, s, x) == if k < |s| then Some(s[k]) else None
  {
    if k > 0 {
      LookupAt(key, s[1..], x, k - 1);
    }
  }

  /** In a sorted array at most one element is equivalent to x, and it sits at the insertion point. */
  lemma LookupAtPos<T>(key: T -> int, s: seq<T>, x: T)
    requires Sorted(key, s)
    ensures Lookup(key, s, x) == if Hit(key, s, x) then Some(s[Pos(key, s, x)]) else None
    ensures forall j | 0 <= j < |s| && j != Pos(key, s, x) :: key(s[j]) != key(x)
  {
    LookupAt(key, s, x, if Hit(key, s, x) then Pos(key, s, x) else |s|);
  }

  /** Any equivalent element of a sorted array is the one Lookup finds. */
  lemma LookupUnique<T>(key: T -> int, s: seq<T>, y: T, k: int)
    requires Sorted(key, s) && 0 <= k < |s| && key(s[k]) == key(y)
    ensures Lookup(key, s, y) == Some(s[k])
  {
    LookupAtPos(key, s, y);
  }

  lemma InsertedSorted<T>(key: T -> int, s: seq<T>, x: T, override: bool)
    requires Sorted(key, s)
    ensures Sorted(key, Inserted(key, s, x, override))
  {
    PosUnique(key, s, x, Pos(key, s, x));
    LookupAtPos(key, s, x);
  }

  /** Lookup after an insertion: the inserted class answers with the kept or overriding
      element, every other class answers as before. */
  lemma LookupInserted<T>(key: T -> int, s: seq<T>, x: T, override: bool, y: T)
    requires Sorted(key, s)
    ensures Lookup(key, Inserted(key, s, x, override), y) ==
            if key(x) != key(y) then Lookup(key, s, y)
            else if override || Lookup(key, s, x) == None then Some(x)
            else Lookup(key, s, x)
  {
    InsertedSorted(key, s, x, override);
    if key(x) == key(y) {
      LookupAtPos(key, s, x);
      LookupUnique(key, Inserted(key, s, x, override), y, Pos(key, s, x));
    } else {
      LookupOther(key, s, x, override, y);
    }
  }

  lemma LookupOther<T>(key: T -> int, s: seq<T>, x: T, override: bool, y: T)
    requires Sorted(key, s) && Sorted(key, Inserted(key, s, x, override)) && key(x) != key(y)
    ensures Lookup(key, Inserted(key, s, x, override), y) == Lookup(key, s, y)
  {
    var i := Pos(key, s, x);
    if !Hit(key, s, x) {
      LookupSkip(key, s[..i], s[i..], x, y);
      assert s[..i] + s[i..] == s;
    } else if override {
      LookupSwap(key, s, x, i, y);
    }
  }

  /** Another element of another class in place i makes no difference for y. */
  lemma {:induction false} LookupSwap<T>(key: T -> int, s: seq<T>, x: T, i: nat, y: T)
    requires i < |s| && key(s[i]) == key(x) != key(y)
    ensures Lookup(key, s[i := x], y) == Lookup(key, s, y)
  {
    if i > 0 {
      assert s[i := x][1..] == s[1..][i - 1 := x];
      LookupSwap(key, s[1..], x, i - 1, y);
    } else {
      assert s[0 := x][1..] == s[1..];
    }
  }

  /** Nor does one more. */
  lemma {:induction false} LookupSkip<T>(key: T -> int, s: seq<T>, t: seq<T>, x: T, y: T)
    requires key(x) != key(y)
    ensures Lookup(key, s + [x] + t, y) == Lookup(key, s + t, y)
  {
    if s == [] {
      assert ([] + [x] + t)[1..] == t && [] + t == t;
    } else {
      assert (s + [x] + t)[1..] == s[1..] + [x] + t && (s + t)[1..] == s[1..] + t;
      LookupSkip(key, s[1..], t, x, y);
    }
  }

  /** Removing a class is the one-place shift the code performs at the insertion point. */
  lemma RemovedAtPos<T>(key: T -> int, s: seq<T>, x: T)
    requires Sorted(key, s)
    ensures var i := Pos(key, s, x);
            Removed(key, s, x) == if Hit(key, s, x) then s[..i] + s[i + 1..] else s
  {
    LookupAtPos(key, s, x);
    if Hit(key, s, x) {
      RemovedOne(key, s, x, Pos(key, s, x));
    } else {
      RemovedKeeps(key, s, x);
    }
  }

  lemma RemovedOne<T>(key: T -> int, s: seq<T>, x: T, i: nat)
    requires i < |s| && key(s[i]) == key(x)
    requires forall j | 0 <= j < |s| && j != i :: key(s[j]) != key(x)
    ensures Removed(key, s, x) == s[..i] + s[i + 1..]
  {
    RemovedKeeps(key, s[i + 1..], x);
    assert s[i..][1..] == s[i + 1..];
    RemovedSkips(key, s[..i], s[i..], x);
    assert s == s[..i] + s[i..];
  }

  lemma RemovedKeeps<T>(key: T -> int, s: seq<T>, x: T)
    requires forall j | 0 <= j < |s| :: key(s[j]) != key(x)
    ensures Removed(key, s, x) == s
  {
    RemovedSkips(key, s, [], x);
    assert s == s + [];
  }

  lemma {:induction false} RemovedSkips<T>(key: T -> int, s: seq<T>, t: seq<T>, x: T)
    requires forall j | 0 <= j < |s| :: key(s[j]) != key(x)
    ensures Removed(key, s + t, x) == s + Removed(key, t, x)
  {
    if s == [] {
      assert s + t == t;
    } else {
      RemovedSkips(key, s[1..], t, x);
      assert (s + t)[1..] == s[1..] + t;
      var r := Removed(key, t, x);
      assert s + r == [s[0]] + (s[1..] + r);
    }
  }

  lemma RemovedSorted<T>(key: T -> int, s: seq<T>, x: T)
    requires Sorted(key, s)
    ensures Sorted(key, Removed(key, s, x))
  {
    RemovedAtPos(key, s, x);
  }

  /** Removal forgets exactly the class of x. */
  lemma {:induction false} LookupRemoved<T>(key: T -> int, s: seq<T>, x: T, y: T)
    ensures Lookup(key, Removed(key, s, x), y) ==
            if key(x) == key(y) then None else Lookup(key, s, y)
  {
    if s != [] {
      LookupRemoved(key, s[1..], x, y);
      var r := Removed(key, s[1..], x);
      assert ([s[0]] + r)[1..] == r;
    }
  }

  /** The array is determined by the map it stores: equal answers mean equal arrays. */
  lemma {:induction false} Canonical<T>(key: T -> int, s: seq<T>, t: seq<T>)
    requires Sorted(key, s) && Sorted(key, t)
    requires forall y | y in s + t :: Lookup(key, s, y) == Lookup(key, t, y)
    ensures s == t
  {
    if s != [] {
      SameHead(key, s, t);
      var s', t' := s[1..], t[1..];
      forall y | y in s' + t' ensures Lookup(key, s', y) == Lookup(key, t', y) {
        assert y in s + t;
        assert key(y) > key(s[0]);
      }
      Canonical(key, s', t');
      assert s == [s[0]] + s' && t == [t[0]] + t';
    } else if t != [] {
      SameHead(key, t, s);
    }
  }

  lemma SameHead<T>(key: T -> int, s: seq<T>, t: seq<T>)
    requires s != [] && Sorted(key, s) && Sorted(key, t)
    requires forall y | y in s + t :: Lookup(key, s, y) == Lookup(key, t, y)
    ensures t != [] && s[0] == t[0]
  {
    assert s[0] in s + t;
    LookupAt(key, s, s[0], 0);
    var j := LookupIn(key, t, s[0]);
    assert t[0] in s + t;
    LookupAt(key, t, t[0], 0);
    var k := LookupIn(key, s, t[0]);
    assert key(t[0]) <= key(s[0]) <= key(t[0]);
  }

  lemma {:induction false} LookupIn<T>(key: T -> int, t: seq<T>, y: T) returns (j: nat)
    requires Lookup(key, t, y).Some?
    ensures j < |t| && Lookup(key, t, y) == Some(t[j]) && key(t[j]) == key(y)
  {
    if key(t[0]) == key(y) {
      j := 0;
    } else {
      j := LookupIn(key, t[1..], y);
      j := j + 1;
    }
  }

  lemma InsertedMembers<T>(key: T -> int, s: seq<T>, x: T)
    requires Lookup(key, s, x) == None && Sorted(key, s)
    ensures forall y | y in Inserted(key, s, x, false) :: y in s || y == x
    ensures forall y | y in s || y == x :: y in Inserted(key, s, x, false)
  {
    LookupAtPos(key, s, x);
    assert s == s[..Pos(key, s, x)] + s[Pos(key, s, x)..];
  }

  lemma {:induction false} LookupNone<T>(key: T -> int, s: seq<T>, y: T)
    requires Lookup(key, s, y) == None
    ensures forall k | 0 <= k < |s| :: key(s[k]) != key(y)
  {
    if s != [] {
      LookupNone(key, s[1..], y);
    }
  }

  /** The elements left by a removal are those outside the class of x. */
  lemma {:induction false} RemovedMembers<T>(key: T -> int, s: seq<T>, x: T)
    ensures forall y | y in Removed(key, s, x) :: y in s && key(y) != key(x)
    ensures forall y | y in s && key(y) != key(x) :: y in Removed(key, s, x)
  {
    if s != [] {
      RemovedMembers(key, s[1..], x);
      assert forall y | y in s :: y == s[0] || y in s[1..];
    }
  }

  /** Removing the last element of a sorted array shortens it by one. */
  lemma RemovedLast<T>(key: T -> int, s: seq<T>)
    requires s != [] && Sorted(key, s)
    ensures Removed(key, s, s[|s| - 1]) == s[..|s| - 1]
  {
    var x := s[|s| - 1];
    RemovedAtPos(key, s, x);
    LookupAtPos(key, s, x);
  }

  // ---- what the array operations use: everything in terms of the insertion point ----

  /** Place i is the insertion point of x, and holds an equivalent element. */
  ghost predicate At<T>(key: T -> int, s: seq<T>, x: T, i: int) {
    0 <= i < |s| && key(s[i]) == key(x)
  }

  lemma LookupIs<T>(key: T -> int, s: seq<T>, x: T, i: int)
    requires Sorted(key, s) && IsPos(key, s, x, i)
    ensures Lookup(key, s, x) == if At(key, s, x, i) then Some(s[i]) else None
  {
    PosUnique(key, s, x, i);
    LookupAtPos(key, s, x);
  }

  lemma RemovedIs<T>(key: T -> int, s: seq<T>, x: T, i: int)
    requires Sorted(key, s) && IsPos(key, s, x, i)
    ensures Removed(key, s, x) == if At(key, s, x, i) then s[..i] + s[i + 1..] else s
    ensures Sorted(key, Removed(key, s, x))
  {
    PosUnique(key, s, x, i);
    RemovedAtPos(key, s, x);
    RemovedSorted(key, s, x);
  }

  lemma InsertedIs<T>(key: T -> int, s: seq<T>, x: T, override: bool, i: int)
    requires Sorted(key, s) && IsPos(key, s, x, i)
    ensures Inserted(key, s, x, override) ==
            if !At(key, s, x, i) then s[..i] + [x] + s[i..] else if override then s[i := x] else s
    ensures Sorted(key, Inserted(key, s, x, override))
  {
    PosUnique(key, s, x, i);
    InsertedSorted(key, s, x, override);
  }

  /** The tail one place up, x in the gap. */
  lemma ShiftedUp<T>(s: seq<T>, i: nat, x: T, t: seq<T>)
    requires i <= |s| && |t| == |s| + 1 && t[i] == x
    requires forall k | 0 <= k < i :: t[k] == s[k]
    requires forall k | i < k <= |s| :: t[k] == s[k - 1]
    ensures t == s[..i] + [x] + s[i..]
  {
  }

  /** The tail one place down, over place i. */
  lemma ShiftedDown<T>(s: seq<T>, i: nat, t: seq<T>)
    requires i < |s| && |t| == |s| - 1
    requires forall k | 0 <= k < i :: t[k] == s[k]
    requires forall k | i <= k < |t| :: t[k] == s[k + 1]
    ensures t == s[..i] + s[i + 1..]
  {
  }

  // ---- the binary search, for any total preorder ----

  ghost function Elements<T>(s: seq<T>, x: T): set<T> {
    (set j | 0 <= j < |s| :: s[j]) + {x}
  }

  ghost predicate SortedBy<T>(cmp: (T, T) -> int, s: seq<T>) {
    forall i, j | 0 <= i < j < |s| :: cmp(s[i], s[j]) < 0
  }

  /** i separates the elements below x from the others. */
  ghost predicate IsPosBy<T>(cmp: (T, T) -> int, s: seq<T>, x: T, i: int) {
    && 0 <= i <= |s|
    && (forall j | 0 <= j < i :: cmp(x, s[j]) > 0)
    && (forall j | i <= j < |s| :: cmp(x, s[j]) <= 0)
  }

  /** What is below an element below x is below x; what is above one not below x is not. */
  lemma Transits<T>(cmp: (T, T) -> int, s: seq<T>, x: T, i: nat)
    requires TotalPreorder(cmp, Elements(s, x)) && SortedBy(cmp, s) && i < |s|
    ensures cmp(x, s[i]) > 0 ==> forall j | 0 <= j <= i :: cmp(x, s[j]) > 0
    ensures cmp(x, s[i]) <= 0 ==> forall j | i <= j < |s| :: cmp(x, s[j]) <= 0
    ensures cmp(x, s[i]) == 0 ==> forall j | 0 <= j < i :: cmp(x, s[j]) > 0
  {
    forall j | 0 <= j < i ensures cmp(x, s[i]) >= 0 ==> cmp(x, s[j]) > 0 {
      Chain(cmp, Elements(s, x), x, s[j], s[i]);
    }
    forall j | i < j < |s| ensures cmp(x, s[i]) <= 0 ==> cmp(x, s[j]) <= 0 {
      Chain(cmp, Elements(s, x), x, s[i], s[j]);
    }
  }

  lemma Chain<T>(cmp: (T, T) -> int, dom: set<T>, x: T, y: T, z: T)
    requires TotalPreorder(cmp, dom) && x in dom && y in dom && z in dom && cmp(y, z) < 0
    ensures cmp(x, z) >= 0 ==> cmp(x, y) > 0
    ensures cmp(x, y) <= 0 ==> cmp(x, z) <= 0
  {
    assert cmp(z, x) <= 0 && cmp(x, y) <= 0 ==> cmp(z, y) <= 0;
  }

  /** ord_set_check_pos on the first n elements; b may drop to a - 1, and is clamped at 0. */
  method CheckPosBy<T>(cmp: (T, T) -> int, elements: array<T>, n: nat, x: T) returns (i: nat)
    requires n <= elements.Length
    requires TotalPreorder(cmp, Elements(elements[..n], x)) && SortedBy(cmp, elements[..n])
    ensures IsPosBy(cmp, elements[..n], x, i)
  {
    ghost var s := elements[..n];
    i := 0;
    if n > 0 {
      var a, b := 0, n - 1;
      i := (b + a) / 2;
      while b > a
        invariant a <= n - 1 && 0 <= b < n && a <= b + 1
        invariant i == (b + a) / 2
        invariant forall j | 0 <= j < a :: cmp(x, s[j]) > 0
        invariant forall j | b < j < n :: cmp(x, s[j]) <= 0
        decreases b - a
      {
        Transits(cmp, s, x, i);
        if cmp(x, elements[i]) > 0 { a := i + 1; }
        if cmp(x, elements[i]) < 0 { b := if i > 0 then i - 1 else 0; }
        if cmp(x, elements[i]) == 0 { a, b := i, i; }
        i := (b + a) / 2;
      }
      Transits(cmp, s, x, i);
      if cmp(x, elements[i]) > 0 { i := i + 1; }
    }
  }

  /** The last of the first m elements. */
  function LastOf<T>(s: seq<T>, m: int): Option<T> {
    if 0 < m <= |s| then Some(s[m - 1]) else None
  }

  // ---- the array ----

  const ORD_SET_INC_SIZE := 10

  class OrdSet<T(0)> {
    var elements: array<T>
    var n: nat
    const key: T -> int

    /** Strictly sorted, and one slot always free. */
    ghost predicate Valid()
      reads this, elements
    {
      n < elements.Length && Sorted(key, Contents())
    }

    ghost function Contents(): seq<T>
      reads this, elements
      requires n <= elements.Length
    {
      elements[..n]
    }

    constructor (size: nat, key: T -> int)
      requires size > 0
      ensures Valid() && Contents() == [] && this.key == key && fresh(elements)
    {
      elements := new T[size];
      n := 0;
      this.key := key;
    }

    method CheckPos(x: T) returns (i: nat)
      requires Valid()
      ensures IsPos(key, Contents(), x, i)
    {
      i := CheckPosBy((y, z) => Cmp(key, y, z), elements, n, x);
    }

    method Find(x: T) returns (r: Option<T>)
      requires Valid()
      ensures r == Lookup(key, Contents(), x)
    {
      var i := CheckPos(x);
      LookupIs(key, Contents(), x, i);
      r := if i < n && Cmp(key, elements[i], x) == 0 then Some(elements[i]) else None;
    }

    method Remove(x: T) returns (missing: bool)
      requires Valid()
      modifies this`n, elements
      ensures Valid() && Contents() == Removed(key, old(Contents()), x)
      ensures missing <==> Lookup(key, old(Contents()), x) == None
    {
      var i := CheckPos(x);
      LookupIs(key, Contents(), x, i);
      RemovedIs(key, Contents(), x, i);
      missing := true;
      if i < n && Cmp(key, elements[i], x) == 0 {
        RemoveAt(i);
        missing := false;
      }
    }

    /** Shift the tail one place down over element i. */
    method RemoveAt(i: nat)
      requires i < n <= elements.Length
      modifies this`n, elements
      ensures n == old(n) - 1 && Contents() == old(Contents())[..i] + old(Contents())[i + 1..]
    {
      ghost var s := Contents();
      forall k | i <= k < n - 1 {
        elements[k] := elements[k + 1];
      }
      n := n - 1;
      ShiftedDown(s, i, Contents());
    }

    method Insert(x: T, override: bool) returns (r: T)
      requires Valid()
      modifies this`n, this`elements, elements
      ensures Valid() && Contents() == Inserted(key, old(Contents()), x, override)
      ensures elements == old(elements) || fresh(elements)
      ensures r == if override || Lookup(key, old(Contents()), x) == None then x
                   else Lookup(key, old(Contents()), x).value
    {
      var i := CheckPos(x);
      LookupIs(key, Contents(), x, i);
      InsertedIs(key, Contents(), x, override, i);
      if i >= n || Cmp(key, elements[i], x) != 0 {
        InsertAt(i, x);
      } else if override {
        elements[i] := x;
      }
      assert Contents()[i] == elements[i];
      r := elements[i];
    }

    /** Shift the tail one place up and put x in the gap. */
    method InsertAt(i: nat, x: T)
      requires i <= n < elements.Length
      modifies this`n, this`elements, elements
      ensures n < elements.Length && (elements == old(elements) || fresh(elements))
      ensures Contents() == old(Contents())[..i] + [x] + old(Contents())[i..]
    {
      if n + 1 >= elements.Length {
        Grow();
      }
      PutAt(i, x);
    }

    method PutAt(i: nat, x: T)
      requires i <= n && n + 1 < elements.Length
      modifies this`n, elements
      ensures n == old(n) + 1 && Contents() == old(Contents())[..i] + [x] + old(Contents())[i..]
    {
      ghost var s := Contents();
      forall k | i < k < n + 1 {
        elements[k] := elements[k - 1];
      }
      elements[i] := x;
      n := n + 1;
      ShiftedUp(s, i, x, Contents());
    }

    /** realloc: a longer array with the same first elements. */
    method Grow()
      requires n <= elements.Length
      modifies this`elements
      ensures fresh(elements) && elements.Length == old(elements.Length) + ORD_SET_INC_SIZE
      ensures Contents() == old(Contents())
    {
      var bigger := new T[elements.Length + ORD_SET_INC_SIZE];
      forall k | 0 <= k < n {
        bigger[k] := elements[k];
      }
      elements := bigger;
    }

    /** One step of the removal-safe iteration, from the last element downwards. */
    method IterSafe(iter: Option<T>, tmp: Option<T>) returns (iter': Option<T>, tmp': Option<T>)
      requires Valid()
      requires iter.Some? && tmp.Some? ==> tmp.value in Contents()
      ensures iter == None ==>
                && iter' == (if n > 0 then Some(Contents()[n - 1]) else None)
                && tmp' == (if n > 1 then Some(Contents()[n - 2]) else None)
      ensures iter.Some? ==> iter' == tmp
      ensures iter.Some? && tmp == None ==> tmp' == None
      ensures iter.Some? && tmp.Some? ==>
                tmp' == LastOf(Contents(), Pos(key, Contents(), tmp.value))
    {
      iter', tmp' := iter, tmp;
      if iter.Some? {
        iter' := tmp;
        if tmp.Some? {
          var i := CheckPos(tmp.value);
          PosUnique(key, Contents(), tmp.value, i);
          LookupAtPos(key, Contents(), tmp.value);
          tmp' := if i > 0 then Some(elements[i - 1]) else None;
        }
      } else {
        iter' := if n > 0 then Some(elements[n - 1]) else None;
        tmp' := if n > 1 then Some(elements[n - 2]) else None;
      }
    }

    /** The for_each_safe loop whose body removes the visited element. In round k the body
        leaves the iterator alone or sets it to NULL, as nulls(k) says: every pattern visits
        each element once, in descending order, and leaves the set empty. */
    method DrainSafely(nulls: nat -> bool) returns (visited: seq<T>)
      requires Valid()
      modifies this`n, elements
      ensures Valid() && Contents() == [] && |visited| == |old(Contents())|
      ensures forall k | 0 <= k < |visited| :: visited[k] == old(Contents())[|visited| - 1 - k]
    {
      ghost var s := Contents();
      visited := [];
      var iter, tmp := IterSafe(None, None);
      while iter.Some?
        invariant Valid() && n <= |s| && Contents() == s[..n] && elements == old(elements)
        invariant iter == LastOf(s, n) && tmp == LastOf(s, n - 1)
        invariant |visited| == |s| - n
        invariant forall k | 0 <= k < |visited| :: visited[k] == s[|s| - 1 - k]
        decreases n
      {
        RemoveLast(s, iter.value);
        visited := visited + [iter.value];
        if nulls(|visited| - 1) {
          iter := None;
        }
        iter, tmp := IterAgain(s, iter, tmp);
      }
    }

    /** The loop body's removal of the visited element. */
    method RemoveLast(ghost s: seq<T>, x: T)
      requires Valid() && n <= |s| && Contents() == s[..n] && LastOf(s, n) == Some(x)
      modifies this`n, elements
      ensures Valid() && n == old(n) - 1 && Contents() == s[..n]
    {
      RemovedLast(key, Contents());
      var missing := Remove(x);
    }

    /** The step after a removal, whether or not the body kept the iterator. */
    method IterAgain(ghost s: seq<T>, iter: Option<T>, tmp: Option<T>) returns (iter': Option<T>, tmp': Option<T>)
      requires Valid() && n <= |s| && Contents() == s[..n] && tmp == LastOf(s, n)
      ensures iter' == LastOf(s, n) && tmp' == LastOf(s, n - 1)
    {
      if n > 0 {
        PosUnique(key, s[..n], s[n - 1], n - 1);
      }
      iter', tmp' := IterSafe(iter, tmp);
    }
  }
}
