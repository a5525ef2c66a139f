/**
 * mfbt/LinkedList.h: an intrusive circular list. Every element is in exactly one ring; a list is the
 * ring its sentinel is in, and an element that is in no list is a ring of its own.
 */
module LinkedLists {
  import opened Orbits
  import opened ListSanity

  class LinkedListElement {
    var next: LinkedListElement
    var prev: LinkedListElement
    const isSentinel: bool

    constructor (isSentinel: bool)
      ensures next == this && prev == this && this.isSentinel == isSentinel
    {
      next, prev := this, this;
      this.isSentinel := isSentinel;
    }

    /** Whether another element shares the ring; the source asserts that both pointers agree on that. */
    method IsInList(ghost ring: seq<LinkedListElement>, ghost at: nat) returns (inList: bool)
      requires Ring(ring) && at < |ring| && ring[at] == this
      ensures inList <==> |ring| > 1
    {
      RingNeighbours(ring, at);
      assert (next == this) == (prev == this);
      inList := next != this;
    }

    /** The element after this one, or null at the end of the list. */
    method GetNext(ghost ring: seq<LinkedListElement>, ghost at: nat) returns (elem: LinkedListElement?)
      requires Ring(ring) && OneSentinel(ring) && at < |ring| && ring[at] == this
      ensures if at + 1 < |ring| then elem == ring[at + 1] else elem == null
    {
      RingNeighbours(ring, at);
      elem := if next.isSentinel then null else next;
    }

    /** The element before this one, or null at the start of the list. */
    method GetPrevious(ghost ring: seq<LinkedListElement>, ghost at: nat) returns (elem: LinkedListElement?)
      requires Ring(ring) && OneSentinel(ring) && at < |ring| && ring[at] == this
      ensures if at == 1 || |ring| == 1 then elem == null else elem == ring[Before(at, |ring|)]
    {
      RingNeighbours(ring, at);
      elem := if prev.isSentinel then null else prev;
    }

    method SetNextUnsafe(elem: LinkedListElement, ghost ring: seq<LinkedListElement>, ghost at: nat)
      requires Ring(ring) && at < |ring| && ring[at] == this && Ring([elem]) && elem !in ring
      modifies this, next, elem
      ensures Ring(Insert(ring, at + 1, elem))
    {
      RingNeighbours(ring, at);
      elem.next := this.next;
      elem.prev := this;
      this.next.prev := elem;
      this.next := elem;
      JoinedByInsert(ring, at, elem);
    }

    method SetPreviousUnsafe(elem: LinkedListElement, ghost ring: seq<LinkedListElement>, ghost at: nat)
      requires Ring(ring) && at < |ring| && ring[at] == this && Ring([elem]) && elem !in ring
      modifies this, prev, elem
      ensures Ring(Insert(ring, Before(at, |ring|) + 1, elem))
    {
      RingNeighbours(ring, at);
      elem.next := this;
      elem.prev := this.prev;
      this.prev.next := elem;
      this.prev := elem;
      JoinedByInsert(ring, Before(at, |ring|), elem);
    }

    /** Puts elem behind this element of a list, which the source asserts is not alone. */
    method SetNext(elem: LinkedListElement, ghost ring: seq<LinkedListElement>, ghost at: nat)
      requires Ring(ring) && |ring| > 1 && at < |ring| && ring[at] == this && Ring([elem]) && elem !in ring
      modifies this, next, elem
      ensures Ring(Insert(ring, at + 1, elem))
    {
      var inList := IsInList(ring, at);
      assert inList;
      SetNextUnsafe(elem, ring, at);
    }

    method SetPrevious(elem: LinkedListElement, ghost ring: seq<LinkedListElement>, ghost at: nat)
      requires Ring(ring) && |ring| > 1 && at < |ring| && ring[at] == this && Ring([elem]) && elem !in ring
      modifies this, prev, elem
      ensures Ring(Insert(ring, Before(at, |ring|) + 1, elem))
    {
      var inList := IsInList(ring, at);
      assert inList;
      SetPreviousUnsafe(elem, ring, at);
    }

    /** Leaves the ring, from within. */
    method Remove(ghost ring: seq<LinkedListElement>, ghost at: nat)
      requires Ring(ring) && |ring| > 1 && at < |ring| && ring[at] == this
      modifies this, next, prev
      ensures Ring(Without(ring, at)) && Ring([this])
    {
      RingNeighbours(ring, at);
      prev.next := next;
      next.prev := prev;
      next := this;
      prev := this;
      JoinedByRemoval(ring, at);
    }
  }

  /** A ring with a new element linked in behind the one at a place is a ring. */
  lemma JoinedByInsert(ring: seq<LinkedListElement>, at: nat, elem: LinkedListElement)
    requires Distinct(ring) && at < |ring| && elem !in ring
    requires Linked(ring[at], elem) && Linked(elem, ring[After(at, |ring|)])
    requires forall i :: 0 <= i < |ring| && i != at ==> Linked(ring[i], ring[After(i, |ring|)])
    ensures Ring(Insert(ring, at + 1, elem))
  {
    var w := Insert(ring, at + 1, elem);
    DistinctInsert(ring, at + 1, elem);
    hide Insert, Linked;
    forall k | 0 <= k < |w| ensures Linked(w[k], w[After(k, |w|)]) {
      InsertIndex(ring, at + 1, elem, k);
      if k < at { assert Linked(ring[k], ring[After(k, |ring|)]); }
      if k > at + 1 { assert Linked(ring[k - 1], ring[After(k - 1, |ring|)]); }
    }
  }

  /** A ring whose element at one place is passed over is a ring without it. */
  lemma JoinedByRemoval(ring: seq<LinkedListElement>, at: nat)
    requires Distinct(ring) && at < |ring| && |ring| > 1
    requires Linked(ring[Before(at, |ring|)], ring[After(at, |ring|)])
    requires forall i :: 0 <= i < |ring| && i != at && After(i, |ring|) != at ==>
               Linked(ring[i], ring[After(i, |ring|)])
    ensures Ring(Without(ring, at))
  {
    var w := Without(ring, at);
    DistinctWithout(ring, at);
    hide Without, Linked;
    forall k | 0 <= k < |w| ensures Linked(w[k], w[After(k, |w|)]) {
      WithoutIndex(ring, at, k);
      var o := if k < at then k else k + 1;
      if After(o, |ring|) != at { assert Linked(ring[o], ring[After(o, |ring|)]); }
    }
  }

  function After(i: nat, n: nat): (k: nat)
    requires i < n
    ensures k < n
  {
    if i + 1 == n then 0 else i + 1
  }

  function Before(i: nat, n: nat): (k: nat)
    requires i < n
    ensures k < n
  {
    if i == 0 then n - 1 else i - 1
  }

  function Insert<T>(s: seq<T>, at: nat, t: T): (r: seq<T>)
    requires at <= |s|
    ensures |r| == |s| + 1
  {
    s[..at] + [t] + s[at..]
  }

  function Without<T>(s: seq<T>, at: nat): (r: seq<T>)
    requires at < |s|
    ensures |r| == |s| - 1
  {
    s[..at] + s[at + 1..]
  }

  predicate Distinct<T(==)>(s: seq<T>) {
    forall i, j :: 0 <= i < j < |s| ==> s[i] != s[j]
  }

  predicate Linked(a: LinkedListElement, b: LinkedListElement)
    reads a, b
  {
    a.next == b && b.prev == a
  }

  /** The elements of ring are distinct and linked into a circle in this order, both ways. */
  ghost predicate Ring(ring: seq<LinkedListElement>)
    reads ring
  {
    && |ring| > 0
    && Distinct(ring)
    && forall i :: 0 <= i < |ring| ==> Linked(ring[i], ring[After(i, |ring|)])
  }

  lemma RingNeighbours(ring: seq<LinkedListElement>, at: nat)
    requires Ring(ring) && at < |ring|
    ensures ring[at].next == ring[After(at, |ring|)] && ring[at].prev == ring[Before(at, |ring|)]
  {
    assert After(Before(at, |ring|), |ring|) == at;
    assert Linked(ring[Before(at, |ring|)], ring[at]);
    assert Linked(ring[at], ring[After(at, |ring|)]);
  }

  /** Who follows whom once the element at one place is gone. */
  lemma WithoutIndex<T>(s: seq<T>, at: nat, k: nat)
    requires at < |s| && k < |s| - 1
    ensures var o := if k < at then k else k + 1;
            && Without(s, at)[k] == s[o]
            && Without(s, at)[After(k, |s| - 1)]
               == if After(o, |s|) == at then s[After(at, |s|)] else s[After(o, |s|)]
  {
  }

  /** Who follows whom once an element has been put in at one place. */
  lemma InsertIndex<T>(s: seq<T>, at: nat, t: T, k: nat)
    requires 0 < at <= |s| && k <= |s|
    ensures Insert(s, at, t)[k] == if k < at then s[k] else if k == at then t else s[k - 1]
    ensures Insert(s, at, t)[After(k, |s| + 1)]
         == if k == at - 1 then t
            else if k == at then s[After(at - 1, |s|)]
            else s[After(if k < at then k else k - 1, |s|)]
  {
  }

  lemma DistinctWithout<T>(s: seq<T>, at: nat)
    requires at < |s| && Distinct(s)
    ensures Distinct(Without(s, at))
  {
    var w := Without(s, at);
    forall i, j | 0 <= i < j < |w| ensures w[i] != w[j] {
      WithoutIndex(s, at, i);
      WithoutIndex(s, at, j);
    }
  }

  lemma DistinctInsert<T>(s: seq<T>, at: nat, t: T)
    requires 0 < at <= |s| && Distinct(s) && t !in s
    ensures Distinct(Insert(s, at, t))
  {
    var w := Insert(s, at, t);
    forall i, j | 0 <= i < j < |w| ensures w[i] != w[j] {
      InsertIndex(s, at, t, i);
      InsertIndex(s, at, t, j);
    }
  }

  ghost predicate OneSentinel(ring: seq<LinkedListElement>) {
    forall i :: 0 <= i < |ring| ==> (ring[i].isSentinel <==> i == 0)
  }

  class LinkedList {
    const sentinel: LinkedListElement

    /** The list contains xs, in this order. */
    ghost predicate Holds(xs: seq<LinkedListElement>)
      reads sentinel, xs
    {
      OneSentinel([sentinel] + xs) && Ring([sentinel] + xs)
    }

    constructor ()
      ensures Holds([]) && fresh(sentinel)
    {
      sentinel := new LinkedListElement(true);
    }

    method InsertFront(elem: LinkedListElement, ghost xs: seq<LinkedListElement>)
      requires Holds(xs) && Ring([elem]) && elem !in xs && !elem.isSentinel
      modifies sentinel, xs, elem
      ensures Holds([elem] + xs)
    {
      RingNeighbours([sentinel] + xs, 0);
      sentinel.SetNextUnsafe(elem, [sentinel] + xs, 0);
      assert Insert([sentinel] + xs, 1, elem) == [sentinel] + ([elem] + xs);
    }

    method InsertBack(elem: LinkedListElement, ghost xs: seq<LinkedListElement>)
      requires Holds(xs) && Ring([elem]) && elem !in xs && !elem.isSentinel
      modifies sentinel, xs, elem
      ensures Holds(xs + [elem])
    {
      RingNeighbours([sentinel] + xs, 0);
      sentinel.SetPreviousUnsafe(elem, [sentinel] + xs, 0);
      assert Insert([sentinel] + xs, |xs| + 1, elem) == [sentinel] + (xs + [elem]);
    }

    method PopFirst(ghost xs: seq<LinkedListElement>) returns (elem: LinkedListElement?)
      requires Holds(xs)
      modifies sentinel, xs
      ensures xs == [] ==> elem == null && Holds([])
      ensures xs != [] ==> elem == xs[0] && Holds(xs[1..]) && Ring([xs[0]])
    {
      ghost var ring := [sentinel] + xs;
      elem := sentinel.GetNext(ring, 0);
      if elem != null {
        RingNeighbours(ring, 1);
        elem.Remove(ring, 1);
        assert Without(ring, 1) == [sentinel] + xs[1..];
      }
    }

    method PopLast(ghost xs: seq<LinkedListElement>) returns (elem: LinkedListElement?)
      requires Holds(xs)
      modifies sentinel, xs
      ensures xs == [] ==> elem == null && Holds([])
      ensures xs != [] ==> elem == xs[|xs| - 1] && Holds(xs[..|xs| - 1]) && Ring([xs[|xs| - 1]])
    {
      ghost var ring := [sentinel] + xs;
      elem := sentinel.GetPrevious(ring, 0);
      if elem != null {
        RingNeighbours(ring, |xs|);
        elem.Remove(ring, |xs|);
        assert Without(ring, |xs|) == [sentinel] + xs[..|xs| - 1];
      }
    }

    method IsEmpty(ghost xs: seq<LinkedListElement>) returns (empty: bool)
      requires Holds(xs)
      ensures empty <==> xs == []
    {
      var inList := sentinel.IsInList([sentinel] + xs, 0);
      empty := !inList;
    }

    /** Empties the list and leaves every element of it in no list. */
    method Clear(ghost xs: seq<LinkedListElement>)
      requires Holds(xs)
      modifies sentinel, xs
      ensures Holds([])
      ensures forall i :: 0 <= i < |xs| ==> Ring([xs[i]])
    {
      ListIsDistinct(xs);
      ghost var done := 0;
      var elem := PopFirst(xs);
      if elem != null { done := 1; }
      while elem != null
        invariant done <= |xs| && Holds(xs[done..])
        invariant elem == null ==> xs[done..] == []
        invariant forall i :: 0 <= i < done ==> Ring([xs[i]])
        decreases |xs| - done, elem != null
      {
        ghost var rest := xs[done..];
        assert forall i :: 0 <= i < done ==> xs[i] !in rest;
        elem := PopFirst(rest);
        if elem != null {
          assert rest[1..] == xs[done + 1..];
          done := done + 1;
        }
      }
    }

    lemma ListIsDistinct(xs: seq<LinkedListElement>)
      requires Holds(xs)
      ensures Distinct(xs) && sentinel !in xs
    {
      var ring := [sentinel] + xs;
      forall i, j | 0 <= i < j < |xs| ensures xs[i] != xs[j] {
        assert ring[i + 1] != ring[j + 1];
      }
      forall i | 0 <= i < |xs| ensures xs[i] != sentinel {
        assert ring[0] != ring[i + 1];
      }
    }

    /** After an element has removed itself from the ring, the list is what it was without it. */
    lemma RemovedItself(xs: seq<LinkedListElement>, i: nat)
      requires i < |xs| && OneSentinel([sentinel] + xs) && Ring(Without([sentinel] + xs, i + 1))
      ensures Holds(Without(xs, i))
    {
      var ring := [sentinel] + xs;
      assert Without(ring, i + 1) == [sentinel] + Without(xs, i);
      forall k | 0 <= k < |ring| - 1
        ensures ([sentinel] + Without(xs, i))[k].isSentinel <==> k == 0
      {
        WithoutIndex(ring, i + 1, k);
      }
    }

    // ----- debugAssertIsSane -----

    /** The forward or the backward pointers of a set of elements. */
    ghost function Links(nodes: set<LinkedListElement>, forward: bool): map<LinkedListElement, LinkedListElement>
      reads nodes
    {
      map e | e in nodes :: if forward then e.next else e.prev
    }

    /** The elements that exist: sentinel is one of them, and no pointer leads out. */
    ghost predicate Universe(nodes: set<LinkedListElement>)
      reads nodes
    {
      && sentinel in nodes
      && forall e {:trigger e.next} {:trigger e.prev} :: e in nodes ==> e.next in nodes && e.prev in nodes
    }

    lemma OneLink(nodes: set<LinkedListElement>, forward: bool, k: nat)
      requires Universe(nodes)
      ensures Closed(Links(nodes, forward)) && Orbit(Links(nodes, forward), sentinel, k) in nodes
      ensures Along(Orbit(Links(nodes, forward), sentinel, k), forward) == Orbit(Links(nodes, forward), sentinel, k + 1)
    {
      StaysInGraph(Links(nodes, forward), sentinel, k);
    }

    /** What the rounds of the walk so far decide, once it stops at round p. */
    lemma WalkDecides(link: map<LinkedListElement, LinkedListElement>, p: nat)
      requires p > 0
      requires forall k :: 0 < k < 2 * p + 2 ==> Orbit(link, sentinel, k) != sentinel
      requires !Apart(link, sentinel, p)
      ensures !exists n: nat :: Returns(link, sentinel, n)
    {
      var r := if Orbit(link, sentinel, p) == Orbit(link, sentinel, 2 * p) then 2 * p else 2 * p + 1;
      forall n: nat
        ensures !Returns(link, sentinel, n)
      {
        if n > 0 { NeverReturns(link, sentinel, p, r, n); }
      }
    }

    /** Rounds that found nothing are fewer than the walk takes to repeat itself. */
    lemma RoundsBound(link: map<LinkedListElement, LinkedListElement>, rounds: nat)
      requires forall i :: 0 < i < rounds ==> Apart(link, sentinel, i)
      ensures forall t: nat, c: nat :: Repeats(link, sentinel, t, c) ==> rounds <= t + c
    {
      forall t: nat, c: nat | Repeats(link, sentinel, t, c)
        ensures rounds <= t + c
      {
        var m := MeetingPoint(link, sentinel, t, c);
      }
    }

    /**
     * The first loop, and with forward false the second: a tortoise and a hare. The walk passes exactly
     * when it comes back to the sentinel, and on a walk with tail t and cycle c it is over after at most
     * t + c rounds.
     */
    method CheckForCycle(forward: bool, ghost nodes: set<LinkedListElement>,
                         ghost link: map<LinkedListElement, LinkedListElement>)
      returns (passed: bool, ghost rounds: nat)
      requires Universe(nodes) && link == Links(nodes, forward)
      ensures passed <==> exists n: nat :: Returns(link, sentinel, n)
      ensures forall t: nat, c: nat :: Repeats(link, sentinel, t, c) ==> rounds <= t + c
    {
      OneLink(nodes, forward, 0);
      OneLink(nodes, forward, 1);
      OneLink(nodes, forward, 2);
      ghost var t, c := TailAndCycle(link, sentinel);
      ghost var m := MeetingPoint(link, sentinel, t, c);
      hide Universe, Links;
      var slow := Along(sentinel, forward);
      var fast1 := Along(slow, forward);
      var fast2 := Along(fast1, forward);
      rounds := 0;
      passed := true;
      while slow != sentinel && fast1 != sentinel && fast2 != sentinel
        invariant rounds < m && link == Links(nodes, forward)
        invariant slow == Orbit(link, sentinel, rounds + 1)
        invariant fast1 == Orbit(link, sentinel, 2 * rounds + 2)
        invariant fast2 == Orbit(link, sentinel, 2 * rounds + 3)
        invariant forall k :: 0 < k < 2 * rounds + 2 && rounds > 0 ==> Orbit(link, sentinel, k) != sentinel
        invariant forall i :: 0 < i <= rounds ==> Apart(link, sentinel, i)
        decreases m - rounds
      {
        hide Orbit;
        assert forall k :: 0 < k < 2 * rounds + 4 ==> Orbit(link, sentinel, k) != sentinel;
        rounds := rounds + 1;
        if slow == fast1 || slow == fast2 {
          WalkDecides(link, rounds);
          RoundsBound(link, rounds);
          return false, rounds;
        }
        OneLink(nodes, forward, rounds);
        OneLink(nodes, forward, 2 * rounds + 1);
        OneLink(nodes, forward, 2 * rounds + 2);
        slow := Along(slow, forward);
        fast1 := Along(fast2, forward);
        fast2 := Along(fast1, forward);
      }
      RoundsBound(link, rounds);
      ghost var k := if slow == sentinel then rounds + 1
                     else if fast1 == sentinel then 2 * rounds + 2
                     else 2 * rounds + 3;
      ghost var n := FirstReturn(link, sentinel, k);
      passed := true;
    }

    ghost function Sentinels(nodes: set<LinkedListElement>): set<LinkedListElement> {
      set e | e in nodes && e.isSentinel
    }

    /** The third loop: no element on the way round is marked as a sentinel. */
    method CheckForSentinels(ghost nodes: set<LinkedListElement>,
                             ghost nx: map<LinkedListElement, LinkedListElement>, ghost n: nat)
      returns (passed: bool)
      requires Universe(nodes) && nx == Links(nodes, true) && Returns(nx, sentinel, n)
      ensures passed <==> forall k :: 0 < k < n ==> Orbit(nx, sentinel, k) !in Sentinels(nodes)
    {
      OneLink(nodes, true, 0);
      ghost var k := 1;
      var elem := sentinel.next;
      while elem != sentinel
        invariant nx == Links(nodes, true) && 0 < k <= n && elem == Orbit(nx, sentinel, k)
        invariant forall j :: 0 < j < k ==> Orbit(nx, sentinel, j) !in Sentinels(nodes)
        decreases n - k
      {
        OneLink(nodes, true, k);
        if elem.isSentinel { return false; }
        elem := elem.next;
        k := k + 1;
      }
      passed := true;
    }

    /**
     * The fourth loop: prev pointers undo next pointers, except that the sentinel's own prev is looked at
     * only in an empty list.
     */
    method CheckLinks(ghost nodes: set<LinkedListElement>, ghost nx: map<LinkedListElement, LinkedListElement>,
                      ghost pv: map<LinkedListElement, LinkedListElement>, ghost n: nat)
      returns (passed: bool)
      requires Universe(nodes) && nx == Links(nodes, true) && pv == Links(nodes, false) && Returns(nx, sentinel, n)
      ensures passed <==> forall k :: 0 < k < n || k == 1 ==> Undone(nx, pv, sentinel, k)
    {
      OneLink(nodes, true, 0);
      ghost var k := 0;
      var prev, cur := sentinel, sentinel.next;
      while true
        invariant nx == Links(nodes, true) && pv == Links(nodes, false)
        invariant prev == Orbit(nx, sentinel, k) && cur == Orbit(nx, sentinel, k + 1)
        invariant k == 0 || k + 1 < n
        invariant forall j :: 0 < j <= k ==> Undone(nx, pv, sentinel, j)
        decreases n - k
      {
        OneLink(nodes, true, k);
        OneLink(nodes, true, k + 1);
        if cur.prev != prev || prev.next != cur {
          assert !Undone(nx, pv, sentinel, k + 1);
          return false;
        }
        prev, cur := cur, cur.next;
        k := k + 1;
        if cur == sentinel { break; }
      }
      passed := true;
    }

    /** All four loops: true exactly when no assertion fails, whatever the pointers are. */
    method DebugAssertIsSane(ghost nodes: set<LinkedListElement>, ghost nx: map<LinkedListElement, LinkedListElement>,
                             ghost pv: map<LinkedListElement, LinkedListElement>)
      returns (passed: bool)
      requires Universe(nodes) && nx == Links(nodes, true) && pv == Links(nodes, false)
      ensures passed <==> exists n: nat :: PassesCheck(nx, pv, sentinel, Sentinels(nodes), n)
    {
      hide Universe, Undone;
      ghost var rounds;
      passed, rounds := CheckForCycle(true, nodes, nx);
      if !passed { return; }
      passed, rounds := CheckForCycle(false, nodes, pv);
      if !passed { return; }
      ghost var n: nat :| Returns(nx, sentinel, n);
      AssertionsDecide(nx, pv, sentinel, Sentinels(nodes), n);
      passed := CheckForSentinels(nodes, nx, n);
      if passed {
        assert forall k :: 0 < k < n ==> Orbit(nx, sentinel, k) !in Sentinels(nodes);
        passed := CheckLinks(nodes, nx, pv, n);
      }
    }

    /** The n - 1 elements on the way round. */
    ghost function Elements(nodes: set<LinkedListElement>, n: nat): seq<LinkedListElement>
      requires n > 0
      reads nodes
    {
      seq(n - 1, i requires 0 <= i reads nodes => Orbit(Links(nodes, true), sentinel, i + 1))
    }

    /** The list contains exactly xs when the pointers form a ring and xs are the elements on it. */
    lemma HoldsIsWellFormed(nodes: set<LinkedListElement>, xs: seq<LinkedListElement>)
      requires Universe(nodes) && sentinel.isSentinel
      ensures Holds(xs) <==>
              && WellFormed(Links(nodes, true), Links(nodes, false), sentinel, Sentinels(nodes), |xs| + 1)
              && xs == Elements(nodes, |xs| + 1)
    {
      if Holds(xs) {
        HoldsThenWellFormed(nodes, xs);
      } else if WellFormed(Links(nodes, true), Links(nodes, false), sentinel, Sentinels(nodes), |xs| + 1)
             && xs == Elements(nodes, |xs| + 1) {
        WellFormedThenHolds(nodes, xs);
      }
    }

    lemma {:induction false} RingIsOrbit(nodes: set<LinkedListElement>, ring: seq<LinkedListElement>, k: nat)
      requires Universe(nodes) && Ring(ring) && ring[0] == sentinel && k <= |ring|
      ensures Orbit(Links(nodes, true), sentinel, k) == if k == |ring| then sentinel else ring[k]
    {
      if k > 0 {
        RingIsOrbit(nodes, ring, k - 1);
        RingNeighbours(ring, k - 1);
        OneLink(nodes, true, k - 1);
      }
    }

    lemma HoldsThenWellFormed(nodes: set<LinkedListElement>, xs: seq<LinkedListElement>)
      requires Universe(nodes) && sentinel.isSentinel && Holds(xs)
      ensures WellFormed(Links(nodes, true), Links(nodes, false), sentinel, Sentinels(nodes), |xs| + 1)
      ensures xs == Elements(nodes, |xs| + 1)
    {
      var ring, nx, pv := [sentinel] + xs, Links(nodes, true), Links(nodes, false);
      forall k | 0 <= k <= |ring|
        ensures Orbit(nx, sentinel, k) == if k == |ring| then sentinel else ring[k]
      {
        RingIsOrbit(nodes, ring, k);
      }
      forall k | 0 < k <= |ring|
        ensures Undone(nx, pv, sentinel, k)
      {
        RingNeighbours(ring, k - 1);
        OneLink(nodes, true, k);
        var at := if k == |ring| then 0 else k;
        RingNeighbours(ring, at);
      }
    }

    lemma WellFormedThenHolds(nodes: set<LinkedListElement>, xs: seq<LinkedListElement>)
      requires Universe(nodes) && sentinel.isSentinel
      requires WellFormed(Links(nodes, true), Links(nodes, false), sentinel, Sentinels(nodes), |xs| + 1)
      requires xs == Elements(nodes, |xs| + 1)
      ensures Holds(xs)
    {
      var ring, nx, pv := [sentinel] + xs, Links(nodes, true), Links(nodes, false);
      var n := |ring|;
      forall k | 0 <= k < n
        ensures ring[k] == Orbit(nx, sentinel, k)
      {
        if k > 0 { assert ring[k] == xs[k - 1]; }
      }
      forall i, j | 0 <= i < j < n
        ensures ring[i] != ring[j]
      {
        NoRepeats(nx, sentinel, n, i, j);
      }
      forall k | 0 <= k < n
        ensures Linked(ring[k], ring[After(k, n)]) && (ring[k].isSentinel <==> k == 0)
      {
        OneLink(nodes, true, k);
        OneLink(nodes, true, k + 1);
        assert Undone(nx, pv, sentinel, k + 1);
      }
    }

    /** What the check leaves open: only whether the sentinel's prev is the last element. */
    lemma CheckedListIsWellFormed(nodes: set<LinkedListElement>, n: nat)
      requires Universe(nodes) && sentinel.isSentinel && n > 0
      ensures Holds(Elements(nodes, n)) <==>
              && PassesCheck(Links(nodes, true), Links(nodes, false), sentinel, Sentinels(nodes), n)
              && sentinel.prev == Orbit(Links(nodes, true), sentinel, n - 1)
    {
      HoldsIsWellFormed(nodes, Elements(nodes, n));
      CheckMissesOneLink(Links(nodes, true), Links(nodes, false), sentinel, Sentinels(nodes), n);
    }
  }

  function Along(e: LinkedListElement, forward: bool): LinkedListElement
    reads e
  {
    if forward then e.next else e.prev
  }
}
