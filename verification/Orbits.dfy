/** Following one pointer per node through a finite graph: where the walk goes round, and when two walkers meet. */
module Orbits {
  import opened FiniteSets

  /** One link on from t; a node that is not in the graph stays where it is. */
  ghost function Follow<T>(link: map<T, T>, t: T): T {
    if t in link then link[t] else t
  }

  /** Every link leads to a node of the graph. */
  ghost predicate Closed<T>(link: map<T, T>) {
    forall t {:trigger Follow(link, t)} :: t in link ==> Follow(link, t) in link
  }

  /** The node k links after start. */
  ghost function Orbit<T>(link: map<T, T>, start: T, k: nat): T {
    if k == 0 then start else Follow(link, Orbit(link, start, k - 1))
  }

  /** After n links the walk is back at its start for the first time. */
  ghost predicate Returns<T>(link: map<T, T>, start: T, n: nat)
  {
    n > 0 && Orbit(link, start, n) == start && forall k :: 0 < k < n ==> Orbit(link, start, k) != start
  }

  lemma {:induction false} OrbitShift<T>(link: map<T, T>, start: T, a: nat, b: nat, d: nat)
    requires Orbit(link, start, a) == Orbit(link, start, b)
    ensures Orbit(link, start, a + d) == Orbit(link, start, b + d)
  {
    if d > 0 { OrbitShift(link, start, a, b, d - 1); }
  }

  /** From t on the walk repeats itself every c links. */
  lemma {:induction false} Periodic<T>(link: map<T, T>, start: T, t: nat, c: nat, k: nat, q: nat)
    requires Orbit(link, start, t) == Orbit(link, start, t + c) && k >= t
    ensures Orbit(link, start, k) == Orbit(link, start, k + q * c)
    decreases q
  {
    if q > 0 {
      Periodic(link, start, t, c, k, q - 1);
      OrbitShift(link, start, t, t + c, k - t + (q - 1) * c);
      assert q * c == (q - 1) * c + c;
    }
  }

  /** A node seen twice before any return to the start means there is no return. */
  lemma {:induction false} NeverReturns<T>(link: map<T, T>, start: T, p: nat, r: nat, k: nat)
    requires 0 < p < r && Orbit(link, start, p) == Orbit(link, start, r) && k > 0
    requires forall j :: 0 < j < r ==> Orbit(link, start, j) != start
    ensures Orbit(link, start, k) != start
    decreases k
  {
    if k >= r {
      OrbitShift(link, start, p, r, k - r);
      NeverReturns(link, start, p, r, k - (r - p));
    }
  }

  /** Up to its first return the walk never sees a node twice. */
  lemma NoRepeats<T>(link: map<T, T>, start: T, n: nat, i: nat, j: nat)
    requires Returns(link, start, n) && i < j < n
    ensures Orbit(link, start, i) != Orbit(link, start, j)
  {
    if Orbit(link, start, i) == Orbit(link, start, j) {
      OrbitShift(link, start, i, j, n - j);
    }
  }

  lemma ReturnsOnce<T>(link: map<T, T>, start: T, n: nat, m: nat)
    requires Returns(link, start, n) && Returns(link, start, m)
    ensures n == m
  {
  }

  /** The nodes seen in the first n links. */
  ghost function Seen<T>(link: map<T, T>, start: T, n: nat): set<T>
  {
    if n == 0 then {} else Seen(link, start, n - 1) + {Orbit(link, start, n - 1)}
  }

  lemma {:induction false} SeenIsReached<T>(link: map<T, T>, start: T, n: nat, t: T)
    ensures t in Seen(link, start, n) ==> exists i :: 0 <= i < n && Orbit(link, start, i) == t
  {
    if n > 0 { SeenIsReached(link, start, n - 1, t); }
  }

  lemma {:induction false} StaysInGraph<T>(link: map<T, T>, start: T, k: nat)
    requires Closed(link) && start in link
    ensures Orbit(link, start, k) in link
  {
    if k > 0 { StaysInGraph(link, start, k - 1); }
  }

  /** In a finite graph some node is seen again, after no more links than there are nodes. */
  lemma {:induction false} SomeRepeat<T>(link: map<T, T>, start: T, n: nat) returns (t: nat, c: nat)
    ensures c == 0 ==> |Seen(link, start, n)| == n
    ensures c > 0 ==> t + c < n && Orbit(link, start, t) == Orbit(link, start, t + c)
    decreases n
  {
    t, c := 0, 0;
    if n > 0 {
      t, c := SomeRepeat(link, start, n - 1);
      var last := Orbit(link, start, n - 1);
      if c == 0 && last in Seen(link, start, n - 1) {
        SeenIsReached(link, start, n - 1, last);
        t :| 0 <= t < n - 1 && Orbit(link, start, t) == last;
        c := n - 1 - t;
      }
    }
  }

  lemma TailAndCycle<T>(link: map<T, T>, start: T) returns (t: nat, c: nat)
    requires Closed(link) && start in link
    ensures t + c <= |link| && Repeats(link, start, t, c)
  {
    t, c := SomeRepeat(link, start, |link| + 1);
    if c == 0 {
      var seen := Seen(link, start, |link| + 1);
      forall x | x in seen
        ensures x in link.Keys
      {
        SeenIsReached(link, start, |link| + 1, x);
        var i :| 0 <= i < |link| + 1 && Orbit(link, start, i) == x;
        StaysInGraph(link, start, i);
      }
      SubsetSize(seen, link.Keys);
    }
  }

  /** The walk has seen all it will ever see after t + c links: tail t, cycle c. */
  ghost predicate Repeats<T>(link: map<T, T>, start: T, t: nat, c: nat) {
    c > 0 && Orbit(link, start, t) == Orbit(link, start, t + c)
  }

  /** A slow walker at i is neither where a fast one is at 2i nor where it is one link on. */
  ghost predicate Apart<T>(link: map<T, T>, start: T, i: nat) {
    Orbit(link, start, i) != Orbit(link, start, 2 * i) && Orbit(link, start, i) != Orbit(link, start, 2 * i + 1)
  }

  /** On a walk with tail t and cycle c the walkers meet within t + c links of the slow one. */
  lemma MeetingPoint<T>(link: map<T, T>, start: T, t: nat, c: nat) returns (m: nat)
    requires Repeats(link, start, t, c)
    ensures 0 < m <= t + c && !Apart(link, start, m)
  {
    var q := if t % c == 0 && t > 0 then t / c else t / c + 1;
    m := q * c;
    MultipleBelow(t, c, q);
    Periodic(link, start, t, c, m, q);
  }

  lemma MultipleBelow(t: nat, c: nat, q: nat)
    requires c > 0 && q == if t % c == 0 && t > 0 then t / c else t / c + 1
    ensures 0 < q * c <= t + c && t <= q * c
  {
    assert t == (t / c) * c + t % c;
    assert (t / c + 1) * c == (t / c) * c + c;
  }

  /** The first of several returns. */
  lemma {:induction false} FirstReturn<T>(link: map<T, T>, start: T, k: nat) returns (n: nat)
    requires k > 0 && Orbit(link, start, k) == start
    ensures n <= k && Returns(link, start, n)
    decreases k
  {
    if j :| 0 < j < k && Orbit(link, start, j) == start {
      n := FirstReturn(link, start, j);
    } else {
      n := k;
    }
  }
}
