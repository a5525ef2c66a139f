/**
 * What LinkedList::debugAssertIsSane establishes about any two pointers per node, nx and pv, of a finite
 * graph (mfbt/LinkedList.h:323-374): start is the sentinel, and flagged are the nodes marked as sentinels.
 */
module ListSanity {
  import opened Orbits

  /** pv undoes the k-th link of nx. */
  ghost predicate Undone<T>(nx: map<T, T>, pv: map<T, T>, start: T, k: nat)
    requires k > 0
  {
    Follow(pv, Orbit(nx, start, k)) == Orbit(nx, start, k - 1)
  }

  /** A ring of n nodes: nx goes round in n links, pv undoes every one of them, and only start is flagged. */
  ghost predicate WellFormed<T>(nx: map<T, T>, pv: map<T, T>, start: T, flagged: set<T>, n: nat)
  {
    && Returns(nx, start, n)
    && (forall k :: 0 < k < n ==> Orbit(nx, start, k) !in flagged)
    && (forall k :: 0 < k <= n ==> Undone(nx, pv, start, k))
  }

  /** What the assertions of the four loops say together. */
  ghost predicate PassesCheck<T>(nx: map<T, T>, pv: map<T, T>, start: T, flagged: set<T>, n: nat)
  {
    && Returns(nx, start, n)
    && (exists m: nat :: Returns(pv, start, m))
    && (forall k :: 0 < k < n ==> Orbit(nx, start, k) !in flagged)
    && (forall k :: 0 < k < n || k == 1 ==> Undone(nx, pv, start, k))
  }

  /** There is only one first return, so whether the check passes is decided by what the loops see. */
  lemma AssertionsDecide<T>(nx: map<T, T>, pv: map<T, T>, start: T, flagged: set<T>, n: nat)
    requires Returns(nx, start, n)
    ensures (exists m: nat :: PassesCheck(nx, pv, start, flagged, m)) <==> PassesCheck(nx, pv, start, flagged, n)
  {
    forall m: nat
      ensures PassesCheck(nx, pv, start, flagged, m) ==> m == n
    {
      if Returns(nx, start, m) { ReturnsOnce(nx, start, n, m); }
    }
  }

  /** In a ring the walk along pv is the walk along nx backwards. */
  lemma {:induction false} BackwardWalk<T>(nx: map<T, T>, pv: map<T, T>, start: T, n: nat, k: nat)
    requires k <= n
    requires Orbit(nx, start, n) == start && forall j :: 0 < j <= n ==> Undone(nx, pv, start, j)
    ensures Orbit(pv, start, k) == Orbit(nx, start, n - k)
  {
    if k > 0 {
      BackwardWalk(nx, pv, start, n, k - 1);
      assert Undone(nx, pv, start, n - k + 1);
    }
  }

  /**
   * The check passes on every ring; what it passes is a ring exactly when the sentinel's prev is the last
   * node, the one link that no assertion looks at.
   */
  lemma CheckMissesOneLink<T>(nx: map<T, T>, pv: map<T, T>, start: T, flagged: set<T>, n: nat)
    requires n > 0
    ensures WellFormed(nx, pv, start, flagged, n)
       <==> PassesCheck(nx, pv, start, flagged, n) && Follow(pv, start) == Orbit(nx, start, n - 1)
  {
    if WellFormed(nx, pv, start, flagged, n) {
      forall k | 0 < k <= n
        ensures Orbit(pv, start, k) == Orbit(nx, start, n - k)
      {
        BackwardWalk(nx, pv, start, n, k);
      }
      assert Returns(pv, start, n);
      assert Undone(nx, pv, start, n);
    }
  }

  /** Such a graph: 0 -> 1 -> 0 forwards, but backwards 0 -> 2 -> 0. */
  lemma PassesButIsNoRing()
    ensures var nx, pv := map[0 := 1, 1 := 0, 2 := 0], map[0 := 2, 1 := 0, 2 := 0];
            && Closed(nx) && Closed(pv)
            && PassesCheck(nx, pv, 0, {0}, 2)
            && forall n: nat :: !WellFormed(nx, pv, 0, {0}, n)
  {
    var nx, pv := map[0 := 1, 1 := 0, 2 := 0], map[0 := 2, 1 := 0, 2 := 0];
    assert Orbit(nx, 0, 1) == 1;
    assert Orbit(nx, 0, 2) == Follow(nx, 1) == 0;
    assert Orbit(pv, 0, 1) == 2;
    assert Orbit(pv, 0, 2) == Follow(pv, 2) == 0;
    assert Returns(nx, 0, 2);
    assert Returns(pv, 0, 2);
    forall n: nat
      ensures !WellFormed(nx, pv, 0, {0}, n)
    {
      if Returns(nx, 0, n) {
        ReturnsOnce(nx, 0, 2, n);
        assert !Undone(nx, pv, 0, 2);
      }
    }
  }
}
