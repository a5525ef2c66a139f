/**
 * The open-addressing storage as a value: the encoding of an entry's state in its key hash, the
 * probe-path invariant, the map a storage stands for, and what a search of it finds.
 */
module HashTableSpec {
  import opened Pow2s
  import opened DoubleHashing

  const MIN_SIZE_LOG2: nat := 2
  const MAX_CAPACITY_LOG2: nat := 24

  /**
   * One slot. The hash 0 means free, 1 means removed, anything larger is live; the lowest bit of a
   * live hash is the collision bit: some other entry was probed past this one.
   */
  datatype Entry<K, V> = Entry(keyHash: Word32, key: K, value: V) {
    predicate IsFree() { keyHash == 0 }
    predicate IsRemoved() { keyHash == 1 }
    predicate IsLive() { keyHash > 1 }
    predicate HasCollision() { keyHash % 2 == 1 }
    predicate MatchHash(hn: Word32) { keyHash - keyHash % 2 == hn }

    function SetCollision(): Entry<K, V> {
      this.(keyHash := keyHash - keyHash % 2 + 1)
    }

    function UnsetCollision(): Entry<K, V> {
      this.(keyHash := keyHash - keyHash % 2)
    }

    /** The hash the entry was stored under. */
    function StoredHash(): Word32 { keyHash - keyHash % 2 }
  }

  /** A hash that can be stored: neither a reserved code nor carrying the collision bit. */
  predicate Storable(hn: Word32) { hn > 1 && hn % 2 == 0 }

  /** h * goldenRatio on 32 bits. */
  function ScrambleHashCode(h: Word32): Word32 {
    (h * 0x9E3779B9) % TWO32
  }

  function PrepareHash(h: Word32): (hn: Word32)
    ensures Storable(hn)
  {
    var keyHash := ScrambleHashCode(h);
    var live := if keyHash > 1 then keyHash else (keyHash - 2) % TWO32;
    live - live % 2
  }

  /** The one hash code that is scrambled to k. */
  lemma UnscrambleHashCode(h: Word32, k: Word32)
    ensures ScrambleHashCode(h) == k <==> h == (GOLDEN_INVERSE * k) % TWO32
  {
    GoldenInverse();
    MultiplicationInverts(GOLDEN_RATIO_U32, GOLDEN_INVERSE, k);
    MultiplicationInverts(GOLDEN_INVERSE, GOLDEN_RATIO_U32, h);
  }

  /**
   * Two hash codes are prepared as hn, or four as 2^32 - 2, where the codes that scramble to a
   * reserved one end up.
   */
  lemma PreparedFrom(h: Word32, hn: Word32)
    requires Storable(hn)
    ensures PrepareHash(h) == hn
       <==> || h == (GOLDEN_INVERSE * hn) % TWO32
            || h == (GOLDEN_INVERSE * (hn + 1)) % TWO32
            || (hn == TWO32 - 2 && (h == 0 || h == GOLDEN_INVERSE))
  {
    hide ScrambleHashCode;
    UnscrambleHashCode(h, 0);
    UnscrambleHashCode(h, 1);
    UnscrambleHashCode(h, hn);
    UnscrambleHashCode(h, hn + 1);
  }

  ghost predicate Sized<K, V>(tbl: seq<Entry<K, V>>, n: nat) {
    MIN_SIZE_LOG2 <= n <= MAX_CAPACITY_LOG2 && |tbl| == Pow2(n)
  }

  // ----- The probe-path invariant -----

  /** Every slot probed for the hash before s is a tombstone or a live entry with its collision bit. */
  ghost predicate PathMarked<K, V>(tbl: seq<Entry<K, V>>, n: nat, hn: Word32, s: nat)
    requires Sized(tbl, n) && s < |tbl|
  {
    forall j: nat :: j < Rank(hn, n, s) ==> tbl[Probe(hn, n, j)].HasCollision()
  }

  ghost predicate ProbePaths<K, V>(tbl: seq<Entry<K, V>>, n: nat)
    requires Sized(tbl, n)
  {
    forall s: nat :: s < |tbl| && tbl[s].IsLive() ==> PathMarked(tbl, n, tbl[s].StoredHash(), s)
  }

  /** Each live entry is stored under the prepared hash of its key. */
  ghost predicate Hashed<K, V>(tbl: seq<Entry<K, V>>, hash: K -> Word32) {
    forall s :: 0 <= s < |tbl| && tbl[s].IsLive() ==> tbl[s].StoredHash() == PrepareHash(hash(tbl[s].key))
  }

  /**
   * A storage whose collision bits and tombstones only grow, and whose live entries either stayed
   * put or sit at the end of a marked path, keeps the invariant.
   */
  lemma MarksGrow<K, V>(tbl: seq<Entry<K, V>>, tbl': seq<Entry<K, V>>, n: nat)
    requires Sized(tbl, n) && Sized(tbl', n) && ProbePaths(tbl, n)
    requires forall s :: 0 <= s < |tbl| && tbl[s].HasCollision() ==> tbl'[s].HasCollision()
    requires forall s: nat :: s < |tbl| && tbl'[s].IsLive() ==>
               || (tbl[s].IsLive() && tbl[s].StoredHash() == tbl'[s].StoredHash())
               || PathMarked(tbl', n, tbl'[s].StoredHash(), s)
    ensures ProbePaths(tbl', n)
  {
    forall s: nat | s < |tbl'| && tbl'[s].IsLive()
      ensures PathMarked(tbl', n, tbl'[s].StoredHash(), s)
    {
      if tbl[s].IsLive() && tbl[s].StoredHash() == tbl'[s].StoredHash() {
        assert PathMarked(tbl, n, tbl[s].StoredHash(), s);
      }
    }
  }

  // ----- The map a storage stands for -----

  ghost predicate HoldsKey<K, V>(tbl: seq<Entry<K, V>>, s: int, k: K) {
    0 <= s < |tbl| && tbl[s].IsLive() && tbl[s].key == k
  }

  /** The live entries are exactly the bindings of m, each key once. */
  ghost predicate Represents<K, V>(tbl: seq<Entry<K, V>>, m: map<K, V>) {
    && (forall s :: 0 <= s < |tbl| && tbl[s].IsLive() ==> tbl[s].key in m && m[tbl[s].key] == tbl[s].value)
    && (forall k :: k in m ==> exists s :: HoldsKey(tbl, s, k))
    && (forall s, t :: 0 <= s < t < |tbl| && tbl[s].IsLive() && tbl[t].IsLive() ==> tbl[s].key != tbl[t].key)
  }

  /** A storage that answers for the map m. */
  ghost predicate Good<K, V>(tbl: seq<Entry<K, V>>, n: nat, hash: K -> Word32, m: map<K, V>) {
    Sized(tbl, n) && ProbePaths(tbl, n) && Hashed(tbl, hash) && Represents(tbl, m)
  }

  lemma RepresentsUnique<K, V>(tbl: seq<Entry<K, V>>, m: map<K, V>, m': map<K, V>)
    requires Represents(tbl, m) && Represents(tbl, m')
    ensures m == m'
  {
    forall k | k in m ensures k in m' && m'[k] == m[k] {
      var s :| HoldsKey(tbl, s, k);
    }
    forall k | k in m' ensures k in m {
      var s :| HoldsKey(tbl, s, k);
    }
  }

  /** Changing only hashes, not liveness, keys or values, keeps the map. */
  lemma RepresentsRemarked<K, V>(tbl: seq<Entry<K, V>>, tbl': seq<Entry<K, V>>, m: map<K, V>)
    requires Represents(tbl, m) && |tbl| == |tbl'|
    requires forall s :: 0 <= s < |tbl| ==> tbl'[s].IsLive() == tbl[s].IsLive()
    requires forall s :: 0 <= s < |tbl| && tbl[s].IsLive() ==>
               tbl'[s].key == tbl[s].key && tbl'[s].value == tbl[s].value
    ensures Represents(tbl', m)
  {
    forall k | k in m ensures exists s :: HoldsKey(tbl', s, k) {
      var s :| HoldsKey(tbl, s, k);
      assert HoldsKey(tbl', s, k);
    }
  }

  lemma RepresentsPlaced<K, V>(tbl: seq<Entry<K, V>>, m: map<K, V>, s: nat, e: Entry<K, V>)
    requires Represents(tbl, m) && s < |tbl| && !tbl[s].IsLive() && e.IsLive() && e.key !in m
    ensures Represents(tbl[s := e], m[e.key := e.value])
  {
    var tbl', m' := tbl[s := e], m[e.key := e.value];
    forall k | k in m' ensures exists t :: HoldsKey(tbl', t, k) {
      if k == e.key {
        assert HoldsKey(tbl', s, k);
      } else {
        var t :| HoldsKey(tbl, t, k);
        assert HoldsKey(tbl', t, k);
      }
    }
  }

  lemma RepresentsUpdated<K, V>(tbl: seq<Entry<K, V>>, m: map<K, V>, s: nat, v: V)
    requires Represents(tbl, m) && s < |tbl| && tbl[s].IsLive()
    ensures tbl[s].key in m && Represents(tbl[s := tbl[s].(value := v)], m[tbl[s].key := v])
  {
    var tbl', m' := tbl[s := tbl[s].(value := v)], m[tbl[s].key := v];
    assert forall t :: 0 <= t < |tbl| ==> tbl'[t].keyHash == tbl[t].keyHash && tbl'[t].key == tbl[t].key;
    forall t | 0 <= t < |tbl'| && tbl'[t].IsLive() ensures tbl'[t].key in m' && m'[tbl'[t].key] == tbl'[t].value {
      assert tbl[t].IsLive();
    }
    forall k | k in m' ensures exists t :: HoldsKey(tbl', t, k) {
      var t :| HoldsKey(tbl, t, k);
      assert HoldsKey(tbl', t, k);
    }
  }

  lemma RepresentsErased<K, V>(tbl: seq<Entry<K, V>>, m: map<K, V>, s: nat, e: Entry<K, V>)
    requires Represents(tbl, m) && s < |tbl| && tbl[s].IsLive() && !e.IsLive()
    ensures tbl[s].key in m && Represents(tbl[s := e], m - {tbl[s].key})
  {
    var tbl', m' := tbl[s := e], m - {tbl[s].key};
    forall k | k in m' ensures exists t :: HoldsKey(tbl', t, k) {
      var t :| HoldsKey(tbl, t, k);
      assert HoldsKey(tbl', t, k);
    }
    forall t | 0 <= t < |tbl'| && tbl'[t].IsLive() ensures tbl'[t].key != tbl[s].key {
      assert tbl[t].IsLive();
    }
  }

  lemma RepresentsSwapped<K, V>(tbl: seq<Entry<K, V>>, m: map<K, V>, i: nat, j: nat)
    requires Represents(tbl, m) && i < |tbl| && j < |tbl|
    ensures Represents(tbl[i := tbl[j]][j := tbl[i]], m)
  {
    var tbl' := tbl[i := tbl[j]][j := tbl[i]];
    forall k | k in m ensures exists t :: HoldsKey(tbl', t, k) {
      var t :| HoldsKey(tbl, t, k);
      assert HoldsKey(tbl', if t == i then j else if t == j then i else t, k);
    }
  }

  lemma RepresentsEmpty<K, V>(tbl: seq<Entry<K, V>>)
    requires forall s :: 0 <= s < |tbl| ==> !tbl[s].IsLive()
    ensures Represents(tbl, map[])
  {
  }

  /** Growing a prefix by one slot. */
  lemma LiveKeysDiffer<K, V>(tbl: seq<Entry<K, V>>, m: map<K, V>)
    requires Represents(tbl, m)
    ensures forall s, t :: 0 <= s < t < |tbl| && tbl[s].IsLive() && tbl[t].IsLive() ==> tbl[s].key != tbl[t].key
  {
  }

  lemma RepresentsNext<K, V>(tbl: seq<Entry<K, V>>, m: map<K, V>, i: nat)
    requires i < |tbl| && Represents(tbl[..i], m)
    requires forall s, t :: 0 <= s < t < |tbl| && tbl[s].IsLive() && tbl[t].IsLive() ==> tbl[s].key != tbl[t].key
    ensures tbl[i].IsLive() ==> tbl[i].key !in m
    ensures Represents(tbl[..i + 1], if tbl[i].IsLive() then m[tbl[i].key := tbl[i].value] else m)
  {
    var pre, pre' := tbl[..i], tbl[..i + 1];
    assert pre' == pre + [tbl[i]];
    assert tbl[i].IsLive() ==> tbl[i].key !in m;
    var m' := if tbl[i].IsLive() then m[tbl[i].key := tbl[i].value] else m;
    forall k | k in m' ensures exists s :: HoldsKey(pre', s, k) {
      if k in m {
        var s :| HoldsKey(pre, s, k);
        assert HoldsKey(pre', s, k);
      } else {
        assert HoldsKey(pre', i, k);
      }
    }
    forall s | 0 <= s < |pre'| && pre'[s].IsLive() ensures pre'[s].key in m' && m'[pre'[s].key] == pre'[s].value {
      if s < i { assert pre[s].IsLive(); }
    }
  }

  /** Every entry of before whose key is not among those gone sits unmoved in after. */
  ghost predicate KeepsSlots<K, V>(before: seq<Entry<K, V>>, after: seq<Entry<K, V>>, gone: set<K>) {
    && |after| == |before|
    && forall s :: 0 <= s < |before| && before[s].IsLive() && before[s].key !in gone ==>
         HoldsKey(after, s, before[s].key)
  }

  lemma KeepsReflexive<K, V>(tbl: seq<Entry<K, V>>, gone: set<K>)
    ensures KeepsSlots(tbl, tbl, gone)
  {
  }

  lemma KeepsTransitive<K, V>(a: seq<Entry<K, V>>, b: seq<Entry<K, V>>, c: seq<Entry<K, V>>, gone: set<K>)
    requires KeepsSlots(a, b, gone) && KeepsSlots(b, c, gone)
    ensures KeepsSlots(a, c, gone)
  {
    forall s | 0 <= s < |a| && a[s].IsLive() && a[s].key !in gone ensures HoldsKey(c, s, a[s].key) {
      assert HoldsKey(b, s, a[s].key);
    }
  }

  // ----- Counting slots -----

  ghost function LiveSlots<K, V>(tbl: seq<Entry<K, V>>): set<int> {
    set s | 0 <= s < |tbl| && tbl[s].IsLive()
  }

  ghost function RemovedSlots<K, V>(tbl: seq<Entry<K, V>>): set<int> {
    set s | 0 <= s < |tbl| && tbl[s].IsRemoved()
  }

  lemma {:induction false} LiveCount<K, V>(tbl: seq<Entry<K, V>>, m: map<K, V>)
    requires Represents(tbl, m)
    ensures |LiveSlots(tbl)| == |m|
  {
    if tbl == [] {
      RepresentsEmpty(tbl);
      RepresentsUnique(tbl, m, map[]);
    } else {
      var i := |tbl| - 1;
      RepresentsPrefix(tbl, m);
      LiveCount(tbl[..i], if tbl[i].IsLive() then m - {tbl[i].key} else m);
      LiveSlotsNext(tbl);
      if tbl[i].IsLive() { MapShrinks(m, tbl[i].key); }
    }
  }

  lemma LiveSlotsNext<K, V>(tbl: seq<Entry<K, V>>)
    requires |tbl| > 0
    ensures var i := |tbl| - 1;
            |LiveSlots(tbl)| == |LiveSlots(tbl[..i])| + if tbl[i].IsLive() then 1 else 0
  {
    var i := |tbl| - 1;
    assert LiveSlots(tbl) == LiveSlots(tbl[..i]) + if tbl[i].IsLive() then {i} else {};
  }

  lemma MapShrinks<K, V>(m: map<K, V>, k: K)
    requires k in m
    ensures |m - {k}| == |m| - 1
  {
    assert (m - {k}).Keys == m.Keys - {k};
    assert |m.Keys| == |m| && |(m - {k}).Keys| == |m - {k}|;
  }

  lemma RepresentsPrefix<K, V>(tbl: seq<Entry<K, V>>, m: map<K, V>)
    requires |tbl| > 0 && Represents(tbl, m)
    ensures var last := tbl[|tbl| - 1];
            Represents(tbl[..|tbl| - 1], if last.IsLive() then m - {last.key} else m)
  {
    var pre, last := tbl[..|tbl| - 1], tbl[|tbl| - 1];
    var m' := if last.IsLive() then m - {last.key} else m;
    forall k | k in m' ensures exists s :: HoldsKey(pre, s, k) {
      var s :| HoldsKey(tbl, s, k);
      assert HoldsKey(pre, s, k);
    }
    forall s | 0 <= s < |pre| && pre[s].IsLive() ensures pre[s].key in m' {
      assert tbl[s].IsLive();
    }
  }

  /** While some slot is neither live nor a tombstone, a search can stop. */
  lemma FreeSlotExists<K, V>(tbl: seq<Entry<K, V>>, m: map<K, V>) returns (s: nat)
    requires Represents(tbl, m) && |m| + |RemovedSlots(tbl)| < |tbl|
    ensures s < |tbl| && tbl[s].IsFree()
  {
    LiveCount(tbl, m);
    var used := LiveSlots(tbl) + RemovedSlots(tbl);
    assert LiveSlots(tbl) * RemovedSlots(tbl) == {};
    s := SlotOutside(used, |tbl|);
  }

  lemma NonLiveSlotExists<K, V>(tbl: seq<Entry<K, V>>, m: map<K, V>) returns (s: nat)
    requires Represents(tbl, m) && |m| < |tbl|
    ensures s < |tbl| && !tbl[s].IsLive()
  {
    LiveCount(tbl, m);
    s := SlotOutside(LiveSlots(tbl), |tbl|);
  }

  lemma {:induction false} SlotOutside(used: set<int>, n: nat) returns (s: nat)
    requires |used| < n
    ensures s < n && s !in used
  {
    if n - 1 !in used {
      s := n - 1;
    } else {
      s := SlotOutside(used - {n - 1}, n - 1);
    }
  }

  lemma LiveRemovedBound<K, V>(tbl: seq<Entry<K, V>>, m: map<K, V>)
    requires Represents(tbl, m)
    ensures |m| + |RemovedSlots(tbl)| <= |tbl|
  {
    LiveCount(tbl, m);
    var used := LiveSlots(tbl) + RemovedSlots(tbl);
    assert LiveSlots(tbl) * RemovedSlots(tbl) == {};
    if |used| > |tbl| { SetBound(used, |tbl|); }
  }

  lemma {:induction false} SetBound(used: set<int>, n: nat)
    requires forall s: int :: s in used ==> 0 <= s < n
    ensures |used| <= n
    decreases n
  {
    if n > 0 {
      SetBound(used - {n - 1}, n - 1);
    } else {
      assert forall s :: s !in used;
    }
  }

  // ----- Searching -----

  predicate Hit<K(==), V>(e: Entry<K, V>, hn: Word32, k: K) {
    e.MatchHash(hn) && e.key == k
  }

  lemma FreeIsNoHit<K, V>(e: Entry<K, V>, hn: Word32, k: K)
    requires Storable(hn) && e.IsFree()
    ensures !Hit(e, hn, k)
  {
  }

  ghost predicate StopsAt<K, V>(tbl: seq<Entry<K, V>>, n: nat, hn: Word32, k: K, j: nat)
    requires Sized(tbl, n)
  {
    var e := tbl[Probe(hn, n, j)];
    e.IsFree() || Hit(e, hn, k)
  }

  /** The search for k stops after exactly j collisions. */
  ghost predicate SearchEnds<K, V>(tbl: seq<Entry<K, V>>, n: nat, hn: Word32, k: K, j: nat)
    requires Sized(tbl, n)
  {
    && j < |tbl|
    && StopsAt(tbl, n, hn, k, j)
    && forall i: nat :: i < j ==> !StopsAt(tbl, n, hn, k, i)
  }

  /** The first slot on the probe path that is not live. */
  ghost predicate FirstNonLive<K, V>(tbl: seq<Entry<K, V>>, n: nat, hn: Word32, j: nat)
    requires Sized(tbl, n)
  {
    && j < |tbl|
    && !tbl[Probe(hn, n, j)].IsLive()
    && forall i: nat :: i < j ==> tbl[Probe(hn, n, i)].IsLive()
  }

  lemma FirstNonLiveHere<K, V>(tbl: seq<Entry<K, V>>, n: nat, hn: Word32, j: nat)
    requires Sized(tbl, n) && FirstNonLive(tbl, n, hn, j)
    ensures j < |tbl| && !tbl[Probe(hn, n, j)].IsLive()
  {
  }

  lemma FirstNonLiveUnique<K, V>(tbl: seq<Entry<K, V>>, n: nat, hn: Word32, i: nat, j: nat)
    requires Sized(tbl, n) && FirstNonLive(tbl, n, hn, i) && FirstNonLive(tbl, n, hn, j)
    ensures i == j
  {
    hide Probe;
    assert !(i < j) && !(j < i);
  }

  /** What a search remembers of its first j probes: the first slot not live, or -1 for none. */
  ghost predicate FirstSeen<K, V>(tbl: seq<Entry<K, V>>, n: nat, hn: Word32, i: nat, j: nat, seen: int)
    requires Sized(tbl, n)
  {
    if seen == -1 then forall t: nat :: t < j ==> tbl[Probe(hn, n, t)].IsLive()
    else i < j && FirstNonLive(tbl, n, hn, i) && seen == Probe(hn, n, i)
  }

  lemma FirstSeenStart<K, V>(tbl: seq<Entry<K, V>>, n: nat, hn: Word32)
    requires Sized(tbl, n)
    ensures FirstSeen(tbl, n, hn, 0, 0, -1)
  {
  }

  lemma FirstSeenNext<K, V>(tbl: seq<Entry<K, V>>, n: nat, hn: Word32, i: nat, j: nat, seen: int)
    requires Sized(tbl, n) && j < |tbl| && FirstSeen(tbl, n, hn, i, j, seen) && !tbl[Probe(hn, n, j)].IsFree()
    ensures if tbl[Probe(hn, n, j)].IsRemoved() && seen == -1
            then FirstSeen(tbl, n, hn, j, j + 1, Probe(hn, n, j))
            else FirstSeen(tbl, n, hn, i, j + 1, seen)
  {
  }

  lemma FirstSeenDone<K, V>(tbl: seq<Entry<K, V>>, n: nat, hn: Word32, i: nat, j: nat, seen: int)
    requires Sized(tbl, n) && j < |tbl| && FirstSeen(tbl, n, hn, i, j, seen) && tbl[Probe(hn, n, j)].IsFree()
    ensures if seen == -1 then FirstNonLive(tbl, n, hn, j)
            else i < j && FirstNonLive(tbl, n, hn, i) && seen == Probe(hn, n, i)
  {
  }

  /** after is before with the collision bit set on the live entries among the first j probes. */
  ghost predicate MarkedUpTo<K, V>(before: seq<Entry<K, V>>, after: seq<Entry<K, V>>, n: nat, hn: Word32, j: nat)
    requires Sized(before, n)
  {
    && |after| == |before|
    && forall s: nat :: s < |before| ==>
         after[s] == if before[s].IsLive() && Rank(hn, n, s) < j then before[s].SetCollision() else before[s]
  }

  lemma MarkNext<K, V>(before: seq<Entry<K, V>>, after: seq<Entry<K, V>>, n: nat, hn: Word32, j: nat)
    requires Sized(before, n) && j < |before| && MarkedUpTo(before, after, n, hn, j)
    ensures var s := Probe(hn, n, j);
            && after[s] == before[s]
            && var next := if before[s].IsLive() then after[s := after[s].SetCollision()] else after;
               MarkedUpTo(before, next, n, hn, j + 1)
  {
    RankOfProbe(hn, n, j);
  }

  lemma MarkStart<K, V>(before: seq<Entry<K, V>>, n: nat, hn: Word32)
    requires Sized(before, n)
    ensures MarkedUpTo(before, before, n, hn, 0)
  {
  }

  /**
   * What a marking search for k does: it marks what it passes, and returns the slot of k, or the first slot
   * not live, which may come before the free slot that ended the search.
   */
  ghost predicate SearchLeaves<K, V>(before: seq<Entry<K, V>>, after: seq<Entry<K, V>>, n: nat, hn: Word32, k: K,
                                     slot: nat)
    requires Sized(before, n)
  {
    exists i: nat, j: nat ::
      && SearchEnds(before, n, hn, k, j) && MarkedUpTo(before, after, n, hn, j)
      && (if Hit(before[Probe(hn, n, j)], hn, k) then i == j else i <= j && FirstNonLive(before, n, hn, i))
      && slot == Probe(hn, n, i)
  }

  /** Marking does not move the first slot that is not live. */
  lemma MarkingKeepsFirst<K, V>(before: seq<Entry<K, V>>, after: seq<Entry<K, V>>, n: nat, hn: Word32, j: nat, t: nat)
    requires Sized(before, n) && MarkedUpTo(before, after, n, hn, j)
    ensures Sized(after, n)
    ensures FirstNonLive(after, n, hn, t) <==> FirstNonLive(before, n, hn, t)
    ensures after[Probe(hn, n, t)].IsRemoved() == before[Probe(hn, n, t)].IsRemoved()
  {
    MarkedShape(before, after, n, hn, j);
    hide Probe, MarkedUpTo;
  }

  /** The only slot not live that the search for an absent key can stop at decides if a tombstone is reused. */
  lemma StopsAtTombstone<K, V>(before: seq<Entry<K, V>>, after: seq<Entry<K, V>>, n: nat, hn: Word32, i: nat, j: nat)
    requires Sized(before, n) && FirstNonLive(before, n, hn, i) && i <= j && MarkedUpTo(before, after, n, hn, j)
    ensures |after| == |before|
    ensures after[Probe(hn, n, i)].IsRemoved()
       <==> exists t: nat :: FirstNonLive(before, n, hn, t) && before[Probe(hn, n, t)].IsRemoved()
  {
    hide Probe;
    forall t: nat | FirstNonLive(before, n, hn, t) ensures t == i { FirstNonLiveUnique(before, n, hn, t, i); }
  }

  /** The one outcome of marking the live entries among the first j probes. */
  ghost function Marked<K, V>(tbl: seq<Entry<K, V>>, n: nat, hn: Word32, j: nat): (after: seq<Entry<K, V>>)
    requires Sized(tbl, n)
    ensures MarkedUpTo(tbl, after, n, hn, j)
  {
    seq(|tbl|, s requires 0 <= s < |tbl| =>
      if tbl[s].IsLive() && Rank(hn, n, s) < j then tbl[s].SetCollision() else tbl[s])
  }

  /** A new entry in a slot that is not live; over a tombstone it gets the collision bit. */
  function Filled<K, V>(tbl: seq<Entry<K, V>>, s: nat, hn: Word32, k: K, v: V): (after: seq<Entry<K, V>>)
    requires s < |tbl| && Storable(hn)
    ensures |after| == |tbl|
  {
    tbl[s := Entry(if tbl[s].IsRemoved() then hn + 1 else hn, k, v)]
  }

  /** The storage after findFreeEntry for e and filling the slot it stops at. */
  ghost function Insert<K, V>(tbl: seq<Entry<K, V>>, n: nat, e: Entry<K, V>): (after: seq<Entry<K, V>>)
    requires Sized(tbl, n) && Storable(e.StoredHash())
    ensures |after| == |tbl|
  {
    var hn := e.StoredHash();
    if exists j: nat :: FirstNonLive(tbl, n, hn, j) then
      var j: nat :| FirstNonLive(tbl, n, hn, j);
      Filled(Marked(tbl, n, hn, j), Probe(hn, n, j), hn, e.key, e.value)
    else
      tbl
  }

  lemma InsertIs<K, V>(tbl: seq<Entry<K, V>>, n: nat, e: Entry<K, V>, j: nat, marked: seq<Entry<K, V>>)
    requires Storable(e.StoredHash())
    requires Sized(tbl, n) && FirstNonLive(tbl, n, e.StoredHash(), j) && MarkedUpTo(tbl, marked, n, e.StoredHash(), j)
    ensures Insert(tbl, n, e) == Filled(marked, Probe(e.StoredHash(), n, j), e.StoredHash(), e.key, e.value)
  {
    hide Probe, MarkedUpTo;
    var hn := e.StoredHash();
    var i: nat :| FirstNonLive(tbl, n, hn, i)
      && Insert(tbl, n, e) == Filled(Marked(tbl, n, hn, i), Probe(hn, n, i), hn, e.key, e.value);
    FirstNonLiveUnique(tbl, n, hn, i, j);
    MarkingDeterministic(tbl, marked, Marked(tbl, n, hn, j), n, hn, j);
  }

  /** A storage of copies of one entry. */
  ghost function Blank<K, V>(e: Entry<K, V>, length: nat): (tbl: seq<Entry<K, V>>)
    ensures |tbl| == length && forall s :: 0 <= s < length ==> tbl[s] == e
  {
    seq(length, _ => e)
  }

  /** The storage built by inserting the live entries of src, in the order of their slots, into empty. */
  ghost function Reinserted<K, V>(src: seq<Entry<K, V>>, empty: seq<Entry<K, V>>, n: nat): (tbl: seq<Entry<K, V>>)
    requires Sized(empty, n)
    ensures |tbl| == |empty|
  {
    if src == [] then empty
    else
      var before, e := Reinserted(src[..|src| - 1], empty, n), src[|src| - 1];
      if e.IsLive() then Insert(before, n, e) else before
  }

  lemma StoredUnderItsHash<K, V>(tbl: seq<Entry<K, V>>, hash: K -> Word32, i: nat)
    requires Hashed(tbl, hash) && i < |tbl| && tbl[i].IsLive()
    ensures tbl[i].StoredHash() == PrepareHash(hash(tbl[i].key))
  {
  }

  lemma ReinsertedNone<K, V>(empty: seq<Entry<K, V>>, n: nat)
    requires Sized(empty, n)
    ensures Reinserted([], empty, n) == empty
  {
  }

  /** Only the hash an entry was stored under matters, not its collision bit. */
  lemma InsertUnmarked<K, V>(tbl: seq<Entry<K, V>>, n: nat, e: Entry<K, V>)
    requires Sized(tbl, n) && Storable(e.StoredHash())
    ensures Insert(tbl, n, e.UnsetCollision()) == Insert(tbl, n, e)
  {
    hide Probe, MarkedUpTo, FirstNonLive;
    var hn := e.StoredHash();
    if j: nat :| FirstNonLive(tbl, n, hn, j) {
      InsertIs(tbl, n, e, j, Marked(tbl, n, hn, j));
      InsertIs(tbl, n, e.UnsetCollision(), j, Marked(tbl, n, hn, j));
    }
  }

  lemma ReinsertedNext<K, V>(src: seq<Entry<K, V>>, empty: seq<Entry<K, V>>, n: nat, i: nat)
    requires Sized(empty, n) && i < |src|
    ensures Reinserted(src[..i + 1], empty, n)
         == var before := Reinserted(src[..i], empty, n);
            if src[i].IsLive() then Insert(before, n, src[i]) else before
  {
    assert src[..i + 1][..i] == src[..i];
  }

  /** The slot about to be probed is still as it was. */
  lemma MarkedHere<K, V>(before: seq<Entry<K, V>>, after: seq<Entry<K, V>>, n: nat, hn: Word32, j: nat)
    requires Sized(before, n) && j < |before| && MarkedUpTo(before, after, n, hn, j)
    ensures |after| == |before| && after[Probe(hn, n, j)] == before[Probe(hn, n, j)]
  {
    RankOfProbe(hn, n, j);
  }

  /** Marking a path keeps the map, the hashes, the tombstones and the probe-path invariant. */
  lemma MarkingIsHarmless<K, V>(before: seq<Entry<K, V>>, after: seq<Entry<K, V>>, n: nat, hn: Word32, j: nat,
                                m: map<K, V>, hash: K -> Word32)
    requires Good(before, n, hash, m) && MarkedUpTo(before, after, n, hn, j)
    ensures Good(after, n, hash, m)
    ensures RemovedSlots(after) == RemovedSlots(before)
  {
    MarkedShape(before, after, n, hn, j);
    MarksGrow(before, after, n);
    RepresentsRemarked(before, after, m);
  }

  lemma MarkingKeeps<K, V>(before: seq<Entry<K, V>>, after: seq<Entry<K, V>>, n: nat, hn: Word32, j: nat,
                           gone: set<K>)
    requires Sized(before, n) && MarkedUpTo(before, after, n, hn, j)
    ensures KeepsSlots(before, after, gone) && KeepsSlots(after, before, gone)
  {
    hide Probe;
  }

  lemma MarkedShape<K, V>(before: seq<Entry<K, V>>, after: seq<Entry<K, V>>, n: nat, hn: Word32, j: nat)
    requires Sized(before, n) && MarkedUpTo(before, after, n, hn, j)
    ensures |after| == |before|
    ensures forall s :: 0 <= s < |before| ==>
              && after[s].IsLive() == before[s].IsLive()
              && after[s].IsRemoved() == before[s].IsRemoved()
              && after[s].StoredHash() == before[s].StoredHash()
              && after[s].key == before[s].key && after[s].value == before[s].value
              && (before[s].HasCollision() ==> after[s].HasCollision())
  {
    hide Probe;
  }

  /** A search that stops has decided membership: it hits if and only if the key is in the map. */
  lemma SearchDecides<K, V>(tbl: seq<Entry<K, V>>, n: nat, hash: K -> Word32, m: map<K, V>, k: K, j: nat)
    requires Good(tbl, n, hash, m)
    requires SearchEnds(tbl, n, PrepareHash(hash(k)), k, j)
    ensures var e := tbl[Probe(PrepareHash(hash(k)), n, j)];
            if k in m then e.IsLive() && e.key == k && e.value == m[k] else e.IsFree()
  {
    var hn := PrepareHash(hash(k));
    if k in m {
      var s: nat :| HoldsKey(tbl, s, k);
      var r := Rank(hn, n, s);
      assert PathMarked(tbl, n, hn, s);
      if j < r {
        assert tbl[Probe(hn, n, j)].HasCollision();
      } else if r < j {
        assert StopsAt(tbl, n, hn, k, r);
      }
    }
  }

  lemma MissIsNoHit<K, V>(tbl: seq<Entry<K, V>>, n: nat, hn: Word32, k: K, j: nat)
    requires Sized(tbl, n) && Storable(hn) && tbl[Probe(hn, n, j)].IsFree()
    ensures !Hit(tbl[Probe(hn, n, j)], hn, k)
  {
  }

  /** A missing key's first slot that is not live can take it, once the searched path is marked. */
  lemma MissLeavesRoom<K, V>(before: seq<Entry<K, V>>, after: seq<Entry<K, V>>, n: nat, hash: K -> Word32,
                             m: map<K, V>, k: K, i: nat, j: nat)
    requires Good(before, n, hash, m) && k !in m
    requires i <= j < |before| && FirstNonLive(before, n, PrepareHash(hash(k)), i)
    requires MarkedUpTo(before, after, n, PrepareHash(hash(k)), j)
    ensures var s := Probe(PrepareHash(hash(k)), n, i);
            |after| == |before| && !after[s].IsLive() && PathMarked(after, n, PrepareHash(hash(k)), s)
  {
    hide Probe, ProbePaths, Represents, Hashed, PathMarked, MarkedUpTo, PrepareHash;
    FirstNonLiveHere(before, n, PrepareHash(hash(k)), i);
    FirstNonLivePath(before, after, n, PrepareHash(hash(k)), i, j);
  }

  /** With a free slot or the key's entry somewhere, the search stops within capacity-many probes. */
  lemma SearchStops<K, V>(tbl: seq<Entry<K, V>>, n: nat, hn: Word32, k: K, stop: nat) returns (j: nat)
    requires Sized(tbl, n) && stop < |tbl| && (tbl[stop].IsFree() || Hit(tbl[stop], hn, k))
    ensures SearchEnds(tbl, n, hn, k, j)
  {
    j := 0;
    assert StopsAt(tbl, n, hn, k, Rank(hn, n, stop));
    while !StopsAt(tbl, n, hn, k, j)
      invariant j <= Rank(hn, n, stop)
      invariant forall i: nat :: i < j ==> !StopsAt(tbl, n, hn, k, i)
      decreases Rank(hn, n, stop) - j
    {
      j := j + 1;
    }
  }

  /**
   * Also when rekeying has used up the free slots for the moment, the search for k ends exactly if k is
   * in the table or some slot is free, and then within capacity-many probes.
   */
  lemma SearchEndsExactly<K, V>(tbl: seq<Entry<K, V>>, n: nat, hash: K -> Word32, m: map<K, V>, k: K)
    requires Good(tbl, n, hash, m)
    ensures (exists j: nat :: SearchEnds(tbl, n, PrepareHash(hash(k)), k, j))
       <==> k in m || exists s: nat :: s < |tbl| && tbl[s].IsFree()
    ensures (exists j: nat :: StopsAt(tbl, n, PrepareHash(hash(k)), k, j))
       <==> k in m || exists s: nat :: s < |tbl| && tbl[s].IsFree()
  {
    hide Probe, ProbePaths, PrepareHash;
    var hn := PrepareHash(hash(k));
    if j: nat :| StopsAt(tbl, n, hn, k, j) {
      var e := tbl[Probe(hn, n, j)];
      if !e.IsFree() { assert HoldsKey(tbl, Probe(hn, n, j), k) by { LiveWhenHit(e, hn, k, hash); } }
    }
    if k in m {
      var s :| HoldsKey(tbl, s, k);
      var j := SearchStops(tbl, n, hn, k, s);
    } else if s: nat :| s < |tbl| && tbl[s].IsFree() {
      var j := SearchStops(tbl, n, hn, k, s);
    }
  }

  lemma LiveWhenHit<K, V>(e: Entry<K, V>, hn: Word32, k: K, hash: K -> Word32)
    requires Hit(e, hn, k) && hn == PrepareHash(hash(k))
    ensures e.IsLive() && e.key == k
  {
  }

  /** The slot findFreeEntry stops at is reached over marked slots once the path is marked. */
  lemma FirstNonLivePath<K, V>(before: seq<Entry<K, V>>, after: seq<Entry<K, V>>, n: nat, hn: Word32, i: nat, j: nat)
    requires Sized(before, n) && MarkedUpTo(before, after, n, hn, j) && i <= j < |before|
    requires FirstNonLive(before, n, hn, i)
    ensures Sized(after, n) && after[Probe(hn, n, i)] == before[Probe(hn, n, i)]
    ensures PathMarked(after, n, hn, Probe(hn, n, i))
  {
    hide Probe;
    RankOfProbe(hn, n, i);
    forall t: nat | t < i ensures after[Probe(hn, n, t)].HasCollision() {
      RankOfProbe(hn, n, t);
    }
  }

  /** A slot reached over marked slots can take a new entry; over a tombstone it stays marked. */
  lemma PlacingIsSafe<K, V>(tbl: seq<Entry<K, V>>, n: nat, hash: K -> Word32, m: map<K, V>, s: nat, e: Entry<K, V>)
    requires Good(tbl, n, hash, m)
    requires s < |tbl| && !tbl[s].IsLive() && e.IsLive() && e.key !in m
    requires e.StoredHash() == PrepareHash(hash(e.key)) && PathMarked(tbl, n, e.StoredHash(), s)
    requires tbl[s].IsRemoved() ==> e.HasCollision()
    ensures Good(tbl[s := e], n, hash, m[e.key := e.value])
    ensures |RemovedSlots(tbl[s := e])| == |RemovedSlots(tbl)| - if tbl[s].IsRemoved() then 1 else 0
    ensures |m[e.key := e.value]| == |m| + 1 && |m| + 1 + |RemovedSlots(tbl[s := e])| <= |tbl|
    ensures HoldsKey(tbl[s := e], s, e.key)
    ensures KeepsSlots(tbl, tbl[s := e], {}) && KeepsSlots(tbl[s := e], tbl, {e.key})
  {
    MarksGrow(tbl, tbl[s := e], n) by {
      assert PathMarked(tbl[s := e], n, e.StoredHash(), s) by {
        forall j: nat | j < Rank(e.StoredHash(), n, s) ensures Probe(e.StoredHash(), n, j) != s {
          RankOfProbe(e.StoredHash(), n, j);
        }
      }
    }
    RepresentsPlaced(tbl, m, s, e);
    RemovedCountAfter(tbl, s, e);
    LiveRemovedBound(tbl[s := e], m[e.key := e.value]);
  }

  lemma RemovedCountAfter<K, V>(tbl: seq<Entry<K, V>>, s: nat, e: Entry<K, V>)
    requires s < |tbl|
    ensures |RemovedSlots(tbl[s := e])| + (if tbl[s].IsRemoved() then 1 else 0)
         == |RemovedSlots(tbl)| + if e.IsRemoved() then 1 else 0
  {
    var rest := RemovedSlots(tbl) - {s};
    assert RemovedSlots(tbl) == if tbl[s].IsRemoved() then rest + {s} else rest;
    assert RemovedSlots(tbl[s := e]) == if e.IsRemoved() then rest + {s} else rest;
  }

  /** Freeing an unmarked entry, or leaving a tombstone for a marked one, is safe. */
  lemma ErasingIsSafe<K, V>(tbl: seq<Entry<K, V>>, n: nat, hash: K -> Word32, m: map<K, V>, s: nat, e: Entry<K, V>)
    requires Good(tbl, n, hash, m)
    requires s < |tbl| && tbl[s].IsLive()
    requires if tbl[s].HasCollision() then e.IsRemoved() else e.IsFree()
    ensures Good(tbl[s := e], n, hash, m - {tbl[s].key})
    ensures |RemovedSlots(tbl[s := e])| == |RemovedSlots(tbl)| + if e.IsRemoved() then 1 else 0
    ensures |m - {tbl[s].key}| == |m| - 1 && |m| - 1 + |RemovedSlots(tbl[s := e])| <= |tbl|
    ensures tbl[s].key in m && KeepsSlots(tbl, tbl[s := e], {tbl[s].key})
  {
    hide Probe, PathMarked, Represents, RemovedSlots;
    MarksGrow(tbl, tbl[s := e], n);
    RepresentsErased(tbl, m, s, e);
    RemovedCountAfter(tbl, s, e);
    MapShrinks(m, tbl[s].key);
    LiveRemovedBound(tbl[s := e], m - {tbl[s].key});
  }

  /** Overwriting the value of a live entry only changes that binding. */
  lemma UpdatingIsSafe<K, V>(tbl: seq<Entry<K, V>>, n: nat, hash: K -> Word32, m: map<K, V>, s: nat, v: V)
    requires Good(tbl, n, hash, m) && s < |tbl| && tbl[s].IsLive()
    ensures var tbl' := tbl[s := tbl[s].(value := v)];
            && Good(tbl', n, hash, m[tbl[s].key := v])
            && |RemovedSlots(tbl')| == |RemovedSlots(tbl)|
            && tbl[s].key in m && |m[tbl[s].key := v]| == |m|
            && KeepsSlots(tbl, tbl', {})
  {
    hide Probe, PathMarked, Represents, RemovedSlots;
    MarksGrow(tbl, tbl[s := tbl[s].(value := v)], n);
    RepresentsUpdated(tbl, m, s, v);
    RemovedCountAfter(tbl, s, tbl[s].(value := v));
    assert m[tbl[s].key := v].Keys == m.Keys;
    assert |m.Keys| == |m| && |m[tbl[s].key := v].Keys| == |m[tbl[s].key := v]|;
  }

  // ----- Rehashing in place -----

  /**
   * Midway through an in-place rehash the collision bit means "already placed": such an entry is
   * live and everything probed before it is placed too.
   */
  ghost predicate PlacedPaths<K, V>(tbl: seq<Entry<K, V>>, n: nat)
    requires Sized(tbl, n)
  {
    forall s: nat :: s < |tbl| && tbl[s].HasCollision() ==>
      tbl[s].IsLive() && PathMarked(tbl, n, tbl[s].StoredHash(), s)
  }

  ghost function Unplaced<K, V>(tbl: seq<Entry<K, V>>): set<int> {
    set s | 0 <= s < |tbl| && tbl[s].IsLive() && !tbl[s].HasCollision()
  }

  function PlaceBySwap<K, V>(tbl: seq<Entry<K, V>>, i: nat, t: nat): seq<Entry<K, V>>
    requires i < |tbl| && t < |tbl|
  {
    tbl[i := tbl[t]][t := tbl[i].SetCollision()]
  }

  /** Swapping an unplaced entry into the first unplaced slot of its path places exactly one entry. */
  lemma PlaceBySwapStep<K, V>(tbl: seq<Entry<K, V>>, n: nat, hash: K -> Word32, m: map<K, V>, i: nat, j: nat)
    requires Sized(tbl, n) && PlacedPaths(tbl, n) && Hashed(tbl, hash) && Represents(tbl, m)
    requires i < |tbl| && tbl[i].IsLive() && !tbl[i].HasCollision() && j < |tbl|
    requires !tbl[Probe(tbl[i].StoredHash(), n, j)].HasCollision()
    requires forall x: nat :: x < j ==> tbl[Probe(tbl[i].StoredHash(), n, x)].HasCollision()
    ensures var tbl' := PlaceBySwap(tbl, i, Probe(tbl[i].StoredHash(), n, j));
            && Sized(tbl', n) && PlacedPaths(tbl', n) && Hashed(tbl', hash) && Represents(tbl', m)
            && |Unplaced(tbl')| < |Unplaced(tbl)|
  {
    hide Probe, PlacedPaths, Represents, Hashed, PathMarked;
    var t := Probe(tbl[i].StoredHash(), n, j);
    PlacedAfterSwap(tbl, n, i, j);
    HashedAfterSwap(tbl, hash, i, t);
    RepresentsSwapped(tbl, m, i, t);
    RepresentsRemarked(tbl[i := tbl[t]][t := tbl[i]], PlaceBySwap(tbl, i, t), m);
    UnplacedShrinks(tbl, i, t);
    hide Unplaced;
  }

  lemma HashedAfterSwap<K, V>(tbl: seq<Entry<K, V>>, hash: K -> Word32, i: nat, t: nat)
    requires Hashed(tbl, hash) && i < |tbl| && t < |tbl| && tbl[i].IsLive() && !tbl[i].HasCollision()
    ensures Hashed(PlaceBySwap(tbl, i, t), hash)
  {
    hide PrepareHash;
  }

  lemma PlacedAfterSwap<K, V>(tbl: seq<Entry<K, V>>, n: nat, i: nat, j: nat)
    requires Sized(tbl, n) && PlacedPaths(tbl, n)
    requires i < |tbl| && tbl[i].IsLive() && !tbl[i].HasCollision() && j < |tbl|
    requires !tbl[Probe(tbl[i].StoredHash(), n, j)].HasCollision()
    requires forall x: nat :: x < j ==> tbl[Probe(tbl[i].StoredHash(), n, x)].HasCollision()
    ensures PlacedPaths(PlaceBySwap(tbl, i, Probe(tbl[i].StoredHash(), n, j)), n)
  {
    hide Probe;
    var hn := tbl[i].StoredHash();
    var t := Probe(hn, n, j);
    var tbl' := PlaceBySwap(tbl, i, t);
    RankOfProbe(hn, n, j);
    assert forall s :: 0 <= s < |tbl| && tbl[s].HasCollision() ==> tbl'[s] == tbl[s];
    assert forall s :: 0 <= s < |tbl| && s != t && tbl'[s].HasCollision() ==> tbl'[s] == tbl[s];
    forall s: nat | s < |tbl'| && tbl'[s].HasCollision()
      ensures tbl'[s].IsLive() && PathMarked(tbl', n, tbl'[s].StoredHash(), s)
    {
      if s != t { assert PathMarked(tbl, n, tbl[s].StoredHash(), s); }
    }
  }

  lemma UnplacedShrinks<K, V>(tbl: seq<Entry<K, V>>, i: nat, t: nat)
    requires i < |tbl| && t < |tbl| && tbl[i].IsLive() && !tbl[i].HasCollision() && !tbl[t].HasCollision()
    ensures |Unplaced(PlaceBySwap(tbl, i, t))| < |Unplaced(tbl)|
  {
    var tbl' := PlaceBySwap(tbl, i, t);
    if tbl[t].IsLive() {
      assert Unplaced(tbl') == Unplaced(tbl) - {t};
      assert t in Unplaced(tbl);
    } else {
      assert Unplaced(tbl') == Unplaced(tbl) - {i};
      assert i in Unplaced(tbl);
    }
  }

  /** Clearing every collision bit turns tombstones into free slots and starts with nothing placed. */
  lemma ClearedForRehash<K, V>(tbl: seq<Entry<K, V>>, cleared: seq<Entry<K, V>>, n: nat,
                               hash: K -> Word32, m: map<K, V>)
    requires Sized(tbl, n) && Hashed(tbl, hash) && Represents(tbl, m)
    requires |cleared| == |tbl| && forall s :: 0 <= s < |tbl| ==> cleared[s] == tbl[s].UnsetCollision()
    ensures PlacedPaths(cleared, n) && Hashed(cleared, hash) && Represents(cleared, m)
  {
    RepresentsRemarked(tbl, cleared, m);
  }

  /** Once nothing is left to place, the table has no tombstones and satisfies the probe-path invariant. */
  lemma RehashDone<K, V>(tbl: seq<Entry<K, V>>, n: nat)
    requires Sized(tbl, n) && PlacedPaths(tbl, n)
    requires forall s :: 0 <= s < |tbl| && tbl[s].IsLive() ==> tbl[s].HasCollision()
    ensures ProbePaths(tbl, n) && RemovedSlots(tbl) == {}
    ensures forall s: nat, x: nat :: s < |tbl| && tbl[s].IsLive() && x < Rank(tbl[s].StoredHash(), n, s) ==>
              tbl[Probe(tbl[s].StoredHash(), n, x)].IsLive()
  {
    hide Probe;
  }

  // ----- Rehashing in place gives the table of an insertion order -----

  /** The order in which slots were placed: each entry's probe path was filled before the entry itself. */
  ghost predicate FilledInOrder<K, V>(tbl: seq<Entry<K, V>>, n: nat, order: seq<nat>)
    requires Sized(tbl, n)
  {
    && (forall x, y :: 0 <= x < y < |order| ==> order[x] != order[y])
    && (forall x :: 0 <= x < |order| ==> order[x] < |tbl| && tbl[order[x]].IsLive())
    && (forall x, p: nat :: 0 <= x < |order| && p < Rank(tbl[order[x]].StoredHash(), n, order[x]) ==>
          Probe(tbl[order[x]].StoredHash(), n, p) in order[..x])
  }

  ghost predicate PlacedInOrder<K, V>(tbl: seq<Entry<K, V>>, n: nat, order: seq<nat>)
    requires Sized(tbl, n)
  {
    FilledInOrder(tbl, n, order) && forall s: nat :: s < |tbl| && tbl[s].HasCollision() <==> s in order
  }

  lemma PlacedInOrderNext<K, V>(tbl: seq<Entry<K, V>>, n: nat, order: seq<nat>, i: nat, j: nat)
    requires Sized(tbl, n) && PlacedInOrder(tbl, n, order)
    requires i < |tbl| && tbl[i].IsLive() && !tbl[i].HasCollision() && j < |tbl|
    requires !tbl[Probe(tbl[i].StoredHash(), n, j)].HasCollision()
    requires forall x: nat :: x < j ==> tbl[Probe(tbl[i].StoredHash(), n, x)].HasCollision()
    ensures var t := Probe(tbl[i].StoredHash(), n, j); PlacedInOrder(PlaceBySwap(tbl, i, t), n, order + [t])
  {
    hide Probe;
    var hn := tbl[i].StoredHash();
    var t := Probe(hn, n, j);
    var tbl', order' := PlaceBySwap(tbl, i, t), order + [t];
    RankOfProbe(hn, n, j);
    assert t !in order;
    forall x | 0 <= x < |order| ensures tbl'[order[x]] == tbl[order[x]] {
      assert order[x] in order;
    }
    forall x, p: nat | 0 <= x < |order'| && p < Rank(tbl'[order'[x]].StoredHash(), n, order'[x])
      ensures Probe(tbl'[order'[x]].StoredHash(), n, p) in order'[..x]
    {
      assert order'[..x] == order[..x];
    }
  }

  lemma AllPlaced<K, V>(tbl: seq<Entry<K, V>>, n: nat, order: seq<nat>)
    requires Sized(tbl, n) && PlacedInOrder(tbl, n, order)
    requires forall s :: 0 <= s < |tbl| && tbl[s].IsLive() ==> tbl[s].HasCollision()
    ensures FilledInOrder(tbl, n, order) && forall s: nat :: s < |tbl| && tbl[s].IsLive() <==> s in order
  {
  }

  lemma NonePlaced<K, V>(tbl: seq<Entry<K, V>>, n: nat)
    requires Sized(tbl, n) && forall s :: 0 <= s < |tbl| ==> !tbl[s].HasCollision()
    ensures PlacedInOrder(tbl, n, [])
  {
  }

  /** The table when only some of the slots have been filled. */
  ghost function Only<K, V>(tbl: seq<Entry<K, V>>, filled: seq<nat>): (part: seq<Entry<K, V>>)
    ensures |part| == |tbl|
  {
    seq(|tbl|, s requires 0 <= s < |tbl| => if s in filled then tbl[s] else tbl[s].(keyHash := 0))
  }

  /**
   * What such an order means: with the entries inserted so far in place, findFreeEntry stops for the next
   * one at exactly the slot it has, so inserting in this order one by one builds this table.
   */
  lemma InsertionBuildsTable<K, V>(tbl: seq<Entry<K, V>>, n: nat, order: seq<nat>, x: nat)
    requires Sized(tbl, n) && FilledInOrder(tbl, n, order) && x < |order|
    ensures var e := tbl[order[x]];
            var part := Only(tbl, order[..x]);
            && FirstNonLive(part, n, e.StoredHash(), Rank(e.StoredHash(), n, order[x]))
            && Only(tbl, order[..x + 1]) == part[order[x] := e]
  {
    hide Probe, Rank, Only;
    var e := tbl[order[x]];
    var hn := e.StoredHash();
    OnlyNext(tbl, order, x);
    forall p: nat | p < Rank(hn, n, order[x]) ensures Only(tbl, order[..x])[Probe(hn, n, p)].IsLive() {
      assert Probe(hn, n, p) in order[..x];
      FilledIsLive(tbl, n, order, x, Probe(hn, n, p));
    }
  }

  lemma OnlyNext<K, V>(tbl: seq<Entry<K, V>>, order: seq<nat>, x: nat)
    requires x < |order| && order[x] < |tbl| && order[x] !in order[..x]
    ensures Only(tbl, order[..x + 1]) == Only(tbl, order[..x])[order[x] := tbl[order[x]]]
    ensures !Only(tbl, order[..x])[order[x]].IsLive()
  {
    assert order[..x + 1] == order[..x] + [order[x]];
  }

  lemma FilledIsLive<K, V>(tbl: seq<Entry<K, V>>, n: nat, order: seq<nat>, x: nat, s: nat)
    requires Sized(tbl, n) && FilledInOrder(tbl, n, order) && x <= |order| && s in order[..x]
    ensures s < |tbl| && Only(tbl, order[..x])[s].IsLive()
  {
    hide Probe, Rank;
    var y :| 0 <= y < x && order[y] == s;
    assert tbl[order[y]].IsLive();
  }

  // ----- The specialised search agrees with the general one -----

  /**
   * Without tombstones and with the key absent, lookupForAdd and findFreeEntry stop after the same
   * number of collisions, hence (by MarkedUpTo) on the same slot with the same collision bits.
   */
  lemma SearchesAgree<K, V>(tbl: seq<Entry<K, V>>, n: nat, hash: K -> Word32, m: map<K, V>, k: K, j: nat, i: nat)
    requires Good(tbl, n, hash, m) && k !in m && RemovedSlots(tbl) == {}
    requires SearchEnds(tbl, n, PrepareHash(hash(k)), k, j)
    requires FirstNonLive(tbl, n, PrepareHash(hash(k)), i)
    ensures i == j
  {
    hide Probe, PrepareHash, ProbePaths, Hashed;
    var hn := PrepareHash(hash(k));
    NoTombstoneAt(tbl, Probe(hn, n, i));
    assert StopsAt(tbl, n, hn, k, i);
  }

  /**
   * So they return the same slot and leave the same collision bits: i and a are what lookupForAdd stops
   * at and leaves behind, with its first slot that is not live at i and its search ending at j, and f and
   * b are those of findFreeEntry.
   */
  lemma SearchesPlaceAlike<K, V>(before: seq<Entry<K, V>>, n: nat, hash: K -> Word32, m: map<K, V>, k: K,
                                 i: nat, j: nat, a: seq<Entry<K, V>>, f: nat, b: seq<Entry<K, V>>)
    requires Good(before, n, hash, m) && k !in m && RemovedSlots(before) == {}
    requires SearchEnds(before, n, PrepareHash(hash(k)), k, j) && FirstNonLive(before, n, PrepareHash(hash(k)), i)
    requires MarkedUpTo(before, a, n, PrepareHash(hash(k)), j)
    requires FirstNonLive(before, n, PrepareHash(hash(k)), f) && MarkedUpTo(before, b, n, PrepareHash(hash(k)), f)
    ensures i == f && a == b
    ensures Probe(PrepareHash(hash(k)), n, i) == Probe(PrepareHash(hash(k)), n, f)
  {
    hide Probe, ProbePaths, Hashed, Represents, PrepareHash, FirstNonLive, MarkedUpTo, SearchEnds, RemovedSlots;
    SearchesAgree(before, n, hash, m, k, j, i);
    SearchesAgree(before, n, hash, m, k, j, f);
    MarkingDeterministic(before, a, b, n, PrepareHash(hash(k)), j);
  }

  lemma NoTombstoneAt<K, V>(tbl: seq<Entry<K, V>>, slot: nat)
    requires slot < |tbl| && RemovedSlots(tbl) == {}
    ensures !tbl[slot].IsRemoved()
  {
    assert slot !in RemovedSlots(tbl);
  }

  /** Two outcomes of marking the same path are equal. */
  lemma MarkingDeterministic<K, V>(before: seq<Entry<K, V>>, a: seq<Entry<K, V>>, b: seq<Entry<K, V>>,
                                   n: nat, hn: Word32, j: nat)
    requires Sized(before, n) && MarkedUpTo(before, a, n, hn, j) && MarkedUpTo(before, b, n, hn, j)
    ensures a == b
  {
    hide Probe;
    forall s: nat | s < |a| ensures a[s] == b[s] {
    }
  }
}
