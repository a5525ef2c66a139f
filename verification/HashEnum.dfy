/**
 * The mutating enumerator of the hash table, and whole runs of it: an enumeration that only
 * removes, one that mixes removing and rekeying, and the promise init makes to its caller.
 */
module HashEnums {
  import opened Pow2s
  import opened HashTableSpec
  import opened HashTables
  import opened Options

  class Enum<K(==), V> {
    const table: HashTable<K, V>
    /** The storage being walked; no operation of an enumeration replaces it. */
    const storage: array<Entry<K, V>>
    var cur: nat
    var rekeyed: bool
    var removed: bool
    var validEntry: bool

    /** While rekeying, tombstones may exceed the load bound; the number of entries never does. */
    ghost predicate Valid()
      reads this, table, table.table
    {
      && table.Sound() && table.table == storage
      && 4 * table.entryCount <= 3 * storage.Length
      && (!rekeyed ==> table.LoadBounded())
      && cur <= storage.Length
      && (validEntry && cur < storage.Length ==> storage[cur].IsLive())
    }

    constructor (t: HashTable<K, V>)
      requires t.Valid()
      ensures Valid() && table == t && !rekeyed && !removed && validEntry
      ensures forall s :: 0 <= s < cur ==> !storage[s].IsLive()
    {
      hide Good, RemovedSlots;
      table, storage := t, t.table;
      cur, rekeyed, removed, validEntry := 0, false, false, true;
      new;
      while cur < storage.Length && !storage[cur].IsLive()
        invariant table == t && storage == t.table && cur <= storage.Length
        invariant !rekeyed && !removed && validEntry
        invariant t.Valid()
        invariant forall s :: 0 <= s < cur ==> !storage[s].IsLive()
      {
        cur := cur + 1;
      }
    }

    predicate Empty()
      reads this
    {
      cur == storage.Length
    }

    method PopFront()
      requires Valid() && !Empty()
      modifies this`cur, this`validEntry
      ensures Valid() && validEntry && cur > old(cur)
      ensures forall s :: old(cur) < s < cur ==> !storage[s].IsLive()
    {
      hide Good, RemovedSlots;
      cur := cur + 1;
      while cur < storage.Length && !storage[cur].IsLive()
        invariant old(cur) < cur <= storage.Length
        invariant forall s :: old(cur) < s < cur ==> !storage[s].IsLive()
      {
        cur := cur + 1;
      }
      validEntry := true;
    }

    /** Remove the front; no rebuild happens before the enumeration ends. */
    method RemoveFront()
      requires Valid() && validEntry && !Empty()
      modifies this`removed, this`validEntry, table, storage
      ensures Valid() && removed && !validEntry && table.entryCount == old(table.entryCount) - 1
      ensures table.gen == old(table.gen) && table.hashShift == old(table.hashShift)
      ensures table.contents == old(table.contents) - {old(storage[cur].key)}
      ensures forall s :: 0 <= s < storage.Length && s != cur ==> storage[s] == old(storage[s])
      ensures storage[cur] == table.freeEntry.(keyHash := if old(storage[cur].HasCollision()) then 1 else 0)
    {
      hide Good, RemovedSlots;
      table.RemoveEntry(cur);
      removed := true;
      validEntry := false;
    }

    /** Give the front a new key, absent from the table: it moves to the slot its new hash finds. */
    method RekeyFront(k: K)
      requires Valid() && validEntry && !Empty()
      requires k == storage[cur].key || k !in table.contents
      modifies this`rekeyed, this`validEntry, table, storage
      ensures Valid() && table.entryCount == old(table.entryCount)
      ensures table.gen == old(table.gen) && table.hashShift == old(table.hashShift)
      ensures rekeyed == (old(rekeyed) || k != old(storage[cur].key))
      ensures k == old(storage[cur].key) ==> validEntry && storage[..] == old(storage[..])
      ensures table.contents ==
                if k == old(storage[cur].key) then old(table.contents)
                else (old(table.contents) - {old(storage[cur].key)})[k := old(storage[cur].value)]
      ensures k != old(storage[cur].key) ==>
                var gone := table.freeEntry.(keyHash := if old(storage[cur].HasCollision()) then 1 else 0);
                storage[..] == Insert(old(storage[..])[cur := gone], table.SizeLog2(),
                                      Entry(PrepareHash(table.hash(k)), k, old(storage[cur].value)))
      ensures KeepsSlots(old(storage[..]), storage[..], {old(storage[cur].key)})
      ensures k != old(storage[cur].key) ==> KeepsSlots(storage[..], old(storage[..]), {k})
    {
      hide Good, RemovedSlots, Insert;
      if storage[cur].key == k { return; }
      var value := storage[cur].value;
      ghost var was := storage[..];
      table.SoundFacts();
      table.RemoveEntry(cur);
      assert storage[..] == was[cur := storage[cur]];
      table.PutNewInfallible(k, value);
      rekeyed := true;
      validEntry := false;
    }

    /**
     * The destructor: only now is the table rehashed or shrunk, and its load bound restored. The source
     * asserts that a rehashed table is not overloaded; asserted is whether that is true. It is not exactly
     * when something was rekeyed and three quarters of the slots are live. The storage is replaced, by one of
     * half the size, exactly when something was removed, at most a quarter is live, and memory is there.
     */
    method EndEnumeration(memory: bool) returns (asserted: bool)
      requires Valid()
      modifies table, storage
      ensures table.Valid() && table.contents == old(table.contents)
      ensures table.gen != old(table.gen) <==> removed && old(table.Underloaded()) && memory
      ensures if table.gen == old(table.gen) then table.table == storage && table.hashShift == old(table.hashShift)
              else fresh(table.table) && table.SizeLog2() == old(table.SizeLog2()) - 1 && table.removedCount == 0
      ensures rekeyed && old(table.Overloaded()) ==> table.removedCount == 0
      ensures !rekeyed && table.gen == old(table.gen) ==>
                table.removedCount == old(table.removedCount) && storage[..] == old(storage[..])
      ensures asserted <==> !(rekeyed && 4 * old(table.entryCount) == 3 * storage.Length)
    {
      hide Good, RemovedSlots;
      asserted := true;
      if rekeyed {
        table.CheckOverRemoved();
        asserted := !table.Overloaded();
      }
      if removed { table.CheckUnderloaded(memory); }
    }
  }

  /** A fourth slot is free: no rebuild, so no memory is needed. */
  method PutInFour(t: HashTable<int, int>, key: int)
    requires t.Valid() && t.table.Length == 4 && t.entryCount < 3 && t.removedCount == 0 && key !in t.contents
    modifies t, t.table
    ensures t.Valid() && t.table == old(t.table) && t.contents == old(t.contents)[key := key]
    ensures t.entryCount == old(t.entryCount) + 1 && t.removedCount == 0
  {
    hide Good, RemovedSlots, KeepsSlots, OverloadedAt, Insert, Reinserted, Pow2;
    t.SoundFacts();
    var added := t.PutNew(key, key, false);
  }

  method FillThree(t: HashTable<int, int>)
    requires t.Valid() && t.table.Length == 4 && t.contents == map[] && t.entryCount == t.removedCount == 0
    modifies t, t.table
    ensures t.Valid() && t.table == old(t.table) && t.entryCount == 3
    ensures forall k :: k in t.contents <==> 0 <= k < 3
  {
    hide Good, RemovedSlots;
    for key := 0 to 3
      invariant t.Valid() && t.table == old(t.table) && t.entryCount == key && t.removedCount == 0
      invariant forall k :: k in t.contents <==> 0 <= k < key
    {
      PutInFour(t, key);
    }
  }

  /** How the source's assertion fails: four slots, three entries, and one of them rekeyed. */
  method RekeyedThreeOfFour(hash: int -> Word32) returns (asserted: bool)
    ensures !asserted
  {
    hide Good, RemovedSlots, KeepsSlots, OverloadedAt;
    var t := new HashTable<int, int>(hash, 0, 0);
    var created := t.Init(0, true);
    FillThree(t);
    asserted := RekeyOne(t);
  }

  method RekeyOne(t: HashTable<int, int>) returns (asserted: bool)
    requires t.Valid() && t.table.Length == 4 && t.entryCount == 3
    requires forall k :: k in t.contents <==> 0 <= k < 3
    modifies t, t.table
    ensures !asserted
  {
    hide Good, RemovedSlots, KeepsSlots, OverloadedAt;
    var e := new Enum(t);
    SomeFront(t, e.cur, 0);
    e.RekeyFront(3);
    asserted := e.EndEnumeration(true);
  }

  lemma SomeFront(t: HashTable<int, int>, cur: nat, k: int)
    requires t.Sound() && k in t.contents && cur <= t.table.Length
    requires forall s :: 0 <= s < cur ==> !t.table[s].IsLive()
    ensures cur < t.table.Length
    ensures t.table[cur].IsLive() ==> t.table[cur].key in t.contents
  {
    hide Good, RemovedSlots;
    var s := SlotOf(t.table[..], t.SizeLog2(), t.hash, t.contents, k);
    assert t.table[..][s] == t.table[s];
    if cur < t.table.Length && t.table[cur].IsLive() {
      FrontBinding(t.table[..], t.SizeLog2(), t.hash, t.contents, cur);
    }
  }

  lemma FrontBinding<K, V>(tbl: seq<Entry<K, V>>, n: nat, hash: K -> Word32, m: map<K, V>, s: nat)
    requires Good(tbl, n, hash, m) && s < |tbl| && tbl[s].IsLive()
    ensures tbl[s].key in m && m[tbl[s].key] == tbl[s].value
  {
  }

  /** Each key in the map sits in some slot. */
  lemma SlotOf<K, V>(tbl: seq<Entry<K, V>>, n: nat, hash: K -> Word32, m: map<K, V>, k: K) returns (s: nat)
    requires Good(tbl, n, hash, m) && k in m
    ensures HoldsKey(tbl, s, k)
  {
    s :| HoldsKey(tbl, s, k);
  }

  lemma OneSlotPerKey<K, V>(tbl: seq<Entry<K, V>>, n: nat, hash: K -> Word32, m: map<K, V>, s: nat, t: nat)
    requires Good(tbl, n, hash, m) && s < |tbl| && t < |tbl| && tbl[s].IsLive() && tbl[t].IsLive() && s != t
    ensures tbl[s].key != tbl[t].key
  {
  }

  ghost function Filtered<K, V>(m: map<K, V>, drop: (K, V) -> bool): map<K, V> {
    map k | k in m && !drop(k, m[k]) :: m[k]
  }

  /** What is left of m when the keys visited so far have been treated. */
  ghost function Remaining<K, V>(m: map<K, V>, visited: seq<K>, drop: (K, V) -> bool): map<K, V> {
    map k | k in m && !(k in visited && drop(k, m[k])) :: m[k]
  }

  lemma RemainingNext<K, V>(m: map<K, V>, visited: seq<K>, drop: (K, V) -> bool, k: K)
    requires k in m && k !in visited
    ensures k in Remaining(m, visited, drop) && Remaining(m, visited, drop)[k] == m[k]
    ensures Remaining(m, visited + [k], drop)
         == if drop(k, m[k]) then Remaining(m, visited, drop) - {k} else Remaining(m, visited, drop)
  {
  }

  lemma RemainingHas<K, V>(m: map<K, V>, visited: seq<K>, drop: (K, V) -> bool, k: K)
    ensures k in m && k !in visited ==> k in Remaining(m, visited, drop)
    ensures k in Remaining(m, visited, drop) ==> k in m && Remaining(m, visited, drop)[k] == m[k]
  {
  }

  lemma RemainingEnds<K, V>(m: map<K, V>, visited: seq<K>, drop: (K, V) -> bool)
    ensures Remaining(m, [], drop) == m
    ensures (forall k :: k in m ==> k in visited) ==> Remaining(m, visited, drop) == Filtered(m, drop)
  {
  }

  ghost predicate Distinct<T>(s: seq<T>) {
    forall i, j :: 0 <= i < j < |s| ==> s[i] != s[j]
  }

  /** The live entries before the cursor have been visited and the others have not. */
  ghost predicate Walked<K, V>(storage: seq<Entry<K, V>>, cur: nat, visited: seq<K>) {
    && (forall s :: 0 <= s < cur && s < |storage| && storage[s].IsLive() ==> storage[s].key in visited)
    && (forall s :: cur <= s < |storage| && storage[s].IsLive() ==> storage[s].key !in visited)
  }

  lemma FrontIsNew<K, V>(storage: seq<Entry<K, V>>, cur: nat, visited: seq<K>)
    requires Walked(storage, cur, visited) && cur < |storage| && storage[cur].IsLive()
    ensures storage[cur].key !in visited
  {
  }

  lemma WalkedOver<K, V>(storage: seq<Entry<K, V>>, s: nat, visited: seq<K>)
    requires Walked(storage, |storage|, visited) && s < |storage| && storage[s].IsLive()
    ensures storage[s].key in visited
  {
  }

  lemma WalkedNext<K, V>(before: seq<Entry<K, V>>, after: seq<Entry<K, V>>, cur: nat, next: nat, visited: seq<K>, k: K)
    requires Walked(before, cur, visited) && |after| == |before| && cur < next && HoldsKey(before, cur, k)
    requires forall x :: 0 <= x < |before| && x != cur && before[x].IsLive() ==> before[x].key != k
    requires forall s :: 0 <= s < |before| && s != cur ==> after[s] == before[s]
    requires after[cur] == before[cur] || !after[cur].IsLive()
    requires forall s :: cur < s < next && s < |after| ==> !after[s].IsLive()
    ensures Walked(after, next, visited + [k])
  {
  }

  /** One round of the walk: remove the front if it is to be dropped, and go on to the next. */
  method VisitFront<K(==), V>(e: Enum<K, V>, drop: (K, V) -> bool, ghost visited: seq<K>) returns (k: K)
    requires e.Valid() && e.validEntry && !e.rekeyed && !e.Empty() && Walked(e.storage[..], e.cur, visited)
    modifies e`cur, e`removed, e`validEntry, e.table, e.storage
    ensures e.Valid() && e.validEntry && e.cur > old(e.cur) && Walked(e.storage[..], e.cur, visited + [k])
    ensures k in old(e.table.contents) && k !in visited
    ensures e.table.gen == old(e.table.gen) && e.table.hashShift == old(e.table.hashShift)
    ensures if drop(k, old(e.table.contents)[k])
            then e.removed && e.table.contents == old(e.table.contents) - {k}
                 && e.table.entryCount == old(e.table.entryCount) - 1
            else e.removed == old(e.removed) && e.table.contents == old(e.table.contents)
                 && e.table.entryCount == old(e.table.entryCount)
  {
    hide Good, RemovedSlots, KeepsSlots, Walked, Pow2;
    ghost var before, cur := e.storage[..], e.cur;
    k := e.storage[e.cur].key;
    var v := e.storage[e.cur].value;
    FrontBinding(before, e.table.SizeLog2(), e.table.hash, e.table.contents, e.cur);
    OthersDiffer(e.table, e.cur);
    FrontIsNew(before, cur, visited);
    if drop(k, v) { e.RemoveFront(); }
    e.PopFront();
    WalkedNext(before, e.storage[..], cur, e.cur, visited, k);
  }

  /**
   * The documented idiom: walk the table and remove some fronts. Every original key is the front
   * exactly once, and what is left is the original map filtered. The storage is replaced, by one of half the
   * size, exactly when a front was removed, at most a quarter of the slots is live at the end, and memory is there.
   */
  method RemoveWhere<K(==), V>(t: HashTable<K, V>, drop: (K, V) -> bool, memory: bool) returns (visited: seq<K>)
    requires t.Valid()
    modifies t, t.table
    ensures t.Valid() && t.contents == Filtered(old(t.contents), drop)
    ensures t.gen != old(t.gen) <==>
              memory && UnderloadedAt(t.entryCount, old(t.Capacity())) && t.contents != old(t.contents)
    ensures if t.gen == old(t.gen) then t.table == old(t.table) && t.hashShift == old(t.hashShift)
            else fresh(t.table) && t.SizeLog2() == old(t.SizeLog2()) - 1 && t.removedCount == 0
    ensures Distinct(visited) && forall k :: k in visited <==> k in old(t.contents)
  {
    hide Good, RemovedSlots, KeepsSlots, Filtered, Remaining, Pow2, UnderloadedAt;
    ghost var m := t.contents;
    var e := new Enum(t);
    visited := [];
    assert Walked(e.storage[..], e.cur, visited);
    RemainingEnds(m, visited, drop);
    hide Walked;
    while !e.Empty()
      invariant e.table == t && e.Valid() && e.validEntry && !e.rekeyed && fresh(e) && e.storage == old(t.table)
      invariant t.gen == old(t.gen) && t.hashShift == old(t.hashShift)
      invariant if e.removed then t.entryCount < |m| else t.contents == m
      invariant Distinct(visited) && forall k :: k in visited ==> k in m
      invariant t.contents == Remaining(m, visited, drop)
      invariant Walked(e.storage[..], e.cur, visited)
      decreases e.storage.Length - e.cur
    {
      var k := VisitFront(e, drop, visited);
      RemainingHas(m, visited, drop, k);
      RemainingNext(m, visited, drop, k);
      visited := visited + [k];
    }
    forall k | k in m ensures k in visited {
      RemainingHas(m, visited, drop, k);
      if k in t.contents {
        var s := SlotOf(t.table[..], t.SizeLog2(), t.hash, t.contents, k);
        WalkedOver(e.storage[..], s, visited);
      }
    }
    RemainingEnds(m, visited, drop);
    assert e.removed <==> t.contents != m;
    var _ := e.EndEnumeration(memory);
  }

  lemma OthersDiffer<K, V>(t: HashTable<K, V>, s: nat)
    requires t.Sound() && s < t.table.Length && t.table[s].IsLive()
    ensures forall x :: 0 <= x < t.table.Length && x != s && t.table[x].IsLive() ==> t.table[x].key != t.table[s].key
  {
    hide Good, RemovedSlots;
    forall x | 0 <= x < t.table.Length && x != s && t.table[x].IsLive() ensures t.table[x].key != t.table[s].key {
      OneSlotPerKey(t.table[..], t.SizeLog2(), t.hash, t.contents, x, s);
    }
  }

  // ----- Enumerations that also rekey -----

  datatype Edit<K> = Keep | Drop | Rekey(to: K)
  datatype Change<K> = Removed(key: K) | Rekeyed(from: K, to: K)

  ghost function ApplyChange<K, V>(m: map<K, V>, c: Change<K>): map<K, V> {
    if c.Removed? then m - {c.key}
    else if c.from in m then (m - {c.from})[c.to := m[c.from]]
    else m
  }

  /** What a sequence of changes does to a map. */
  ghost function Replay<K, V>(m: map<K, V>, log: seq<Change<K>>): map<K, V> {
    if log == [] then m else ApplyChange(Replay(m, log[..|log| - 1]), log[|log| - 1])
  }

  /** The keys rekeyed to are new to the map and to one another. */
  ghost predicate FreshTargets<K, V>(m: map<K, V>, edits: seq<Edit<K>>) {
    && (forall i :: 0 <= i < |edits| && edits[i].Rekey? ==> edits[i].to !in m)
    && (forall i, j :: 0 <= i < j < |edits| && edits[i].Rekey? && edits[j].Rekey? ==> edits[i].to != edits[j].to)
  }

  /** One of the edits from the i-th on, and before the j-th, rekeys to k. */
  ghost predicate Readded<K>(edits: seq<Edit<K>>, i: nat, j: nat, k: K) {
    exists x :: i <= x < j && x < |edits| && edits[x] == Rekey(k)
  }

  /** Fronts after the last edit are kept. */
  ghost function EditAt<K>(edits: seq<Edit<K>>, i: nat): Edit<K> {
    if i < |edits| then edits[i] else Keep
  }

  /** The changes that edits prescribe when the fronts are met in this order. */
  ghost function Prescribed<K>(edits: seq<Edit<K>>, fronts: seq<K>): seq<Change<K>> {
    if fronts == [] then []
    else
      var i := |fronts| - 1;
      var before := Prescribed(edits, fronts[..i]);
      match EditAt(edits, i)
      case Keep => before
      case Drop => before + [Removed(fronts[i])]
      case Rekey(to) => before + [Rekeyed(fronts[i], to)]
  }

  /** What one edit of the front k does to a map. */
  ghost function AfterEdit<K, V>(m: map<K, V>, edit: Edit<K>, k: K): map<K, V> {
    match edit
    case Keep => m
    case Drop => ApplyChange(m, Removed(k))
    case Rekey(to) => ApplyChange(m, Rekeyed(k, to))
  }

  lemma PrescribedNext<K, V>(m: map<K, V>, edits: seq<Edit<K>>, fronts: seq<K>, k: K)
    ensures Replay(m, Prescribed(edits, fronts + [k]))
         == AfterEdit(Replay(m, Prescribed(edits, fronts)), EditAt(edits, |fronts|), k)
  {
    assert (fronts + [k])[..|fronts|] == fronts;
    var before := Prescribed(edits, fronts);
    match EditAt(edits, |fronts|)
    case Keep =>
    case Drop => ReplayNext(m, before, Removed(k));
    case Rekey(to) => ReplayNext(m, before, Rekeyed(k, to));
  }

  lemma ReplayNext<K, V>(m: map<K, V>, log: seq<Change<K>>, c: Change<K>)
    ensures Replay(m, log + [c]) == ApplyChange(Replay(m, log), c)
  {
    assert (log + [c])[..|log|] == log;
  }

  /**
   * The original keys still to come sit at or after the cursor; a key that was a front is there only if it
   * has been rekeyed to since.
   */
  ghost predicate Pending<K, V>(storage: seq<Entry<K, V>>, cur: nat, m: map<K, V>,
                                edits: seq<Edit<K>>, fronts: seq<K>)
  {
    && (forall k :: k in m && k !in fronts ==> exists s :: cur <= s && HoldsKey(storage, s, k))
    && (forall s, i ::
          cur <= s < |storage| && storage[s].IsLive() && 0 <= i < |fronts| && storage[s].key == fronts[i] ==>
          Readded(edits, i, |fronts|, fronts[i]))
  }

  /** Handling the front, whatever the edit, leaves all entries but that one and the one added where they were. */
  lemma PendingNext<K, V>(before: seq<Entry<K, V>>, after: seq<Entry<K, V>>, cur: nat, next: nat, m: map<K, V>,
                          edits: seq<Edit<K>>, fronts: seq<K>, k: K)
    requires Pending(before, cur, m, edits, fronts) && HoldsKey(before, cur, k) && cur < next
    requires forall x :: 0 <= x < |before| && x != cur && before[x].IsLive() ==> before[x].key != k
    requires KeepsSlots(before, after, {k}) && KeepsSlots(after, before, AddedBy(EditAt(edits, |fronts|), k))
    requires forall s :: cur < s < next && s < |after| ==> !after[s].IsLive()
    ensures Pending(after, next, m, edits, fronts + [k])
  {
    var fronts' := fronts + [k];
    forall x | x in m && x !in fronts' ensures exists s :: next <= s && HoldsKey(after, s, x) {
      var s :| cur <= s && HoldsKey(before, s, x);
      assert HoldsKey(after, s, x);
    }
    forall s, i | next <= s < |after| && after[s].IsLive() && 0 <= i < |fronts'| && after[s].key == fronts'[i]
      ensures Readded(edits, i, |fronts'|, fronts'[i])
    {
      if fronts'[i] in AddedBy(EditAt(edits, |fronts|), k) {
        assert edits[|fronts|] == Rekey(fronts'[i]);
      } else {
        assert HoldsKey(before, s, after[s].key);
        if i < |fronts| { ReaddedLater(edits, i, |fronts|, fronts[i]); }
      }
    }
  }

  lemma ReaddedLater<K>(edits: seq<Edit<K>>, i: nat, j: nat, k: K)
    requires Readded(edits, i, j, k)
    ensures Readded(edits, i, j + 1, k)
  {
    var x :| i <= x < j && x < |edits| && edits[x] == Rekey(k);
  }

  /** The key that may turn up in a new slot after the edit of the front k. */
  ghost function AddedBy<K>(edit: Edit<K>, k: K): set<K> {
    if edit.Rekey? && edit.to != k then {edit.to} else {}
  }

  /** A client's check; the table's own lookup need not end while rekeying has used up the free slots. */
  method Scan<K(==), V>(t: HashTable<K, V>, k: K) returns (present: bool)
    requires t.Sound()
    ensures present <==> k in t.contents
  {
    hide Good, RemovedSlots;
    present := false;
    for s := 0 to t.table.Length
      invariant present <==> exists x :: 0 <= x < s && HoldsKey(t.table[..], x, k)
    {
      if t.table[s].IsLive() && t.table[s].key == k {
        present := true;
        assert HoldsKey(t.table[..], s, k);
      }
    }
    HeldIsBound(t, k);
  }

  lemma HeldIsBound<K, V>(t: HashTable<K, V>, k: K)
    requires t.Sound()
    ensures k in t.contents <==> exists x :: 0 <= x < t.table.Length && HoldsKey(t.table[..], x, k)
  {
    hide RemovedSlots;
    if k in t.contents {
      var s := SlotOf(t.table[..], t.SizeLog2(), t.hash, t.contents, k);
    }
  }

  /** One edit of the front; improper is a rekeying to another key that is present. */
  method TreatFront<K(==), V>(e: Enum<K, V>, edit: Edit<K>) returns (k: K, proper: bool)
    requires e.Valid() && e.validEntry && !e.Empty()
    modifies e`rekeyed, e`removed, e`validEntry, e.table, e.storage
    ensures e.Valid() && k == old(e.storage[e.cur].key) && k in old(e.table.contents)
    ensures forall x :: 0 <= x < e.storage.Length && x != e.cur && old(e.storage[x].IsLive()) ==>
              old(e.storage[x].key) != k
    ensures proper <==> !(edit.Rekey? && edit.to != k && edit.to in old(e.table.contents))
    ensures e.table.contents == if proper then AfterEdit(old(e.table.contents), edit, k) else old(e.table.contents)
    ensures proper ==>
              && KeepsSlots(old(e.storage[..]), e.storage[..], {k})
              && KeepsSlots(e.storage[..], old(e.storage[..]), AddedBy(edit, k))
  {
    hide Good, RemovedSlots, KeepsSlots;
    ghost var before := e.storage[..];
    k, proper := e.storage[e.cur].key, true;
    FrontBinding(before, e.table.SizeLog2(), e.table.hash, e.table.contents, e.cur);
    OthersDiffer(e.table, e.cur);
    KeepsReflexive(before, {k});
    KeepsReflexive(before, {});
    match edit
    case Keep =>
    case Drop =>
      e.RemoveFront();
      KeptAfterRemove(before, e.storage[..], e.cur);
    case Rekey(to) =>
      if to != k {
        var present := Scan(e.table, to);
        if present { return k, false; }
      }
      e.RekeyFront(to);
  }

  /** A key is the front a second time only if it was rekeyed to in between. */
  ghost predicate OnlyReadded<K>(edits: seq<Edit<K>>, fronts: seq<K>) {
    forall i, j :: 0 <= i < j < |fronts| && fronts[i] == fronts[j] ==> Readded(edits, i, j, fronts[j])
  }

  lemma OnlyReaddedNext<K>(edits: seq<Edit<K>>, fronts: seq<K>, k: K)
    requires OnlyReadded(edits, fronts)
    requires forall i :: 0 <= i < |fronts| && fronts[i] == k ==> Readded(edits, i, |fronts|, fronts[i])
    ensures OnlyReadded(edits, fronts + [k])
  {
    hide Readded;
  }

  /** The targets from the n-th edit on are absent. */
  ghost predicate Unused<K, V>(m: map<K, V>, edits: seq<Edit<K>>, n: nat) {
    forall j :: n <= j < |edits| && edits[j].Rekey? ==> edits[j].to !in m
  }

  lemma UnusedNext<K, V>(m: map<K, V>, now: map<K, V>, edits: seq<Edit<K>>, n: nat, k: K)
    requires FreshTargets(m, edits) && Unused(now, edits, n)
    ensures Unused(AfterEdit(now, EditAt(edits, n), k), edits, n + 1)
  {
  }

  lemma FreshIsProper<K, V>(now: map<K, V>, edits: seq<Edit<K>>, n: nat)
    requires Unused(now, edits, n)
    ensures EditAt(edits, n).Rekey? ==> EditAt(edits, n).to !in now
  {
  }

  /**
   * What an enumeration of a table that held m promises: a key is the front a second time only if it was
   * rekeyed to in between; a run that is not blocked meets every original key; one that is stops at the front
   * blocked, whose target is another key that is present in after; fresh targets never block.
   */
  ghost predicate Enumerated<K, V>(m: map<K, V>, after: map<K, V>, edits: seq<Edit<K>>,
                                   fronts: seq<K>, blocked: Option<K>)
  {
    && OnlyReadded(edits, fronts)
    && (blocked.None? ==> forall k :: k in m ==> k in fronts)
    && (blocked.Some? ==>
          && |fronts| < |edits| && edits[|fronts|].Rekey? && edits[|fronts|].to in after
          && blocked.value in after && blocked.value != edits[|fronts|].to)
    && (FreshTargets(m, edits) ==>
          && blocked.None?
          && forall i, j :: 0 <= i < j < |fronts| && fronts[i] in m ==> fronts[i] != fronts[j])
  }

  /**
   * Any enumeration: the i-th front is treated as edits[i] says. A key may be rekeyed to when it is absent
   * at that moment, or is the front's own; at the first target that is neither, the enumeration is ended.
   * Whatever happens, the map left is the original one under the prescribed changes, and the load bound holds
   * again at the end.
   */
  method RunEdits<K(==), V>(t: HashTable<K, V>, edits: seq<Edit<K>>, memory: bool)
    returns (fronts: seq<K>, blocked: Option<K>)
    requires t.Valid()
    modifies t, t.table
    ensures t.Valid() && t.contents == Replay(old(t.contents), Prescribed(edits, fronts))
    ensures Enumerated(old(t.contents), t.contents, edits, fronts, blocked)
    ensures t.table == old(t.table) || fresh(t.table)
  {
    hide Good, RemovedSlots, KeepsSlots, Pending, Replay, Prescribed, Readded, AddedBy, AfterEdit;
    ghost var m := t.contents;
    var e := new Enum(t);
    fronts, blocked := [], None;
    PendingStart(t, edits, e.cur);
    assert Replay(m, Prescribed(edits, fronts)) == m by { ReplayStart(m, edits); }
    assert OnlyReadded(edits, fronts) && (FreshTargets(m, edits) ==> Unused(t.contents, edits, |fronts|));
    hide OnlyReadded, Unused, FreshTargets;
    while !e.Empty()
      invariant e.table == t && e.Valid() && e.validEntry && fresh(e) && e.storage == old(t.table)
      invariant t.contents == Replay(m, Prescribed(edits, fronts))
      invariant Pending(e.storage[..], e.cur, m, edits, fronts) && OnlyReadded(edits, fronts)
      invariant FreshTargets(m, edits) ==> Unused(t.contents, edits, |fronts|)
      decreases e.storage.Length - e.cur
    {
      ghost var before, cur, now := e.storage[..], e.cur, t.contents;
      var edit := if |fronts| < |edits| then edits[|fronts|] else Keep;
      PendingFront(before, cur, m, edits, fronts);
      var k, proper := TreatFront(e, edit);
      if FreshTargets(m, edits) { FreshIsProper(now, edits, |fronts|); }
      if !proper {
        blocked := Some(k);
        break;
      }
      if FreshTargets(m, edits) { UnusedNext(m, now, edits, |fronts|, k); }
      PrescribedNext(m, edits, fronts, k);
      OnlyReaddedNext(edits, fronts, k);
      e.PopFront();
      PendingNext(before, e.storage[..], cur, e.cur, m, edits, fronts, k);
      fronts := fronts + [k];
    }
    if blocked.None? { PendingDone(e.storage[..], m, edits, fronts); }
    if FreshTargets(m, edits) { NoOriginalTwice(m, edits, fronts); }
    var _ := e.EndEnumeration(memory);
  }

  lemma NoOriginalTwice<K, V>(m: map<K, V>, edits: seq<Edit<K>>, fronts: seq<K>)
    requires FreshTargets(m, edits) && OnlyReadded(edits, fronts)
    ensures forall i, j :: 0 <= i < j < |fronts| && fronts[i] in m ==> fronts[i] != fronts[j]
  {
  }

  lemma ReplayStart<K, V>(m: map<K, V>, edits: seq<Edit<K>>)
    ensures Replay(m, Prescribed(edits, [])) == m
  {
  }

  lemma PendingStart<K, V>(t: HashTable<K, V>, edits: seq<Edit<K>>, cur: nat)
    requires t.Sound() && cur <= t.table.Length && forall s :: 0 <= s < cur ==> !t.table[s].IsLive()
    ensures Pending(t.table[..], cur, t.contents, edits, [])
  {
    hide Good, RemovedSlots;
    forall k | k in t.contents ensures exists s :: cur <= s && HoldsKey(t.table[..], s, k) {
      var s := SlotOf(t.table[..], t.SizeLog2(), t.hash, t.contents, k);
    }
  }

  lemma PendingFront<K, V>(storage: seq<Entry<K, V>>, cur: nat, m: map<K, V>, edits: seq<Edit<K>>, fronts: seq<K>)
    requires Pending(storage, cur, m, edits, fronts) && cur < |storage| && storage[cur].IsLive()
    ensures forall i :: 0 <= i < |fronts| && fronts[i] == storage[cur].key ==> Readded(edits, i, |fronts|, fronts[i])
  {
  }

  lemma PendingDone<K, V>(storage: seq<Entry<K, V>>, m: map<K, V>, edits: seq<Edit<K>>, fronts: seq<K>)
    requires Pending(storage, |storage|, m, edits, fronts)
    ensures forall k :: k in m ==> k in fronts
  {
  }

  lemma KeptAfterRemove<K, V>(before: seq<Entry<K, V>>, after: seq<Entry<K, V>>, cur: nat)
    requires |before| == |after| && cur < |before| && before[cur].IsLive() && !after[cur].IsLive()
    requires forall s :: 0 <= s < |before| && s != cur ==> after[s] == before[s]
    ensures KeepsSlots(before, after, {before[cur].key}) && KeepsSlots(after, before, {})
  {
  }

  // ----- The promise of init -----

  /** After init(length), which needs memory, adding length distinct keys neither fails nor needs any. */
  method InitThenFill<K(==), V>(t: HashTable<K, V>, keys: seq<K>, value: V, memory: bool) returns (ok: bool)
    requires t.table == null && t.freeEntry.IsFree() && t.contents == map[] && t.entryCount == t.removedCount == 0
    requires Distinct(keys) && |keys| < TWO32
    modifies t
    ensures ok <==> |keys| <= MAX_INIT && memory
    ensures ok ==> t.Valid() && t.gen == old(t.gen) && fresh(t.table)
    ensures ok ==> (forall k :: k in t.contents <==> k in keys) && |t.contents| == |keys|
  {
    hide Good, RemovedSlots, KeepsSlots;
    ok := t.Init(|keys|, memory);
    if !ok { return; }
    ghost var storage := t.table;
    for i := 0 to |keys|
      invariant t.Valid() && t.table == storage && t.gen == old(t.gen) && fresh(storage)
      invariant t.entryCount == i && t.removedCount == 0
      invariant forall count: nat :: count < |keys| ==> !OverloadedAt(count, 0, storage.Length)
      invariant forall k :: k in t.contents <==> k in keys[..i]
    {
      t.SoundFacts();
      assert keys[i] !in keys[..i];
      assert keys[..i + 1] == keys[..i] + [keys[i]];
      var added := t.PutNew(keys[i], value, false);
      assert added;
    }
  }
}
