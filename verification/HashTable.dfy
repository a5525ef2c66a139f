/**
 * The hash table of js/public/HashTable.h, instantiated as HashMap does: entries are key/value
 * pairs, a lookup is a key, and match is equality.
 */
module HashTables {
  import opened Pow2s
  import opened DoubleHashing
  import opened FiniteSets
  import opened HashTableSpec

  const MIN_SIZE: nat := 4
  const MAX_INIT: nat := 0x80_0000
  const MAX_CAPACITY: nat := 0x100_0000
  const INV_MAX_ALPHA: nat := 171
  const MAX_ALPHA_FRAC: nat := 192
  const MIN_ALPHA_FRAC: nat := 64

  datatype RebuildStatus = NotOverloaded | Rehashed | RehashFailed

  /** A position in the table and the prepared hash it was looked up under. */
  datatype AddPtr = AddPtr(slot: nat, keyHash: Word32)

  /** entryCount + removedCount >= (sMaxAlphaFrac * capacity) >> 8, all on 32 bits */
  predicate OverloadedAt(entryCount: Word32, removedCount: Word32, capacity: nat) {
    (entryCount + removedCount) % TWO32 >= ((MAX_ALPHA_FRAC * capacity) % TWO32) / 256
  }

  /** capacity > sMinSize && entryCount <= (sMinAlphaFrac * capacity) >> 8, all on 32 bits */
  predicate UnderloadedAt(entryCount: Word32, capacity: nat) {
    capacity > MIN_SIZE && entryCount <= ((MIN_ALPHA_FRAC * capacity) % TWO32) / 256
  }

  lemma CapacityFacts(n: nat)
    requires MIN_SIZE_LOG2 <= n <= MAX_CAPACITY_LOG2
    ensures MIN_SIZE <= Pow2(n) <= MAX_CAPACITY && Pow2(n) == 4 * Pow2(n - 2)
    ensures n > MIN_SIZE_LOG2 <==> Pow2(n) > MIN_SIZE
  {
    assert Pow2(2) == 4;
    Pow2Monotone(2, n);
    Pow2Monotone(n, 24);
    Pow2_24();
    assert Pow2(n) == 2 * Pow2(n - 1) && Pow2(n - 1) == 2 * Pow2(n - 2);
    if n > 2 { Pow2Monotone(3, n); }
  }

  lemma Pow2_24()
    ensures Pow2(24) == MAX_CAPACITY
  {
    assert Pow2(8) == 256;
    Pow2Add(8, 8);
    Pow2Add(8, 16);
  }

  /** Neither load test overflows; they compare with exactly three and one quarters of capacity. */
  lemma LoadTestsExact(entryCount: Word32, removedCount: Word32, n: nat)
    requires MIN_SIZE_LOG2 <= n <= MAX_CAPACITY_LOG2 && entryCount + removedCount <= Pow2(n)
    ensures OverloadedAt(entryCount, removedCount, Pow2(n)) <==> 4 * (entryCount + removedCount) >= 3 * Pow2(n)
    ensures UnderloadedAt(entryCount, Pow2(n)) <==> n > MIN_SIZE_LOG2 && 4 * entryCount <= Pow2(n)
  {
    CapacityFacts(n);
    var c := Pow2(n - 2);
    QuartersExact(c);
    hide Pow2;
    assert Pow2(n) == 4 * c;
  }

  lemma QuartersExact(c: nat)
    requires 1 <= c && 4 * c <= MAX_CAPACITY
    ensures ((MAX_ALPHA_FRAC * (4 * c)) % TWO32) / 256 == 3 * c
    ensures ((MIN_ALPHA_FRAC * (4 * c)) % TWO32) / 256 == c
  {
    assert MAX_ALPHA_FRAC * (4 * c) == 256 * (3 * c);
    assert MIN_ALPHA_FRAC * (4 * c) == 256 * c;
  }

  lemma QuarterTest(removedCount: nat, n: nat)
    requires MIN_SIZE_LOG2 <= n <= MAX_CAPACITY_LOG2
    ensures removedCount >= Pow2(n) / 4 <==> 4 * removedCount >= Pow2(n)
    ensures Pow2(n) % 4 == 0
  {
    CapacityFacts(n);
  }

  lemma ResizeFacts(n: nat, n': nat, entryCount: nat)
    requires MIN_SIZE_LOG2 <= n <= MAX_CAPACITY_LOG2 && MIN_SIZE_LOG2 <= n' && n - 1 <= n' <= n + 1
    requires if n' == n + 1 then 4 * entryCount <= 3 * Pow2(n) else 4 * (entryCount + 1) <= 3 * Pow2(n')
    ensures n' <= MAX_CAPACITY_LOG2 <==> Pow2(n') <= MAX_CAPACITY
    ensures 4 * (entryCount + 1) <= 3 * Pow2(n')
  {
    CapacityFacts(n);
    Pow2_24();
    if n' <= MAX_CAPACITY_LOG2 { CapacityFacts(n'); }
  }

  /** The keys gathered from a prefix that stops before a live entry are fewer than all keys. */
  lemma PrefixSmaller<K, V>(tbl: seq<Entry<K, V>>, m: map<K, V>, i: nat, part: map<K, V>)
    requires i < |tbl| && Represents(tbl, m) && Represents(tbl[..i], part)
    requires tbl[i].IsLive() && tbl[i].key !in part
    ensures |part| < |m|
  {
    forall k | k in part ensures k in m {
      var s :| HoldsKey(tbl[..i], s, k);
      assert tbl[s].IsLive();
    }
    assert part.Keys <= m.Keys - {tbl[i].key};
    SubsetSize(part.Keys, m.Keys - {tbl[i].key});
    assert |part.Keys| == |part| && |m.Keys| == |m|;
  }

  lemma EmptyIsGood<K, V>(tbl: seq<Entry<K, V>>, n: nat, hash: K -> Word32)
    requires Sized(tbl, n) && forall s :: 0 <= s < |tbl| ==> tbl[s].IsFree()
    ensures Good(tbl, n, hash, map[]) && RemovedSlots(tbl) == {}
  {
    RepresentsEmpty(tbl);
  }

  /** The 32-bit product of init does not wrap, and what it rounds up to is a legal capacity. */
  lemma InitFits(length: Word32)
    requires length <= MAX_INIT
    ensures (length * INV_MAX_ALPHA) % TWO32 == length * INV_MAX_ALPHA
    ensures 2 * ((length * INV_MAX_ALPHA) / 128) < 2 * MAX_CAPACITY
  {
  }

  lemma InitLog2Fits(n: nat)
    requires n >= MIN_SIZE_LOG2 && Pow2(n) < 2 * MAX_CAPACITY
    ensures n <= MAX_CAPACITY_LOG2
  {
    Pow2_24();
    if n > 24 { Pow2Monotone(25, n); }
  }

  /** A table of at least floor(171/128 * length) slots takes length entries without overloading. */
  lemma InitHasRoom(length: Word32, n: nat)
    requires length <= MAX_INIT && MIN_SIZE_LOG2 <= n <= MAX_CAPACITY_LOG2
    requires Pow2(n) >= (length * INV_MAX_ALPHA) / 128
    ensures forall count: nat :: count < length ==> !OverloadedAt(count, 0, Pow2(n))
  {
    CapacityFacts(n);
    var cap := Pow2(n);
    assert 128 * cap >= 171 * length - 127;
    forall count: nat | count < length ensures !OverloadedAt(count, 0, cap) {
      assert 4 * count < 3 * cap;
      if count <= cap { LoadTestsExact(count, 0, n); }
    }
  }

  class HashTable<K(==), V> {
    /** HashPolicy::hash */
    const hash: K -> Word32
    /** A default-constructed entry: T() under the free hash. */
    const freeEntry: Entry<K, V>

    var hashShift: nat
    var entryCount: Word32
    var gen: Word32
    var removedCount: Word32
    var table: array?<Entry<K, V>>

    /** The finite map this table is supposed to be. */
    ghost var contents: map<K, V>

    ghost function SizeLog2(): nat
      reads this
    {
      if hashShift <= HASH_BITS then HASH_BITS - hashShift else 0
    }

    /** Everything but the load bound: what holds even in the middle of an enumeration. */
    ghost predicate Sound()
      reads this, table
    {
      && table != null
      && freeEntry.IsFree()
      && hashShift <= HASH_BITS
      && Good(table[..], SizeLog2(), hash, contents)
      && entryCount == |contents|
      && removedCount == |RemovedSlots(table[..])|
    }

    /** At most three quarters of the slots are live or tombstones. */
    ghost predicate LoadBounded()
      reads this, table
      requires table != null
    {
      4 * (entryCount + removedCount) <= 3 * table.Length
    }

    ghost predicate Valid()
      reads this, table
    {
      Sound() && LoadBounded()
    }

    constructor (hash: K -> Word32, blankKey: K, blankValue: V)
      ensures table == null && contents == map[] && entryCount == removedCount == gen == 0
      ensures freeEntry.IsFree() && this.hash == hash
    {
      this.hash := hash;
      freeEntry := Entry(0, blankKey, blankValue);
      hashShift := HASH_BITS;
      entryCount, gen, removedCount := 0, 0, 0;
      table := null;
      contents := map[];
    }

    function Capacity(): nat
      reads this
      requires hashShift <= HASH_BITS
    {
      Pow2(HASH_BITS - hashShift)
    }

    predicate Overloaded()
      reads this
      requires hashShift <= HASH_BITS
    {
      OverloadedAt(entryCount, removedCount, Capacity())
    }

    predicate Underloaded()
      reads this
      requires hashShift <= HASH_BITS
    {
      UnderloadedAt(entryCount, Capacity())
    }

    /** The capacity that a rebuild of an overloaded table goes to: the same if a quarter are tombstones. */
    ghost function NextLog2(): nat
      reads this
      requires table != null
    {
      SizeLog2() + if 4 * removedCount >= table.Length then 0 else 1
    }

    /** An overloaded table can be rebuilt: memory is there for it and the capacity is not at its limit. */
    ghost predicate CanRebuild(memory: bool)
      reads this
      requires table != null
    {
      memory && NextLog2() <= MAX_CAPACITY_LOG2
    }

    /** The first slot not live that a search for k passes is a tombstone. */
    ghost predicate ReusesTombstone(k: K)
      reads this, table
      requires Sound()
    {
      exists i: nat ::
        && FirstNonLive(table[..], SizeLog2(), PrepareHash(hash(k)), i)
        && table[Probe(PrepareHash(hash(k)), SizeLog2(), i)].IsRemoved()
    }

    /** Adding k after a search has to rebuild the table first. */
    ghost predicate NeedsRebuild(k: K)
      reads this, table
      requires Sound()
    {
      k !in contents && !ReusesTombstone(k) && Overloaded()
    }

    /** malloc_; memory says whether it succeeds. A fresh table holds only free entries. */
    method CreateTable(capacity: nat, memory: bool) returns (newTable: array?<Entry<K, V>>)
      ensures newTable != null <==> memory
      ensures newTable != null ==> fresh(newTable) && newTable[..] == Blank(freeEntry, capacity)
    {
      if !memory { return null; }
      newTable := new Entry<K, V>[capacity](_ => freeEntry);
    }

    /** The shared probe loop of lookup and lookupForAdd. */
    method LookupEntry(k: K, keyHash: Word32, collisionBit: bool) returns (slot: nat, ghost i: nat, ghost j: nat)
      requires table != null && hashShift <= HASH_BITS && Sized(table[..], SizeLog2()) && Storable(keyHash)
      requires exists s :: 0 <= s < table.Length && (table[s].IsFree() || Hit(table[s], keyHash, k))
      modifies table
      ensures SearchEnds(old(table[..]), SizeLog2(), keyHash, k, j)
      ensures if collisionBit then MarkedUpTo(old(table[..]), table[..], SizeLog2(), keyHash, j)
              else table[..] == old(table[..])
      ensures Hit(old(table[Probe(keyHash, SizeLog2(), j)]), keyHash, k) ==> i == j
      ensures !Hit(old(table[Probe(keyHash, SizeLog2(), j)]), keyHash, k) ==>
                i <= j && FirstNonLive(old(table[..]), SizeLog2(), keyHash, i)
      ensures slot == Probe(keyHash, SizeLog2(), i)
    {
      hide Probe, Hash1, Hash2, ApplyDoubleHash, MarkedUpTo, FirstSeen, FirstNonLive, Hit, Pow2, Rank;
      ghost var n := SizeLog2();
      ghost var was := table[..];
      MarkStart(was, n, keyHash);
      ghost var stop :| 0 <= stop < table.Length && (table[stop].IsFree() || Hit(table[stop], keyHash, k));
      ghost var last := SearchStops(was, n, keyHash, k, stop);

      ProbeSteps(keyHash, n, 0);
      var h1 := Hash1(keyHash, HASH_BITS - hashShift);
      j := 0;
      assert FirstSeen(was, n, keyHash, 0, 0, -1) by { FirstSeenStart(was, n, keyHash); }
      if table[h1].IsFree() {
        FirstSeenDone(was, n, keyHash, 0, 0, -1);
        return h1, 0, 0;
      }
      if Hit(table[h1], keyHash, k) { return h1, 0, 0; }

      var h2 := Hash2(keyHash, HASH_BITS - hashShift);
      var firstRemoved: int := -1;
      i := 0;
      while true
        invariant j < last && h1 == Probe(keyHash, n, j) && h2 == Hash2(keyHash, n)
        invariant forall t: nat :: t <= j ==> !StopsAt(was, n, keyHash, k, t)
        invariant if collisionBit then MarkedUpTo(was, table[..], n, keyHash, j) else table[..] == was
        invariant FirstSeen(was, n, keyHash, i, j, firstRemoved)
        decreases last - j
      {
        assert !StopsAt(was, n, keyHash, k, j);
        FirstSeenNext(was, n, keyHash, i, j, firstRemoved);
        if collisionBit { MarkNext(was, table[..], n, keyHash, j); }
        if table[h1].IsRemoved() {
          if firstRemoved == -1 {
            firstRemoved, i := h1, j;
          }
        } else if collisionBit {
          table[h1] := table[h1].SetCollision();
        }

        ProbeSteps(keyHash, n, j);
        h1 := ApplyDoubleHash(h1, h2, HASH_BITS - hashShift);
        j := j + 1;
        if collisionBit { MarkedHere(was, table[..], n, keyHash, j); }
        if table[h1].IsFree() {
          FirstSeenDone(was, n, keyHash, i, j, firstRemoved);
          FreeIsNoHit(table[h1], keyHash, k);
          if firstRemoved != -1 {
            return firstRemoved, i, j;
          }
          return h1, j, j;
        }
        if Hit(table[h1], keyHash, k) {
          return h1, j, j;
        }
      }
    }

    /** A copy of the probe loop for a key that is absent: it stops at the first slot not live. */
    method FindFreeEntry(keyHash: Word32) returns (slot: nat, ghost j: nat)
      requires table != null && hashShift <= HASH_BITS && Sized(table[..], SizeLog2()) && Storable(keyHash)
      requires exists s :: 0 <= s < table.Length && !table[s].IsLive()
      modifies table
      ensures FirstNonLive(old(table[..]), SizeLog2(), keyHash, j)
      ensures MarkedUpTo(old(table[..]), table[..], SizeLog2(), keyHash, j)
      ensures slot == Probe(keyHash, SizeLog2(), j)
    {
      hide Probe, Hash1, Hash2, ApplyDoubleHash, MarkedUpTo;
      ghost var n := SizeLog2();
      ghost var was := table[..];
      MarkStart(was, n, keyHash);
      ghost var open :| 0 <= open < table.Length && !table[open].IsLive();
      ghost var last := Rank(keyHash, n, open);

      ProbeSteps(keyHash, n, 0);
      var h1 := Hash1(keyHash, HASH_BITS - hashShift);
      j := 0;
      if !table[h1].IsLive() { return h1, 0; }

      var h2 := Hash2(keyHash, HASH_BITS - hashShift);
      while true
        invariant j < last && h1 == Probe(keyHash, n, j) && h2 == Hash2(keyHash, n)
        invariant forall t: nat :: t <= j ==> was[Probe(keyHash, n, t)].IsLive()
        invariant MarkedUpTo(was, table[..], n, keyHash, j)
        decreases last - j
      {
        MarkNext(was, table[..], n, keyHash, j);
        table[h1] := table[h1].SetCollision();

        ProbeSteps(keyHash, n, j);
        h1 := ApplyDoubleHash(h1, h2, HASH_BITS - hashShift);
        j := j + 1;
        MarkedHere(was, table[..], n, keyHash, j);
        if !table[h1].IsLive() { return h1, j; }
      }
    }

    /** findFreeEntry(e.getKeyHash()) = Move(e), into a storage without tombstones. */
    method MoveIn(e: Entry<K, V>)
      requires table != null && hashShift <= HASH_BITS && Good(table[..], SizeLog2(), hash, contents)
      requires e.IsLive() && !e.HasCollision() && e.keyHash == PrepareHash(hash(e.key))
      requires e.key !in contents && |contents| < table.Length
      requires RemovedSlots(table[..]) == {}
      modifies this`contents, table
      ensures contents == old(contents)[e.key := e.value]
      ensures Good(table[..], SizeLog2(), hash, contents)
      ensures RemovedSlots(table[..]) == {}
      ensures table[..] == Insert(old(table[..]), SizeLog2(), e)
    {
      hide Probe, ProbePaths, Represents, Hashed, PathMarked, MarkedUpTo;
      ghost var n, was := SizeLog2(), table[..];
      ghost var open := NonLiveSlotExists(was, contents);
      assert !table[open].IsLive();
      var slot, j := FindFreeEntry(e.keyHash);
      MarkingIsHarmless(was, table[..], n, e.keyHash, j, contents, hash);
      FirstNonLivePath(was, table[..], n, e.keyHash, j, j);
      NoTombstoneAt(table[..], slot);
      PlacingIsSafe(table[..], n, hash, contents, slot, e);
      ghost var marked := table[..];
      table[slot] := e;
      assert table[..] == marked[slot := e] == Filled(marked, slot, e.keyHash, e.key, e.value);
      InsertIs(was, n, e, j, marked);
      contents := contents[e.key := e.value];
    }

    /** Copy only the live entries of an old storage into the fresh one, leaving tombstones behind. */
    method CopyLive(oldTable: array<Entry<K, V>>, oldCap: nat, ghost m: map<K, V>)
      requires table != null && table != oldTable && oldTable.Length == oldCap
      requires hashShift <= HASH_BITS && Good(table[..], SizeLog2(), hash, contents)
      requires contents == map[] && |m| < table.Length
      requires Represents(oldTable[..], m) && Hashed(oldTable[..], hash)
      requires RemovedSlots(table[..]) == {}
      modifies this`contents, table, oldTable
      ensures contents == m && Good(table[..], SizeLog2(), hash, contents)
      ensures RemovedSlots(table[..]) == {}
      ensures table[..] == Reinserted(old(oldTable[..]), old(table[..]), SizeLog2())
    {
      hide Probe, Reinserted, Insert, ProbePaths, Hashed, Represents, RemovedSlots;
      ghost var was, empty := oldTable[..], table[..];
      RepresentsEmpty(was[..0]);
      ReinsertedNone(empty, SizeLog2());
      for i := 0 to oldCap
        invariant oldTable[i..] == was[i..]
        invariant Good(table[..], SizeLog2(), hash, contents) && Represents(was[..i], contents)
        invariant RemovedSlots(table[..]) == {}
        invariant table[..] == Reinserted(was[..i], empty, SizeLog2())
      {
        LiveKeysDiffer(was, m);
        RepresentsNext(was, contents, i);
        ReinsertedNext(was, empty, SizeLog2(), i);
        assert oldTable[i] == oldTable[i..][0] == was[i];
        if oldTable[i].IsLive() {
          PrefixSmaller(was, m, i, contents);
          StoredUnderItsHash(was, hash, i);
          oldTable[i] := oldTable[i].UnsetCollision();
          InsertUnmarked(table[..], SizeLog2(), was[i]);
          MoveIn(oldTable[i]);
        }
      }
      assert was[..oldCap] == was;
      RepresentsUnique(was, m, contents);
    }

    /** Rebuild into a table of another (or the same) capacity: only live entries move over. */
    method ChangeTableSize(deltaLog2: int, memory: bool) returns (status: RebuildStatus)
      requires Sound() && -1 <= deltaLog2 <= 1
      requires deltaLog2 == -1 ==> SizeLog2() > MIN_SIZE_LOG2
      requires deltaLog2 != 1 ==> 4 * (entryCount + 1) <= 3 * Pow2(SizeLog2() + deltaLog2)
      requires deltaLog2 == 1 ==> 4 * entryCount <= 3 * table.Length
      modifies this, table
      ensures status != NotOverloaded && contents == old(contents) && entryCount == old(entryCount)
      ensures Sound()
      ensures status == Rehashed <==> memory && old(SizeLog2()) + deltaLog2 <= MAX_CAPACITY_LOG2
      ensures status == RehashFailed ==>
                && unchanged(this) && table[..] == old(table[..])
      ensures status == Rehashed ==>
                && fresh(table) && SizeLog2() == old(SizeLog2()) + deltaLog2
                && table[..] == Reinserted(old(table[..]), Blank(freeEntry, table.Length), SizeLog2())
                && gen == (old(gen) + 1) % TWO32
                && removedCount == 0 && 4 * (entryCount + 1) <= 3 * table.Length
                && RemovedSlots(table[..]) == {}
    {
      hide Probe, ProbePaths, Represents, Hashed, Reinserted;
      var oldTable, oldCap := table, Capacity();
      var newLog2 := HASH_BITS - hashShift + deltaLog2;
      var newCapacity := Pow2(newLog2);
      ResizeFacts(SizeLog2(), newLog2, entryCount);
      if newCapacity > MAX_CAPACITY { return RehashFailed; }

      var newTable := CreateTable(newCapacity, memory);
      if newTable == null { return RehashFailed; }

      ghost var was, m := table[..], contents;
      hashShift := HASH_BITS - newLog2;
      removedCount := 0;
      gen := (gen + 1) % TWO32;
      table := newTable;
      contents := map[];
      EmptyIsGood(table[..], newLog2, hash);
      CopyLive(oldTable, oldCap, m);
      assert RemovedSlots(table[..]) == {};
      return Rehashed;
    }

    /** Compress when a quarter of the slots are tombstones, else double. */
    method CheckOverloaded(memory: bool) returns (status: RebuildStatus)
      requires Valid()
      modifies this, table
      ensures Sound() && contents == old(contents) && entryCount == old(entryCount)
      ensures status == NotOverloaded <==> !old(Overloaded())
      ensures status == RehashFailed <==> old(Overloaded() && !CanRebuild(memory))
      ensures status != Rehashed ==> unchanged(this) && table[..] == old(table[..])
      ensures status == NotOverloaded ==> 4 * (entryCount + removedCount + 1) <= 3 * table.Length
      ensures status == Rehashed ==>
                && fresh(table) && gen == (old(gen) + 1) % TWO32 && SizeLog2() == old(NextLog2())
                && table[..] == Reinserted(old(table[..]), Blank(freeEntry, table.Length), SizeLog2())
                && removedCount == 0 && 4 * (entryCount + 1) <= 3 * table.Length
                && RemovedSlots(table[..]) == {}
    {
      hide Good, RemovedSlots, Reinserted, OverloadedAt, Pow2;
      SoundFacts();
      QuarterTest(removedCount, SizeLog2());
      if !Overloaded() { return NotOverloaded; }
      var deltaLog2 := if removedCount >= Capacity() / 4 then 0 else 1;
      status := ChangeTableSize(deltaLog2, memory);
    }

    /** Shrink when at most a quarter is live; running out of memory here is ignored. */
    method CheckUnderloaded(memory: bool)
      requires Valid()
      modifies this, table
      ensures Valid() && contents == old(contents) && entryCount == old(entryCount)
      ensures table == old(table) || fresh(table)
      ensures gen != old(gen) <==> old(Underloaded()) && memory
      ensures gen == old(gen) ==> unchanged(this) && table[..] == old(table[..])
      ensures gen != old(gen) ==>
                && fresh(table) && gen == (old(gen) + 1) % TWO32
                && SizeLog2() == old(SizeLog2()) - 1 && removedCount == 0
                && table[..] == Reinserted(old(table[..]), Blank(freeEntry, table.Length), SizeLog2())
    {
      hide Probe, ProbePaths, Represents, Hashed, Reinserted;
      CapacityFacts(SizeLog2());
      LoadTestsExact(entryCount, removedCount, SizeLog2());
      if Underloaded() {
        CapacityFacts(SizeLog2() - 1);
        var status := ChangeTableSize(-1, memory);
      }
    }

    /** Put a new entry on the slot a probe of its hash stopped at. */
    method FillSlot(slot: nat, k: K, v: V, keyHash: Word32)
      requires Sound() && slot < table.Length && !table[slot].IsLive()
      requires k !in contents && keyHash == PrepareHash(hash(k)) && PathMarked(table[..], SizeLog2(), keyHash, slot)
      modifies this, table
      ensures Sound() && contents == old(contents)[k := v] && HoldsKey(table[..], slot, k)
      ensures table == old(table) && gen == old(gen) && hashShift == old(hashShift)
      ensures entryCount == old(entryCount) + 1
      ensures removedCount == old(removedCount) - if old(table[slot].IsRemoved()) then 1 else 0
      ensures table[..] == Filled(old(table[..]), slot, keyHash, k, v)
      ensures KeepsSlots(old(table[..]), table[..], {}) && KeepsSlots(table[..], old(table[..]), {k})
    {
      hide Probe, ProbePaths, PathMarked, Hashed, Represents, KeepsSlots, RemovedSlots;
      ghost var was, n := table[..], SizeLog2();
      ghost var e := Entry(if was[slot].IsRemoved() then keyHash + 1 else keyHash, k, v);
      PlacingIsSafe(was, n, hash, contents, slot, e);
      CapacityFacts(n);
      var liveHash: Word32 := keyHash;
      if table[slot].IsRemoved() {
        removedCount := removedCount - 1;
        liveHash := keyHash + 1;
      }
      table[slot] := Entry(liveHash, k, v);
      entryCount := entryCount + 1;
      contents := contents[k := v];
      assert table[..] == was[slot := e];
    }

    /** Find the free entry of an absent key's hash and fill it. */
    method InsertAbsent(k: K, v: V, keyHash: Word32) returns (slot: nat)
      requires Sound() && k !in contents && |contents| < table.Length && keyHash == PrepareHash(hash(k))
      modifies this, table
      ensures Sound() && contents == old(contents)[k := v] && HoldsKey(table[..], slot, k)
      ensures table == old(table) && gen == old(gen) && hashShift == old(hashShift)
      ensures entryCount == old(entryCount) + 1 && removedCount <= old(removedCount)
      ensures table[..] == Insert(old(table[..]), SizeLog2(), Entry(keyHash, k, v))
      ensures KeepsSlots(old(table[..]), table[..], {}) && KeepsSlots(table[..], old(table[..]), {k})
    {
      hide Probe, ProbePaths, PathMarked, Hashed, Represents, MarkedUpTo, FirstNonLive, KeepsSlots, Insert;
      ghost var n, was, m := SizeLog2(), table[..], contents;
      ghost var open := NonLiveSlotExists(was, m);
      assert !table[open].IsLive();
      ghost var j;
      slot, j := FindFreeEntry(keyHash);
      ghost var marked := table[..];
      MarkingIsHarmless(was, marked, n, keyHash, j, m, hash);
      MarkingKeeps(was, marked, n, keyHash, j, {});
      MarkingKeeps(was, marked, n, keyHash, j, {k});
      FirstNonLiveHere(was, n, keyHash, j);
      FirstNonLivePath(was, marked, n, keyHash, j, j);
      FillSlot(slot, k, v, keyHash);
      InsertIs(was, n, Entry(keyHash, k, v), j, marked);
      KeepsTransitive(was, marked, table[..], {});
      KeepsTransitive(table[..], marked, was, {k});
    }

    /** Insert an absent key into a table that has room; never rebuilds. */
    method PutNewInfallible(k: K, v: V)
      requires Sound() && k !in contents && |contents| < table.Length
      modifies this, table
      ensures Sound() && contents == old(contents)[k := v]
      ensures table == old(table) && gen == old(gen) && hashShift == old(hashShift)
      ensures entryCount == old(entryCount) + 1 && removedCount <= old(removedCount)
      ensures table[..] == Insert(old(table[..]), SizeLog2(), Entry(PrepareHash(hash(k)), k, v))
      ensures KeepsSlots(old(table[..]), table[..], {}) && KeepsSlots(table[..], old(table[..]), {k})
    {
      hide Insert;
      var slot := InsertAbsent(k, v, PrepareHash(hash(k)));
    }

    /** Free the slot of a live entry, or leave a tombstone when something was probed past it. */
    method RemoveEntry(slot: nat)
      requires Sound() && slot < table.Length && table[slot].IsLive()
      modifies this, table
      ensures Sound() && contents == old(contents) - {old(table[slot].key)}
      ensures table == old(table) && gen == old(gen) && hashShift == old(hashShift)
      ensures entryCount == old(entryCount) - 1 && entryCount + removedCount <= old(entryCount + removedCount)
      ensures KeepsSlots(old(table[..]), table[..], {old(table[slot].key)})
      ensures table[slot] == freeEntry.(keyHash := if old(table[slot].HasCollision()) then 1 else 0)
      ensures forall s :: 0 <= s < table.Length && s != slot ==> table[s] == old(table[s])
    {
      hide Probe, ProbePaths, PathMarked, Hashed, KeepsSlots, Represents, RemovedSlots;
      ghost var was, n := table[..], SizeLog2();
      var e := freeEntry.(keyHash := if table[slot].HasCollision() then 1 else 0);
      ErasingIsSafe(was, n, hash, contents, slot, e);
      CapacityFacts(n);
      if table[slot].HasCollision() {
        table[slot] := e;
        removedCount := removedCount + 1;
      } else {
        table[slot] := e;
      }
      entryCount := entryCount - 1;
      contents := contents - {was[slot].key};
      assert table[..] == was[slot := e];
    }

    /**
     * Rehash in place: no second table, and the collision bits say which entries are placed. The result is
     * a table that inserting the entries one by one in some order would have built.
     */
    method RehashTable() returns (ghost order: seq<nat>)
      requires Sound()
      modifies this`removedCount, table
      ensures Sound() && contents == old(contents) && entryCount == old(entryCount)
      ensures table == old(table) && gen == old(gen) && hashShift == old(hashShift)
      ensures removedCount == 0 && RemovedSlots(table[..]) == {}
      ensures forall s: nat, x: nat ::
                s < table.Length && table[s].IsLive() && x < Rank(table[s].StoredHash(), SizeLog2(), s) ==>
                table[Probe(table[s].StoredHash(), SizeLog2(), x)].IsLive()
      ensures FilledInOrder(table[..], SizeLog2(), order)
      ensures forall s: nat :: s < table.Length && table[s].IsLive() <==> s in order
    {
      hide Probe, ProbePaths, PathMarked, Hashed, Represents, PlacedPaths, Rank, FilledInOrder, PlacedInOrder,
        RemovedSlots, Unplaced;
      ghost var was, n := table[..], SizeLog2();
      removedCount := 0;
      for i := 0 to Capacity()
        invariant removedCount == 0
        invariant forall s :: 0 <= s < i ==> table[s] == was[s].UnsetCollision()
        invariant forall s :: i <= s < table.Length ==> table[s] == was[s]
      {
        table[i] := table[i].UnsetCollision();
      }
      ClearedForRehash(was, table[..], n, hash, contents);
      order := [];
      NonePlaced(table[..], n);

      var i := 0;
      while i < Capacity()
        invariant i <= table.Length && removedCount == 0
        invariant PlacedPaths(table[..], n) && Hashed(table[..], hash) && Represents(table[..], contents)
        invariant PlacedInOrder(table[..], n, order)
        invariant forall s :: 0 <= s < i ==> !table[s].IsLive() || table[s].HasCollision()
        decreases |Unplaced(table[..])|, table.Length - i
      {
        if !table[i].IsLive() || table[i].HasCollision() {
          i := i + 1;
        } else {
          ghost var before := table[..];
          ghost var j := PlaceEntry(i);
          PlacedInOrderNext(before, n, order, i, j);
          order := order + [Probe(before[i].StoredHash(), n, j)];
        }
      }
      RehashDone(table[..], n);
      AllPlaced(table[..], n, order);
      assert |RemovedSlots(table[..])| == 0;
    }

    /** The inner loop of the in-place rehash: place the entry of slot i, or swap another one in. */
    method PlaceEntry(i: nat) returns (ghost j: nat)
      requires table != null && hashShift <= HASH_BITS && Sized(table[..], SizeLog2())
      requires PlacedPaths(table[..], SizeLog2()) && Hashed(table[..], hash) && Represents(table[..], contents)
      requires i < table.Length && table[i].IsLive() && !table[i].HasCollision()
      modifies table
      ensures PlacedPaths(table[..], SizeLog2()) && Hashed(table[..], hash) && Represents(table[..], contents)
      ensures |Unplaced(table[..])| < |Unplaced(old(table[..]))|
      ensures j < table.Length && !old(table[Probe(table[i].StoredHash(), SizeLog2(), j)].HasCollision())
      ensures forall x: nat :: x < j ==> old(table[Probe(table[i].StoredHash(), SizeLog2(), x)].HasCollision())
      ensures table[..] == old(PlaceBySwap(table[..], i, Probe(table[i].StoredHash(), SizeLog2(), j)))
      ensures forall s :: 0 <= s < i && old(table[s].IsLive() ==> table[s].HasCollision()) ==>
                (table[s].IsLive() ==> table[s].HasCollision())
    {
      hide Probe, PathMarked, Hashed, Represents, PlacedPaths, Hash1, Hash2, ApplyDoubleHash;
      ghost var was, n := table[..], SizeLog2();
      var keyHash := table[i].keyHash;
      j := 0;
      ProbeSteps(keyHash, n, 0);
      var h1 := Hash1(keyHash, HASH_BITS - hashShift);
      var h2 := Hash2(keyHash, HASH_BITS - hashShift);
      ghost var last := Rank(keyHash, n, i);
      while table[h1].HasCollision()
        invariant h1 == Probe(keyHash, n, j) && j <= last && table[..] == was
        invariant forall x: nat :: x < j ==> was[Probe(keyHash, n, x)].HasCollision()
        decreases last - j
      {
        ProbeSteps(keyHash, n, j);
        h1 := ApplyDoubleHash(h1, h2, HASH_BITS - hashShift);
        j := j + 1;
      }
      PlaceBySwapStep(was, n, hash, contents, i, j);
      var src := table[i];
      table[i] := table[h1];
      table[h1] := src;
      table[h1] := table[h1].SetCollision();
      assert table[..] == PlaceBySwap(was, i, h1);
    }

    /**
     * Infallibly rehash when tombstones have overloaded the table. That it is no longer overloaded then, as
     * the source asserts, is true exactly unless three quarters of the slots are live.
     */
    method CheckOverRemoved()
      requires Sound() && 4 * entryCount <= 3 * table.Length
      modifies this, table
      ensures Valid() && contents == old(contents) && entryCount == old(entryCount)
      ensures table == old(table) && gen == old(gen)
      ensures if old(Overloaded()) then removedCount == 0 else unchanged(this) && table[..] == old(table[..])
      ensures hashShift == old(hashShift) && (Overloaded() <==> 4 * entryCount == 3 * table.Length)
    {
      hide Good, RemovedSlots, OverloadedAt;
      SoundFacts();
      if Overloaded() {
        ghost var order := RehashTable();
        SoundFacts();
      }
    }

    // ----- Public operations -----

    lemma SoundFacts()
      requires Sound()
      ensures MIN_SIZE_LOG2 <= SizeLog2() <= MAX_CAPACITY_LOG2 && table.Length == Capacity() == Pow2(SizeLog2())
      ensures MIN_SIZE <= table.Length <= MAX_CAPACITY && entryCount + removedCount <= table.Length
      ensures Overloaded() <==> 4 * (entryCount + removedCount) >= 3 * table.Length
    {
      hide ProbePaths, Hashed, Represents;
      CapacityFacts(SizeLog2());
      LiveRemovedBound(table[..], contents);
      LoadTestsExact(entryCount, removedCount, SizeLog2());
    }

    lemma RoomToSearch()
      requires Valid()
      ensures exists s :: 0 <= s < table.Length && table[s].IsFree()
    {
      hide ProbePaths, Hashed, Represents;
      CapacityFacts(SizeLog2());
      var s := FreeSlotExists(table[..], contents);
      assert table[..][s] == table[s];
    }

    /**
     * Search without touching the table; it takes fewer probes than there are slots. A valid table always
     * has a free slot, but in the middle of a rekeying enumeration the search for an absent key needs one.
     */
    method Lookup(k: K) returns (slot: nat, ghost probes: nat)
      requires Sound() && (Valid() || k in contents || exists s :: 0 <= s < table.Length && table[s].IsFree())
      modifies table
      ensures table[..] == old(table[..]) && Sound()
      ensures slot < table.Length && probes < table.Length && slot == Probe(PrepareHash(hash(k)), SizeLog2(), probes)
      ensures table[slot].IsLive() <==> k in contents
      ensures k in contents ==> HoldsKey(table[..], slot, k) && table[slot].value == contents[k]
    {
      hide Probe, MarkedUpTo, ProbePaths, Represents, Hashed;
      var keyHash := PrepareHash(hash(k));
      SomewhereToStop(k);
      ghost var n, j := SizeLog2(), 0;
      slot, probes, j := LookupEntry(k, keyHash, false);
      SearchDecides(table[..], n, hash, contents, k, j);
      if k !in contents { FirstNonLiveHere(table[..], n, keyHash, probes); }
    }

    lemma SomewhereToStop(k: K)
      requires Sound() && (Valid() || k in contents || exists s :: 0 <= s < table.Length && table[s].IsFree())
      ensures exists s :: 0 <= s < table.Length && (table[s].IsFree() || Hit(table[s], PrepareHash(hash(k)), k))
    {
      hide ProbePaths, PrepareHash;
      if k in contents {
        var s :| HoldsKey(table[..], s, k);
        assert Hit(table[s], PrepareHash(hash(k)), k);
      } else if Valid() {
        RoomToSearch();
      }
    }

    /** p names the slot where the absent key k may be added. */
    ghost predicate AddReady(k: K, p: AddPtr)
      reads this, table
      requires Sound()
    {
      && k !in contents && p.keyHash == PrepareHash(hash(k))
      && p.slot < table.Length && !table[p.slot].IsLive()
      && PathMarked(table[..], SizeLog2(), p.keyHash, p.slot)
    }

    /** lookup(l, keyHash, sCollisionBit): marks what it passes, so that the result can be added at. */
    method LookupMarking(k: K, keyHash: Word32) returns (slot: nat)
      requires Valid() && keyHash == PrepareHash(hash(k))
      modifies table
      ensures Valid() && KeepsSlots(old(table[..]), table[..], {})
      ensures SearchLeaves(old(table[..]), table[..], SizeLog2(), keyHash, k, slot)
      ensures k !in contents ==> (table[slot].IsRemoved() <==> old(ReusesTombstone(k)))
      ensures ReusesTombstone(k) <==> old(ReusesTombstone(k))
      ensures slot < table.Length && (table[slot].IsLive() <==> k in contents)
      ensures k in contents ==> HoldsKey(table[..], slot, k) && table[slot].value == contents[k]
      ensures k !in contents ==> AddReady(k, AddPtr(slot, keyHash))
    {
      hide Probe, MarkedUpTo, ProbePaths, Represents, Hashed, PathMarked, KeepsSlots, RemovedSlots, FirstNonLive;
      RoomToSearch();
      ghost var n, was := SizeLog2(), table[..];
      ghost var i, j;
      slot, i, j := LookupEntry(k, keyHash, true);
      MarkingIsHarmless(was, table[..], n, keyHash, j, contents, hash);
      MarkingKeeps(was, table[..], n, keyHash, j, {});
      MarkedHere(was, table[..], n, keyHash, j);
      forall t: nat { MarkingKeepsFirst(was, table[..], n, keyHash, j, t); }
      SearchDecides(was, n, hash, contents, k, j);
      if k !in contents {
        MissIsNoHit(was, n, keyHash, k, j);
        MissLeavesRoom(was, table[..], n, hash, contents, k, i, j);
        StopsAtTombstone(was, table[..], n, keyHash, i, j);
      }
    }

    method LookupForAdd(k: K) returns (p: AddPtr)
      requires Valid()
      modifies table
      ensures Valid() && KeepsSlots(old(table[..]), table[..], {}) && p.keyHash == PrepareHash(hash(k))
      ensures SearchLeaves(old(table[..]), table[..], SizeLog2(), p.keyHash, k, p.slot)
      ensures k !in contents ==> (table[p.slot].IsRemoved() <==> old(ReusesTombstone(k)))
      ensures ReusesTombstone(k) <==> old(ReusesTombstone(k))
      ensures p.slot < table.Length && (table[p.slot].IsLive() <==> k in contents)
      ensures k in contents ==> HoldsKey(table[..], p.slot, k) && table[p.slot].value == contents[k]
      ensures k !in contents ==> AddReady(k, p)
    {
      var keyHash := PrepareHash(hash(k));
      var slot := LookupMarking(k, keyHash);
      p := AddPtr(slot, keyHash);
    }

    /**
     * Add at a slot found by lookupForAdd; on success q is where the entry is now. It fails exactly when the
     * table is overloaded, the slot is no tombstone, and the rebuild is impossible.
     */
    method Add(p: AddPtr, k: K, v: V, memory: bool) returns (ok: bool, q: AddPtr)
      requires Valid() && AddReady(k, p)
      modifies this, table
      ensures Valid()
      ensures ok <==> old(table[p.slot].IsRemoved() || !Overloaded() || CanRebuild(memory))
      ensures ok ==> contents == old(contents)[k := v] && HoldsKey(table[..], q.slot, k)
      ensures !ok ==> unchanged(this) && table[..] == old(table[..]) && q == p
      ensures gen != old(gen) <==> ok && old(!table[p.slot].IsRemoved() && Overloaded())
      ensures gen == old(gen) ==>
                && table == old(table) && hashShift == old(hashShift) && q.slot == p.slot
                && KeepsSlots(old(table[..]), table[..], {})
                && (ok ==> table[..] == Filled(old(table[..]), p.slot, p.keyHash, k, v))
                && removedCount == old(removedCount) - if ok && old(table[p.slot].IsRemoved()) then 1 else 0
      ensures gen != old(gen) ==> RebuiltFor(k, v)
      ensures ok ==> q.keyHash == p.keyHash + if old(table[p.slot].IsRemoved()) then 1 else 0
    {
      hide Good, PathMarked, KeepsSlots, RemovedSlots, OverloadedAt, HoldsKey, Pow2, Reinserted, Insert;
      q := p;
      SoundFacts();
      if table[p.slot].IsRemoved() {
        FillSlot(p.slot, k, v, p.keyHash);
        q := AddPtr(p.slot, p.keyHash + 1);
        return true, q;
      }
      var status := CheckOverloaded(memory);
      if status == RehashFailed {
        KeepsReflexive(table[..], {});
        return false, p;
      }
      if status == Rehashed {
        var slot := InsertAbsent(k, v, p.keyHash);
        return true, AddPtr(slot, p.keyHash);
      }
      FillSlot(p.slot, k, v, p.keyHash);
      return true, p;
    }

    /**
     * The table was rebuilt and k added: its storage is what inserting the old entries in the order of their
     * slots, and then k, into empty storage of the next capacity gives.
     */
    twostate predicate RebuiltFor(k: K, v: V)
      requires old(table) != null && old(hashShift) <= HASH_BITS && Sound()
      reads this, table
    {
      && fresh(table) && gen == (old(gen) + 1) % TWO32 && SizeLog2() == old(NextLog2()) && removedCount == 0
      && table[..] == Insert(Reinserted(old(table[..]), Blank(freeEntry, table.Length), SizeLog2()), SizeLog2(),
                             Entry(PrepareHash(hash(k)), k, v))
    }

    /** Add a key the caller knows to be absent. Unlike Add it looks for no tombstone to reuse first. */
    method PutNew(k: K, v: V, memory: bool) returns (ok: bool)
      requires Valid() && k !in contents
      modifies this, table
      ensures Valid()
      ensures ok <==> old(!Overloaded() || CanRebuild(memory))
      ensures ok ==> contents == old(contents)[k := v] && entryCount == old(entryCount) + 1
      ensures !ok ==> unchanged(this) && table[..] == old(table[..])
      ensures gen != old(gen) <==> ok && old(Overloaded())
      ensures gen == old(gen) ==>
                && table == old(table) && hashShift == old(hashShift) && removedCount <= old(removedCount)
                && KeepsSlots(old(table[..]), table[..], {})
                && (ok ==> table[..] == Insert(old(table[..]), SizeLog2(), Entry(PrepareHash(hash(k)), k, v)))
      ensures gen != old(gen) ==> RebuiltFor(k, v)
    {
      hide Good, PathMarked, KeepsSlots, RemovedSlots, OverloadedAt, Pow2, Reinserted, Insert;
      SoundFacts();
      var status := CheckOverloaded(memory);
      if status == RehashFailed {
        KeepsReflexive(table[..], {});
        return false;
      }
      PutNewInfallible(k, v);
      return true;
    }

    /** Repeat a lookupForAdd whose hash is still known, and add on a miss. */
    method RelookupOrAdd(p: AddPtr, k: K, v: V, memory: bool) returns (ok: bool, q: AddPtr)
      requires Valid() && p.keyHash == PrepareHash(hash(k))
      modifies this, table
      ensures Valid()
      ensures ok <==> old(NeedsRebuild(k) ==> CanRebuild(memory))
      ensures ok ==> contents == (if k in old(contents) then old(contents) else old(contents)[k := v])
      ensures ok ==> HoldsKey(table[..], q.slot, k)
      ensures !ok ==> unchanged(this)
      ensures gen != old(gen) <==> ok && old(NeedsRebuild(k))
      ensures gen == old(gen) ==> table == old(table) && KeepsSlots(old(table[..]), table[..], {})
      ensures gen == old(gen) ==> KeepsCapacity(ok && k !in old(contents) && old(ReusesTombstone(k)))
      ensures gen != old(gen) ==> fresh(table) && SizeLog2() == old(NextLog2()) && removedCount == 0
    {
      hide Good, PathMarked, KeepsSlots, RemovedSlots, OverloadedAt, Filled, Reinserted, Insert, SearchLeaves,
        ReusesTombstone;
      ghost var was := table[..];
      var slot := LookupMarking(k, p.keyHash);
      q := AddPtr(slot, p.keyHash);
      if table[slot].IsLive() { return true, q; }
      ghost var marked := table[..];
      ok, q := Add(q, k, v, memory);
      if gen == old(gen) { KeepsTransitive(was, marked, table[..], {}); }
    }

    /** No rebuild: the capacity stays, and so do the tombstones but for one that was reused. */
    twostate predicate KeepsCapacity(reused: bool)
      reads this
    {
      && hashShift == old(hashShift) && gen == old(gen)
      && removedCount == old(removedCount) - if reused then 1 else 0
    }

    /** Remove a found entry, then shrink if the table has become sparse and memory is there. */
    method RemoveFound(slot: nat, memory: bool)
      requires Valid() && slot < table.Length && table[slot].IsLive()
      modifies this, table
      ensures Valid() && contents == old(contents) - {old(table[slot].key)}
      ensures gen != old(gen) <==> memory && UnderloadedAt(entryCount, old(Capacity()))
      ensures gen == old(gen) ==>
                && table == old(table) && hashShift == old(hashShift)
                && KeepsSlots(old(table[..]), table[..], {old(table[slot].key)})
                && table[slot] == freeEntry.(keyHash := if old(table[slot].HasCollision()) then 1 else 0)
                && forall s :: 0 <= s < table.Length && s != slot ==> table[s] == old(table[s])
      ensures gen != old(gen) ==>
                && fresh(table) && gen == (old(gen) + 1) % TWO32
                && SizeLog2() == old(SizeLog2()) - 1 && removedCount == 0
    {
      hide Good, KeepsSlots, RemovedSlots, UnderloadedAt, Reinserted;
      RemoveEntry(slot);
      CheckUnderloaded(memory);
    }

    method Clear()
      requires Valid()
      modifies this, table
      ensures Valid() && contents == map[] && table == old(table) && gen == old(gen)
      ensures entryCount == removedCount == 0 && hashShift == old(hashShift)
      ensures table[..] == Blank(freeEntry, table.Length)
    {
      hide Good, RemovedSlots;
      ghost var n := SizeLog2();
      assert Sized(table[..], n) by { SoundFacts(); }
      for i := 0 to Capacity()
        invariant table == old(table) && hashShift == old(hashShift) && gen == old(gen)
        invariant forall s :: 0 <= s < i ==> table[s] == freeEntry
      {
        table[i] := freeEntry;
      }
      removedCount := 0;
      entryCount := 0;
      contents := map[];
      EmptyIsGood(table[..], n, hash);
    }

    /** Release the storage; init must be called again before any use. */
    method Finish()
      modifies this
      requires freeEntry.IsFree() && (table == null ==> contents == map[] && entryCount == removedCount == 0)
      ensures table == null && contents == map[] && entryCount == removedCount == 0
      ensures gen == if old(table) == null then old(gen) else (old(gen) + 1) % TWO32
    {
      if table == null { return; }
      table := null;
      gen := (gen + 1) % TWO32;
      entryCount := 0;
      removedCount := 0;
      contents := map[];
    }

    /** Storage for length entries: the least suitable power of two, without a later rebuild. */
    method Init(length: Word32, memory: bool) returns (ok: bool)
      requires table == null && freeEntry.IsFree()
      requires contents == map[] && entryCount == removedCount == 0
      modifies this
      ensures ok <==> length <= MAX_INIT && memory
      ensures !ok ==> unchanged(this)
      ensures ok ==> Valid() && contents == map[] && gen == old(gen) && fresh(table)
      ensures ok ==> table[..] == Blank(freeEntry, table.Length)
      ensures entryCount == removedCount == 0
      ensures ok ==> ((length * INV_MAX_ALPHA) % TWO32) / 128 <= table.Length <= MAX_CAPACITY
      ensures ok ==> table.Length == MIN_SIZE || table.Length < 2 * (((length * INV_MAX_ALPHA) % TWO32) / 128)
      ensures ok ==> forall count: nat :: count < length ==> !OverloadedAt(count, 0, table.Length)
    {
      if length > MAX_INIT { return false; }
      var capacity := ((length * INV_MAX_ALPHA) % TWO32) / 128;
      if capacity < MIN_SIZE { capacity := MIN_SIZE; }

      var roundUp, roundUpLog2 := MIN_SIZE, MIN_SIZE_LOG2;
      InitFits(length);
      while roundUp < capacity
        invariant roundUpLog2 >= MIN_SIZE_LOG2 && roundUp == Pow2(roundUpLog2)
        invariant roundUp == MIN_SIZE || roundUp < 2 * capacity
        decreases 2 * capacity - roundUp
      {
        roundUp := 2 * roundUp;
        roundUpLog2 := roundUpLog2 + 1;
      }
      InitLog2Fits(roundUpLog2);
      InitHasRoom(length, roundUpLog2);
      CapacityFacts(roundUpLog2);
      capacity := roundUp;

      var newTable := CreateTable(capacity, memory);
      if newTable == null { return false; }
      table := newTable;
      hashShift := HASH_BITS - roundUpLog2;
      EmptyIsGood(table[..], roundUpLog2, hash);
      assert RemovedSlots(table[..]) == {};
      return true;
    }

    // ----- HashMap operations -----

    method Has(k: K) returns (found: bool)
      requires Valid()
      modifies table
      ensures Valid() && table[..] == old(table[..]) && found == (k in contents)
    {
      var slot, _ := Lookup(k);
      found := table[slot].IsLive();
    }

    /** Overwrite or add. */
    method Put(k: K, v: V, memory: bool) returns (ok: bool)
      requires Valid()
      modifies this, table
      ensures Valid()
      ensures ok <==> old(NeedsRebuild(k) ==> CanRebuild(memory))
      ensures ok ==> contents == old(contents)[k := v]
      ensures !ok ==> unchanged(this)
      ensures gen != old(gen) <==> ok && old(NeedsRebuild(k))
      ensures gen == old(gen) ==> table == old(table) && KeepsSlots(old(table[..]), table[..], {})
      ensures gen == old(gen) ==> KeepsCapacity(ok && k !in old(contents) && old(ReusesTombstone(k)))
      ensures gen != old(gen) ==> fresh(table) && SizeLog2() == old(NextLog2()) && removedCount == 0
    {
      hide Good, PathMarked, KeepsSlots, RemovedSlots, OverloadedAt, Filled, Reinserted, Insert, SearchLeaves,
        ReusesTombstone;
      ghost var was := table[..];
      var p := LookupForAdd(k);
      ghost var marked := table[..];
      if table[p.slot].IsLive() {
        Overwrite(p.slot, v);
        KeepsTransitive(was, marked, table[..], {});
        return true;
      }
      var q;
      ok, q := Add(p, k, v, memory);
      if gen == old(gen) { KeepsTransitive(was, marked, table[..], {}); }
    }

    /** p->value = v */
    method Overwrite(slot: nat, v: V)
      requires Valid() && slot < table.Length && table[slot].IsLive()
      modifies this`contents, table
      ensures Valid() && contents == old(contents)[old(table[slot].key) := v]
      ensures old(table[slot].key) in old(contents)
      ensures table[..] == old(table[..])[slot := old(table[slot]).(value := v)]
      ensures KeepsSlots(old(table[..]), table[..], {})
    {
      hide Probe, ProbePaths, Hashed, Represents, KeepsSlots, RemovedSlots;
      ghost var was := table[..];
      UpdatingIsSafe(was, SizeLog2(), hash, contents, slot, v);
      table[slot] := table[slot].(value := v);
      contents := contents[was[slot].key := v];
      assert table[..] == was[slot := was[slot].(value := v)];
    }

    /** Add the default if the key is missing; the slot is not live when that ran out of memory. */
    method LookupWithDefault(k: K, defaultValue: V, memory: bool) returns (slot: nat)
      requires Valid()
      modifies this, table
      ensures Valid() && slot < table.Length
      ensures table[slot].IsLive() <==> old(NeedsRebuild(k) ==> CanRebuild(memory))
      ensures table[slot].IsLive() ==>
                && HoldsKey(table[..], slot, k)
                && contents == if k in old(contents) then old(contents) else old(contents)[k := defaultValue]
      ensures !table[slot].IsLive() ==> unchanged(this)
      ensures gen != old(gen) <==> table[slot].IsLive() && old(NeedsRebuild(k))
      ensures gen == old(gen) ==>
                && table == old(table) && KeepsSlots(old(table[..]), table[..], {})
                && KeepsCapacity(k !in old(contents) && old(ReusesTombstone(k)))
      ensures gen != old(gen) ==> fresh(table) && SizeLog2() == old(NextLog2()) && removedCount == 0
    {
      hide Good, PathMarked, KeepsSlots, RemovedSlots, OverloadedAt, Filled, Reinserted, Insert, SearchLeaves,
        ReusesTombstone;
      ghost var was := table[..];
      var p := LookupForAdd(k);
      if table[p.slot].IsLive() { return p.slot; }
      ghost var marked := table[..];
      var ok, q := Add(p, k, defaultValue, memory);
      if gen == old(gen) { KeepsTransitive(was, marked, table[..], {}); }
      return q.slot;
    }

    /** Remove if present. */
    method Remove(k: K, memory: bool)
      requires Valid()
      modifies this, table
      ensures Valid() && contents == old(contents) - {k}
      ensures k !in old(contents) ==> unchanged(this) && table[..] == old(table[..])
      ensures gen != old(gen) <==> k in old(contents) && memory && UnderloadedAt(entryCount, old(Capacity()))
      ensures gen == old(gen) ==>
                && table == old(table) && hashShift == old(hashShift) && KeepsSlots(old(table[..]), table[..], {k})
      ensures gen != old(gen) ==>
                && fresh(table) && gen == (old(gen) + 1) % TWO32
                && SizeLog2() == old(SizeLog2()) - 1 && removedCount == 0
    {
      hide Good, PathMarked, KeepsSlots, RemovedSlots, UnderloadedAt;
      var slot, _ := Lookup(k);
      if table[slot].IsLive() {
        RemoveFound(slot, memory);
      } else {
        assert contents == contents - {k};
        KeepsReflexive(table[..], {k});
      }
    }
  }
}
