/**
 * mfbt/BloomFilter.h: a counting filter with 8-bit counters that stop at 255. Every key bumps the
 * counters of its two hashes, which may be one and the same counter.
 */
module BloomFilters {
  import opened Pow2s
  import opened Options

  const KEY_SHIFT: nat := 16
  const UINT8_MAX: nat := 255

  type Byte = x: int | 0 <= x <= 255

  function Hash1(hash: Word32, keySize: nat): (slot: nat)
    ensures slot < Pow2(keySize)
  {
    LowBits(hash, keySize)
  }

  function Hash2(hash: Word32, keySize: nat): (slot: nat)
    ensures slot < Pow2(keySize)
  {
    LowBits(Shr(hash, KEY_SHIFT), keySize)
  }

  // ----- What one operation does to the counters -----

  function Bump(counters: seq<Byte>, slot: nat): seq<Byte>
    requires slot < |counters|
  {
    if counters[slot] == UINT8_MAX then counters else counters[slot := counters[slot] + 1]
  }

  /** A counter that is not full goes down by one, and 0 wraps around to 255. */
  function Drop(counters: seq<Byte>, slot: nat): seq<Byte>
    requires slot < |counters|
  {
    if counters[slot] == UINT8_MAX then counters
    else counters[slot := if counters[slot] == 0 then UINT8_MAX else counters[slot] - 1]
  }

  function Added(counters: seq<Byte>, hash: Word32, keySize: nat): (after: seq<Byte>)
    requires |counters| == Pow2(keySize)
    ensures |after| == |counters|
  {
    Bump(Bump(counters, Hash1(hash, keySize)), Hash2(hash, keySize))
  }

  function Removed(counters: seq<Byte>, hash: Word32, keySize: nat): (after: seq<Byte>)
    requires |counters| == Pow2(keySize)
    ensures |after| == |counters|
  {
    Drop(Drop(counters, Hash1(hash, keySize)), Hash2(hash, keySize))
  }

  // ----- What the counters mean -----

  /** How often one key hits a slot: 0, 1 or 2. */
  function KeyHits(hash: Word32, slot: nat, keySize: nat): (n: nat)
  {
    (if Hash1(hash, keySize) == slot then 1 else 0) + (if Hash2(hash, keySize) == slot then 1 else 0)
  }

  ghost function Pick(keys: multiset<Word32>): (hash: Word32)
    requires keys != multiset{}
    ensures hash in keys
  {
    var hash :| hash in keys; hash
  }

  /** How often all the keys of a multiset hit a slot. */
  ghost function Hits(keys: multiset<Word32>, slot: nat, keySize: nat): nat
    decreases |keys|
  {
    if keys == multiset{} then 0
    else KeyHits(Pick(keys), slot, keySize) + Hits(keys - multiset{Pick(keys)}, slot, keySize)
  }

  /** One key more is its hits more, whatever order the keys are counted in. */
  lemma {:induction false} HitsOfOneMore(keys: multiset<Word32>, hash: Word32, slot: nat, keySize: nat)
    ensures Hits(keys + multiset{hash}, slot, keySize) == Hits(keys, slot, keySize) + KeyHits(hash, slot, keySize)
    decreases |keys|
  {
    hide KeyHits;
    var more := keys + multiset{hash};
    var first := Pick(more);
    if first == hash {
      assert more - multiset{first} == keys;
    } else {
      var fewer := keys - multiset{first};
      assert more - multiset{first} == fewer + multiset{hash};
      assert fewer + multiset{first} == keys;
      HitsOfOneMore(fewer, hash, slot, keySize);
      HitsOfOneMore(fewer, first, slot, keySize);
    }
  }

  /**
   * The members of the filter after each operation since it was last cleared, the newest last.
   */
  type Log = s: seq<multiset<Word32>> | |s| > 0 witness [multiset{}]

  function Members(log: Log): multiset<Word32> {
    log[|log| - 1]
  }

  /** At some time since the last clear the members hit the slot 255 times or more. */
  ghost predicate Overflowed(log: Log, slot: nat, keySize: nat) {
    exists k :: 0 <= k < |log| && Hits(log[k], slot, keySize) >= UINT8_MAX
  }

  /** A counter is the exact number of hits on its slot, or stuck at 255 if that was ever too many. */
  ghost function CounterOf(log: Log, slot: nat, keySize: nat): nat {
    if Overflowed(log, slot, keySize) then UINT8_MAX else Hits(Members(log), slot, keySize)
  }

  ghost predicate Represents(counters: seq<Byte>, log: Log, keySize: nat) {
    && |counters| == Pow2(keySize)
    && forall i :: 0 <= i < |counters| ==> counters[i] == CounterOf(log, i, keySize)
  }

  lemma OverflowedNext(log: Log, keys: multiset<Word32>, slot: nat, keySize: nat)
    ensures Overflowed(log + [keys], slot, keySize)
       <==> Overflowed(log, slot, keySize) || Hits(keys, slot, keySize) >= UINT8_MAX
  {
    var next := log + [keys];
    if Overflowed(log, slot, keySize) {
      var k :| 0 <= k < |log| && Hits(log[k], slot, keySize) >= UINT8_MAX;
      assert next[k] == log[k];
    }
    assert next[|log|] == keys;
  }

  lemma NotYetFull(log: Log, slot: nat, keySize: nat)
    ensures !Overflowed(log, slot, keySize) ==> Hits(Members(log), slot, keySize) < UINT8_MAX
  {
  }

  lemma AddedAt(counters: seq<Byte>, hash: Word32, keySize: nat, i: nat)
    requires |counters| == Pow2(keySize) && i < |counters|
    ensures var n := counters[i] + KeyHits(hash, i, keySize);
            Added(counters, hash, keySize)[i] == if n >= UINT8_MAX then UINT8_MAX else n
  {
  }

  lemma RemovedAt(counters: seq<Byte>, hash: Word32, keySize: nat, i: nat)
    requires |counters| == Pow2(keySize) && i < |counters|
    requires counters[i] >= KeyHits(hash, i, keySize)
    ensures Removed(counters, hash, keySize)[i]
         == if counters[i] == UINT8_MAX then UINT8_MAX else counters[i] - KeyHits(hash, i, keySize)
  {
  }

  lemma AddKeepsMeaning(counters: seq<Byte>, log: Log, hash: Word32, keySize: nat)
    requires Represents(counters, log, keySize)
    ensures Represents(Added(counters, hash, keySize), log + [Members(log) + multiset{hash}], keySize)
  {
    hide Added, KeyHits, Hits;
    var keys := Members(log) + multiset{hash};
    forall i | 0 <= i < |counters|
      ensures Added(counters, hash, keySize)[i] == CounterOf(log + [keys], i, keySize)
    {
      AddedAt(counters, hash, keySize, i);
      HitsOfOneMore(Members(log), hash, i, keySize);
      OverflowedNext(log, keys, i, keySize);
      NotYetFull(log, i, keySize);
    }
  }

  lemma RemoveKeepsMeaning(counters: seq<Byte>, log: Log, hash: Word32, keySize: nat)
    requires Represents(counters, log, keySize) && hash in Members(log)
    ensures Represents(Removed(counters, hash, keySize), log + [Members(log) - multiset{hash}], keySize)
  {
    hide Removed, KeyHits, Hits;
    var keys := Members(log) - multiset{hash};
    assert keys + multiset{hash} == Members(log);
    forall i | 0 <= i < |counters|
      ensures Removed(counters, hash, keySize)[i] == CounterOf(log + [keys], i, keySize)
    {
      HitsOfOneMore(keys, hash, i, keySize);
      NotYetFull(log, i, keySize);
      OverflowedNext(log, keys, i, keySize);
      AtMostTwo(hash, i, keySize);
      RemovedAt(counters, hash, keySize, i);
    }
  }

  lemma AtMostTwo(hash: Word32, slot: nat, keySize: nat)
    ensures KeyHits(hash, slot, keySize) <= 2
  {
  }

  /** Both slots of a member have a counter above zero. */
  lemma MemberIsSeen(counters: seq<Byte>, log: Log, hash: Word32, keySize: nat)
    requires Represents(counters, log, keySize) && hash in Members(log)
    ensures counters[Hash1(hash, keySize)] > 0 && counters[Hash2(hash, keySize)] > 0
  {
    var keys := Members(log) - multiset{hash};
    assert keys + multiset{hash} == Members(log);
    HitsOfOneMore(keys, hash, Hash1(hash, keySize), keySize);
    HitsOfOneMore(keys, hash, Hash2(hash, keySize), keySize);
    hide Hits, Hash1, Hash2;
  }

  /** Adding a key and removing it again restores exactly the counters that did not become full. */
  lemma AddThenRemove(counters: seq<Byte>, hash: Word32, keySize: nat, i: nat)
    requires |counters| == Pow2(keySize) && i < |counters|
    ensures var added := Added(counters, hash, keySize);
            Removed(added, hash, keySize)[i] == counters[i] <==> added[i] < UINT8_MAX || counters[i] == UINT8_MAX
  {
    hide Added, Removed, KeyHits;
    AddedAt(counters, hash, keySize, i);
    AtMostTwo(hash, i, keySize);
    RemovedAt(Added(counters, hash, keySize), hash, keySize, i);
  }

  /**
   * Removing a key that is not a member leaves the counters right exactly when both its slots are
   * stuck at 255; otherwise a counter becomes too low, or wraps around.
   */
  lemma RemoveOfStranger(counters: seq<Byte>, log: Log, hash: Word32, keySize: nat)
    requires Represents(counters, log, keySize) && hash !in Members(log)
    ensures Represents(Removed(counters, hash, keySize), log + [Members(log)], keySize)
       <==> counters[Hash1(hash, keySize)] == UINT8_MAX == counters[Hash2(hash, keySize)]
  {
    hide Hits, Hash1, Hash2;
    var after := Removed(counters, hash, keySize);
    forall i | 0 <= i < |counters|
      ensures CounterOf(log + [Members(log)], i, keySize) == counters[i]
    {
      NotYetFull(log, i, keySize);
      OverflowedNext(log, Members(log), i, keySize);
    }
    var a, b := Hash1(hash, keySize), Hash2(hash, keySize);
    if counters[a] != UINT8_MAX {
      assert after[a] != counters[a];
    } else if counters[b] != UINT8_MAX {
      assert after[b] != counters[b];
    }
  }

  /** Whoever hits a slot. */
  lemma {:induction false} SomeoneHits(keys: multiset<Word32>, slot: nat, keySize: nat) returns (k: Word32)
    requires Hits(keys, slot, keySize) > 0
    ensures k in keys && KeyHits(k, slot, keySize) > 0
    decreases |keys|
  {
    hide KeyHits;
    k := Pick(keys);
    if KeyHits(k, slot, keySize) == 0 {
      k := SomeoneHits(keys - multiset{k}, slot, keySize);
    }
  }

  /** Both counters of the key are above zero. */
  predicate Seen(counters: seq<Byte>, hash: Word32, keySize: nat)
    requires |counters| == Pow2(keySize)
  {
    counters[Hash1(hash, keySize)] > 0 && counters[Hash2(hash, keySize)] > 0
  }

  lemma SeenBySlots(counters: seq<Byte>, k: Word32, keySize: nat)
    requires |counters| == Pow2(keySize)
    ensures Seen(counters, k, keySize)
       <==> forall i :: 0 <= i < |counters| && KeyHits(k, i, keySize) > 0 ==> counters[i] > 0
  {
    assert KeyHits(k, Hash1(k, keySize), keySize) > 0 && KeyHits(k, Hash2(k, keySize), keySize) > 0;
    hide Hash1, Hash2;
  }

  /** A counter a key is removed from becomes zero exactly when it was the number of hits of that key. */
  lemma DroppedToZero(counters: seq<Byte>, hash: Word32, keySize: nat, i: nat)
    requires |counters| == Pow2(keySize) && i < |counters| && KeyHits(hash, i, keySize) > 0
    ensures Removed(counters, hash, keySize)[i] == 0 <==> counters[i] == KeyHits(hash, i, keySize)
    ensures Removed(counters, hash, keySize)[i] == UINT8_MAX
       <==> counters[i] == UINT8_MAX || counters[i] < KeyHits(hash, i, keySize)
    ensures Removed(counters, hash, keySize)[i] != UINT8_MAX ==>
              Removed(counters, hash, keySize)[i] == counters[i] - KeyHits(hash, i, keySize)
  {
    hide Hash1, Hash2;
  }

  lemma NotTouched(counters: seq<Byte>, hash: Word32, keySize: nat, i: nat)
    requires |counters| == Pow2(keySize) && i < |counters| && KeyHits(hash, i, keySize) == 0
    ensures Removed(counters, hash, keySize)[i] == counters[i]
  {
    hide Hash1, Hash2;
  }

  /**
   * Removing a stranger denies a member at once exactly when a counter of the stranger's is the number of
   * hits the stranger itself would have on it: only then does a counter that members hit become zero.
   */
  lemma StrangerDeniesExactly(counters: seq<Byte>, log: Log, hash: Word32, keySize: nat)
    requires Represents(counters, log, keySize) && hash !in Members(log)
    ensures var a, b := Hash1(hash, keySize), Hash2(hash, keySize);
            (forall k :: k in Members(log) ==> Seen(Removed(counters, hash, keySize), k, keySize)) <==>
            (counters[a] != KeyHits(hash, a, keySize) && counters[b] != KeyHits(hash, b, keySize))
  {
    var a, b, after := Hash1(hash, keySize), Hash2(hash, keySize), Removed(counters, hash, keySize);
    assert KeyHits(hash, a, keySize) > 0 && KeyHits(hash, b, keySize) > 0;
    assert forall i :: KeyHits(hash, i, keySize) > 0 ==> i == a || i == b;
    hide Removed, Hits, Hash1, Hash2, KeyHits, Seen;
    DroppedToZero(counters, hash, keySize, a);
    DroppedToZero(counters, hash, keySize, b);
    if counters[a] == KeyHits(hash, a, keySize) {
      DeniedThrough(counters, log, hash, keySize, a);
    } else if counters[b] == KeyHits(hash, b, keySize) {
      DeniedThrough(counters, log, hash, keySize, b);
    } else {
      forall k | k in Members(log) ensures Seen(after, k, keySize) {
        MemberHits(counters, log, k, keySize);
        SeenBySlots(after, k, keySize);
        forall i | 0 <= i < |counters| && KeyHits(k, i, keySize) > 0 ensures after[i] > 0 {
          if i != a && i != b { NotTouched(counters, hash, keySize, i); }
        }
      }
    }
  }

  lemma MemberHits(counters: seq<Byte>, log: Log, k: Word32, keySize: nat)
    requires Represents(counters, log, keySize) && k in Members(log)
    ensures forall i :: 0 <= i < |counters| && KeyHits(k, i, keySize) > 0 ==> counters[i] > 0
  {
    MemberIsSeen(counters, log, k, keySize);
    SeenBySlots(counters, k, keySize);
  }

  lemma DeniedThrough(counters: seq<Byte>, log: Log, hash: Word32, keySize: nat, i: nat)
    requires Represents(counters, log, keySize) && i < |counters|
    requires counters[i] == KeyHits(hash, i, keySize) > 0
    ensures exists k :: k in Members(log) && !Seen(Removed(counters, hash, keySize), k, keySize)
  {
    hide Removed, Hits, KeyHits, Seen;
    AtMostTwo(hash, i, keySize);
    DroppedToZero(counters, hash, keySize, i);
    var k := SomeoneHits(Members(log), i, keySize);
    SeenBySlots(Removed(counters, hash, keySize), k, keySize);
  }

  /** The first slot is the lowest keySize bits of the hash, the second the keySize bits from bit 16 up. */
  lemma SlotsByDivision(hash: Word32, keySize: nat)
    ensures Hash1(hash, keySize) == hash % Pow2(keySize)
    ensures Hash2(hash, keySize) == hash / 65536 % Pow2(keySize)
  {
    hide Pow2, LowBits, Shr;
    SmallPowers();
    ShrIsDiv(hash, 16);
    LowBitsIsMod(hash, keySize);
    LowBitsIsMod(Shr(hash, 16), keySize);
    ModUnique(hash, 65536, Shr(hash, 16), LowBits(hash, 16));
  }

  lemma SmallPowers()
    ensures Pow2(2) == 4 && Pow2(16) == 65536
  {
    assert Pow2(8) == 256;
    Pow2Add(8, 8);
  }

  /** Then a member can be denied: these two keys use the same two slots in the opposite order. */
  lemma StrangerHidesMember()
    ensures var keySize, member, stranger := 2, 0x0001_0002, 0x0002_0001;
            var empty := seq(Pow2(keySize), i requires 0 <= i < Pow2(keySize) => 0 as Byte);
            var counters := Removed(Added(empty, member, keySize), stranger, keySize);
            counters[Hash1(member, keySize)] == 0
  {
    SlotsByDivision(0x0001_0002, 2);
    SlotsByDivision(0x0002_0001, 2);
    SmallPowers();
    hide Pow2, Hash1, Hash2;
  }

  // ----- What a stranger's removal does to everything that follows -----

  datatype Op = AddOp(hash: Word32) | RemoveOp(hash: Word32)

  /** The counters after further operations. */
  function CountersAfter(counters: seq<Byte>, ops: seq<Op>, keySize: nat): (after: seq<Byte>)
    requires |counters| == Pow2(keySize)
    ensures |after| == |counters|
    decreases |ops|
  {
    if ops == [] then counters
    else if ops[0].AddOp? then CountersAfter(Added(counters, ops[0].hash, keySize), ops[1..], keySize)
    else CountersAfter(Removed(counters, ops[0].hash, keySize), ops[1..], keySize)
  }

  /** The members after further operations that remove only members; None if they do not. */
  function MembersAfter(keys: multiset<Word32>, ops: seq<Op>): Option<multiset<Word32>>
    decreases |ops|
  {
    if ops == [] then Some(keys)
    else if ops[0].AddOp? then MembersAfter(keys + multiset{ops[0].hash}, ops[1..])
    else if ops[0].hash in keys then MembersAfter(keys - multiset{ops[0].hash}, ops[1..])
    else None
  }

  /** Whatever is added, and whatever members are removed, from here on: no member is ever denied. */
  ghost predicate NeverDenies(counters: seq<Byte>, keys: multiset<Word32>, keySize: nat)
    requires |counters| == Pow2(keySize)
  {
    forall ops: seq<Op>, k: Word32 :: MembersAfter(keys, ops).Some? && k in MembersAfter(keys, ops).value ==>
      Seen(CountersAfter(counters, ops, keySize), k, keySize)
  }

  /** Each counter is the number of hits on its slot, or stuck, for whatever reason. */
  ghost predicate ExactOrStuck(counters: seq<Byte>, keys: multiset<Word32>, keySize: nat) {
    && |counters| == Pow2(keySize)
    && forall i :: 0 <= i < |counters| ==> counters[i] == UINT8_MAX || counters[i] == Hits(keys, i, keySize)
  }

  lemma AddKeepsExactOrStuck(counters: seq<Byte>, keys: multiset<Word32>, hash: Word32, keySize: nat)
    requires ExactOrStuck(counters, keys, keySize)
    ensures ExactOrStuck(Added(counters, hash, keySize), keys + multiset{hash}, keySize)
  {
    hide Added, KeyHits, Hits;
    forall i | 0 <= i < |counters|
      ensures Added(counters, hash, keySize)[i] == UINT8_MAX
           || Added(counters, hash, keySize)[i] == Hits(keys + multiset{hash}, i, keySize)
    {
      AddedAt(counters, hash, keySize, i);
      HitsOfOneMore(keys, hash, i, keySize);
    }
  }

  lemma RemoveKeepsExactOrStuck(counters: seq<Byte>, keys: multiset<Word32>, hash: Word32, keySize: nat)
    requires ExactOrStuck(counters, keys, keySize) && hash in keys
    ensures ExactOrStuck(Removed(counters, hash, keySize), keys - multiset{hash}, keySize)
  {
    hide Removed, KeyHits, Hits;
    var fewer := keys - multiset{hash};
    assert fewer + multiset{hash} == keys;
    forall i | 0 <= i < |counters|
      ensures Removed(counters, hash, keySize)[i] == UINT8_MAX
           || Removed(counters, hash, keySize)[i] == Hits(fewer, i, keySize)
    {
      HitsOfOneMore(fewer, hash, i, keySize);
      AtMostTwo(hash, i, keySize);
      RemovedAt(counters, hash, keySize, i);
    }
  }

  lemma {:induction false} ExactOrStuckSees(counters: seq<Byte>, keys: multiset<Word32>, ops: seq<Op>,
                                            k: Word32, keySize: nat)
    requires |counters| == Pow2(keySize) && ExactOrStuck(counters, keys, keySize)
    requires MembersAfter(keys, ops).Some? && k in MembersAfter(keys, ops).value
    ensures Seen(CountersAfter(counters, ops, keySize), k, keySize)
    decreases |ops|
  {
    hide ExactOrStuck, Added, Removed, Seen;
    if ops == [] {
      MemberIsStillSeen(counters, keys, k, keySize);
    } else if ops[0].AddOp? {
      AddKeepsExactOrStuck(counters, keys, ops[0].hash, keySize);
      ExactOrStuckSees(Added(counters, ops[0].hash, keySize), keys + multiset{ops[0].hash}, ops[1..], k, keySize);
    } else {
      RemoveKeepsExactOrStuck(counters, keys, ops[0].hash, keySize);
      ExactOrStuckSees(Removed(counters, ops[0].hash, keySize), keys - multiset{ops[0].hash}, ops[1..], k, keySize);
    }
  }

  lemma MemberIsStillSeen(counters: seq<Byte>, keys: multiset<Word32>, k: Word32, keySize: nat)
    requires ExactOrStuck(counters, keys, keySize) && k in keys
    ensures Seen(counters, k, keySize)
  {
    var fewer := keys - multiset{k};
    assert fewer + multiset{k} == keys;
    HitsOfOneMore(fewer, k, Hash1(k, keySize), keySize);
    HitsOfOneMore(fewer, k, Hash2(k, keySize), keySize);
    hide Hits, Hash1, Hash2;
  }

  /** Remove the keys one by one. */
  ghost function RemoveAll(keys: multiset<Word32>): seq<Op>
    decreases |keys|
  {
    if keys == multiset{} then [] else [RemoveOp(Pick(keys))] + RemoveAll(keys - multiset{Pick(keys)})
  }

  /** A counter that only counts keys is zero when they have been removed, although hash is still a member. */
  lemma {:induction false} RemoveAllEmpties(counters: seq<Byte>, keys: multiset<Word32>, hash: Word32,
                                            keySize: nat, i: nat)
    requires |counters| == Pow2(keySize) && i < |counters| && counters[i] == Hits(keys, i, keySize) < UINT8_MAX
    ensures MembersAfter(keys + multiset{hash}, RemoveAll(keys)) == Some(multiset{hash})
    ensures CountersAfter(counters, RemoveAll(keys), keySize)[i] == 0
    decreases |keys|
  {
    hide Removed, KeyHits;
    if keys == multiset{} {
      assert keys + multiset{hash} == multiset{hash};
    } else {
      var first := Pick(keys);
      var fewer := keys - multiset{first};
      assert fewer + multiset{first} == keys;
      assert keys + multiset{hash} - multiset{first} == fewer + multiset{hash};
      RemovedAt(counters, first, keySize, i);
      RemoveAllEmpties(Removed(counters, first, keySize), fewer, hash, keySize, i);
      assert RemoveAll(keys)[1..] == RemoveAll(fewer);
    }
  }

  /**
   * After the removal of a stranger no member is ever denied, however the filter is used from then on,
   * exactly when both of the stranger's counters end up stuck at 255: because they were, or because they
   * were lower than the stranger's hits and wrapped around.
   */
  lemma StrangerForgivenExactly(counters: seq<Byte>, log: Log, hash: Word32, keySize: nat)
    requires Represents(counters, log, keySize) && hash !in Members(log)
    ensures var a, b, after := Hash1(hash, keySize), Hash2(hash, keySize), Removed(counters, hash, keySize);
            NeverDenies(after, Members(log), keySize) <==> after[a] == UINT8_MAX == after[b]
  {
    var a, b, after := Hash1(hash, keySize), Hash2(hash, keySize), Removed(counters, hash, keySize);
    assert KeyHits(hash, a, keySize) > 0 && KeyHits(hash, b, keySize) > 0;
    assert forall i :: KeyHits(hash, i, keySize) > 0 ==> i == a || i == b;
    hide Removed, Hits, Hash1, Hash2, KeyHits, Seen;
    if after[a] != UINT8_MAX {
      DeniedLater(counters, log, hash, keySize, a);
    } else if after[b] != UINT8_MAX {
      DeniedLater(counters, log, hash, keySize, b);
    } else {
      forall i | 0 <= i < |after| ensures after[i] == UINT8_MAX || after[i] == Hits(Members(log), i, keySize) {
        if i != a && i != b { NotTouched(counters, hash, keySize, i); }
      }
      var keys := Members(log);
      forall ops: seq<Op>, k: Word32 | MembersAfter(keys, ops).Some? && k in MembersAfter(keys, ops).value
        ensures Seen(CountersAfter(after, ops, keySize), k, keySize)
      {
        ExactOrStuckSees(after, keys, ops, k, keySize);
      }
    }
  }

  /** Adding the stranger now, and removing everybody else, leaves it denied. */
  lemma DeniedLater(counters: seq<Byte>, log: Log, hash: Word32, keySize: nat, i: nat)
    requires Represents(counters, log, keySize) && i < |counters| && KeyHits(hash, i, keySize) > 0
    requires Removed(counters, hash, keySize)[i] != UINT8_MAX
    ensures !NeverDenies(Removed(counters, hash, keySize), Members(log), keySize)
  {
    hide Removed, Added, Hits, KeyHits, Seen;
    var keys, after := Members(log), Removed(counters, hash, keySize);
    DroppedToZero(counters, hash, keySize, i);
    AddedAt(after, hash, keySize, i);
    var ops := [AddOp(hash)] + RemoveAll(keys);
    assert ops[1..] == RemoveAll(keys);
    RemoveAllEmpties(Added(after, hash, keySize), keys, hash, keySize, i);
    SeenBySlots(CountersAfter(after, ops, keySize), hash, keySize);
    assert hash in MembersAfter(keys, ops).value;
  }

  class BloomFilter {
    const keySize: nat
    const counters: array<Byte>
    ghost var log: Log

    ghost predicate Valid()
      reads this, counters
    {
      keySize <= KEY_SHIFT && Represents(counters[..], log, keySize)
    }

    predicate Sized()
    {
      keySize <= KEY_SHIFT && counters.Length == Pow2(keySize)
    }

    /** keySize is limited so that the two hashes have bits of their own. */
    constructor (keySize: nat)
      requires keySize <= KEY_SHIFT
      ensures Valid() && fresh(counters) && this.keySize == keySize && log == [multiset{}]
    {
      this.keySize := keySize;
      counters := new Byte[Pow2(keySize)];
      log := [multiset{}];
      new;
      Clear();
    }

    method Clear()
      requires Sized()
      modifies this`log, counters
      ensures Valid() && log == [multiset{}]
      ensures forall i :: 0 <= i < counters.Length ==> counters[i] == 0
    {
      for i := 0 to counters.Length
        invariant forall k :: 0 <= k < i ==> counters[k] == 0
      {
        counters[i] := 0;
      }
      log := [multiset{}];
    }

    method Add(hash: Word32)
      requires Sized()
      modifies this`log, counters
      ensures old(Valid()) ==> Valid()
      ensures log == old(log) + [Members(old(log)) + multiset{hash}]
      ensures counters[..] == Added(old(counters[..]), hash, keySize)
    {
      hide Hash1, Hash2, CounterOf;
      if Valid() { AddKeepsMeaning(counters[..], log, hash, keySize); }
      log := log + [Members(log) + multiset{hash}];
      var slot1 := Hash1(hash, keySize);
      if counters[slot1] != UINT8_MAX {
        counters[slot1] := counters[slot1] + 1;
      }
      var slot2 := Hash2(hash, keySize);
      if counters[slot2] != UINT8_MAX {
        counters[slot2] := counters[slot2] + 1;
      }
    }

    method Remove(hash: Word32)
      requires Sized()
      modifies this`log, counters
      ensures log == old(log) + [Members(old(log)) - multiset{hash}]
      ensures counters[..] == Removed(old(counters[..]), hash, keySize)
      ensures old(Valid()) && hash in Members(old(log)) ==> Valid()
    {
      if Valid() && hash in Members(log) { RemoveKeepsMeaning(counters[..], log, hash, keySize); }
      log := log + [Members(log) - multiset{hash}];
      var slot1 := Hash1(hash, keySize);
      if counters[slot1] != UINT8_MAX {
        counters[slot1] := if counters[slot1] == 0 then UINT8_MAX else counters[slot1] - 1;
      }
      var slot2 := Hash2(hash, keySize);
      if counters[slot2] != UINT8_MAX {
        counters[slot2] := if counters[slot2] == 0 then UINT8_MAX else counters[slot2] - 1;
      }
    }

    /**
     * Whether both counters are above zero. While only members have been removed, no member is denied, and
     * the answer is yes exactly when both slots have hits left or overflowed.
     */
    method MightContain(hash: Word32) returns (answer: bool)
      requires Sized()
      ensures answer <==> Seen(counters[..], hash, keySize)
      ensures Valid() && hash in Members(log) ==> answer
      ensures Valid() ==> (answer <==>
                CounterOf(log, Hash1(hash, keySize), keySize) > 0 && CounterOf(log, Hash2(hash, keySize), keySize) > 0)
    {
      if Valid() && hash in Members(log) { MemberIsSeen(counters[..], log, hash, keySize); }
      answer := counters[Hash1(hash, keySize)] != 0 && counters[Hash2(hash, keySize)] != 0;
    }
  }

  // ----- Whole runs -----

  /** The log of a run of operations that removes only members; None if it removes a stranger. */
  ghost function LogAfter(ops: seq<Op>): Option<Log> {
    if ops == [] then Some([multiset{}])
    else
      var before := LogAfter(ops[..|ops| - 1]);
      var op := ops[|ops| - 1];
      if before.None? then None
      else if op.AddOp? then Some(before.value + [Members(before.value) + multiset{op.hash}])
      else if op.hash in Members(before.value) then Some(before.value + [Members(before.value) - multiset{op.hash}])
      else None
  }

  /** A cleared filter after any run of operations that removes only members: its counters mean what the run did. */
  method RunOps(filter: BloomFilter, ops: seq<Op>)
    requires filter.Valid() && LogAfter(ops).Some?
    modifies filter`log, filter.counters
    ensures filter.Valid() && filter.log == LogAfter(ops).value
  {
    filter.Clear();
    hide Represents, Added, Removed;
    for n := 0 to |ops|
      invariant filter.Valid() && LogAfter(ops[..n]) == Some(filter.log)
    {
      PrefixRuns(ops, n + 1);
      assert ops[..n + 1][..n] == ops[..n];
      match ops[n]
      case AddOp(hash) => filter.Add(hash);
      case RemoveOp(hash) => filter.Remove(hash);
    }
    assert ops[..|ops|] == ops;
  }

  lemma {:induction false} PrefixRuns(ops: seq<Op>, n: nat)
    requires n <= |ops| && LogAfter(ops).Some?
    ensures LogAfter(ops[..n]).Some?
    decreases |ops|
  {
    if n == |ops| {
      assert ops[..n] == ops;
    } else {
      PrefixRuns(ops[..|ops| - 1], n);
      assert ops[..|ops| - 1][..n] == ops[..n];
    }
  }
}
