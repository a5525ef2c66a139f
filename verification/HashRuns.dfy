/**
 * Whole runs of HashMap operations, whole enumerations among them (js/public/HashTable.h:1030-1220): from any
 * valid table, through every growth, compression, shrinking, in-place rehash and failed allocation on the way,
 * the answers are those of a finite map.
 */
module HashRuns {
  import opened Pow2s
  import opened HashTableSpec
  import opened HashTables
  import opened HashEnums
  import opened Options

  datatype Operation<K, V> =
    | Has(key: K) | Put(key: K, value: V) | PutNew(key: K, value: V)
    | LookupWithDefault(key: K, value: V) | Remove(key: K) | Clear
    | AddIfMissing(key: K, value: V) | RelookupOrAdd(key: K, value: V)
    | Enumerate(edits: seq<Edit<K>>)

  /** A reply: OutOfMemory for an operation that reported failure. */
  datatype Reply<K, V> =
    | Done | OutOfMemory | Found(value: V) | Missing
    | Edited(fronts: seq<K>, blocked: Option<K>)

  /**
   * What a finite map allows the operation to reply. An operation runs out of memory only if the allocator
   * does, or if the map holds more than 2^23 keys.
   */
  ghost predicate Allowed<K, V>(m: map<K, V>, op: Operation<K, V>, reply: Reply<K, V>, memory: bool) {
    && (reply.OutOfMemory? ==> !memory || |m| > MAX_INIT)
    && Fits(m, op, reply)
  }

  ghost predicate Fits<K, V>(m: map<K, V>, op: Operation<K, V>, reply: Reply<K, V>) {
    match op
    case Has(k) => reply == if k in m then Found(m[k]) else Missing
    case Put(k, v) => reply.Done? || (reply.OutOfMemory? && k !in m)
    case PutNew(k, v) => reply.Done? || reply.OutOfMemory?
    case LookupWithDefault(k, v) => if k in m then reply == Found(m[k]) else reply == Found(v) || reply.OutOfMemory?
    case Remove(k) => reply.Done?
    case Clear => reply.Done?
    case AddIfMissing(k, v) => if k in m then reply == Found(m[k]) else reply.Done? || reply.OutOfMemory?
    case RelookupOrAdd(k, v) => if k in m then reply == Found(m[k]) else reply == Found(v) || reply.OutOfMemory?
    case Enumerate(edits) => reply.Edited? && Enumerated(m, After(m, op, reply), edits, reply.fronts, reply.blocked)
  }

  /** What the operation makes of a finite map, given its reply. */
  ghost function After<K, V>(m: map<K, V>, op: Operation<K, V>, reply: Reply<K, V>): map<K, V> {
    match op
    case Has(k) => m
    case Put(k, v) => if reply.OutOfMemory? then m else m[k := v]
    case PutNew(k, v) => if reply.OutOfMemory? then m else m[k := v]
    case LookupWithDefault(k, v) => if reply.OutOfMemory? || k in m then m else m[k := v]
    case Remove(k) => m - {k}
    case Clear => map[]
    case AddIfMissing(k, v) => if reply.OutOfMemory? || k in m then m else m[k := v]
    case RelookupOrAdd(k, v) => if reply.OutOfMemory? || k in m then m else m[k := v]
    case Enumerate(edits) => if reply.Edited? then Replay(m, Prescribed(edits, reply.fronts)) else m
  }

  /** The map after the first operations of a run. */
  ghost function Final<K, V>(m: map<K, V>, ops: seq<Operation<K, V>>, replies: seq<Reply<K, V>>): map<K, V>
    requires |replies| <= |ops|
  {
    if replies == [] then m
    else
      var last := |replies| - 1;
      After(Final(m, ops, replies[..last]), ops[last], replies[last])
  }

  /** Every reply is one the map allows at that point; putNew is only used on absent keys up to there. */
  ghost predicate Explained<K, V>(m: map<K, V>, ops: seq<Operation<K, V>>, replies: seq<Reply<K, V>>,
                                  memory: nat -> bool)
    requires |replies| <= |ops|
  {
    forall i :: 0 <= i < |replies| ==> Allowed(Final(m, ops, replies[..i]), ops[i], replies[i], memory(i))
  }

  /** The key the operation adds, when it is absent. */
  ghost function AddedKey<K, V>(op: Operation<K, V>): Option<K> {
    if op.Put? || op.PutNew? || op.LookupWithDefault? || op.AddIfMissing? || op.RelookupOrAdd? then Some(op.key)
    else None
  }

  /** The operation has to rebuild the table first; all but putNew can reuse a tombstone instead. */
  ghost predicate HasToRebuild<K, V>(t: HashTable<K, V>, op: Operation<K, V>)
    reads t, t.table
    requires t.Sound()
  {
    AddedKey(op).Some? && if op.PutNew? then t.Overloaded() else t.NeedsRebuild(op.key)
  }

  /** A table that has to be rebuilt and cannot be, with memory there, has 2^24 slots and few tombstones. */
  lemma FullWhenStuck<K, V>(t: HashTable<K, V>, op: Operation<K, V>, memory: bool)
    requires t.Valid() && HasToRebuild(t, op) && !t.CanRebuild(memory)
    ensures !memory || |t.contents| > MAX_INIT
    ensures op.PutNew? || op.key !in t.contents
  {
    hide Good, RemovedSlots, OverloadedAt, Pow2;
    t.SoundFacts();
    if memory { Pow2_24(); }
  }

  lemma HeldValue<K, V>(t: HashTable<K, V>, slot: nat, k: K)
    requires t.Sound() && HoldsKey(t.table[..], slot, k)
    ensures k in t.contents && t.table[slot].value == t.contents[k]
  {
    hide RemovedSlots;
    FrontBinding(t.table[..], t.SizeLog2(), t.hash, t.contents, slot);
  }

  /** putNew asserts that the key is absent. */
  method TryPutNew<K(==), V>(t: HashTable<K, V>, k: K, v: V, memory: bool) returns (proper: bool, reply: Reply<K, V>)
    requires t.Valid()
    modifies t, t.table
    ensures t.Valid() && (t.table == old(t.table) || fresh(t.table))
    ensures proper <==> k !in old(t.contents)
    ensures proper ==> reply == if old(t.Overloaded() && !t.CanRebuild(memory)) then OutOfMemory else Done
    ensures t.contents == if proper && reply.Done? then old(t.contents)[k := v] else old(t.contents)
  {
    hide Good, RemovedSlots, KeepsSlots, OverloadedAt, Pow2, Reinserted, Insert;
    var present := t.Has(k);
    if present { return false, Missing; }
    var ok := t.PutNew(k, v, memory);
    return true, if ok then Done else OutOfMemory;
  }

  /** The entry of k, or of the default added for it. */
  method TryLookupWithDefault<K(==), V>(t: HashTable<K, V>, k: K, v: V, memory: bool) returns (reply: Reply<K, V>)
    requires t.Valid()
    modifies t, t.table
    ensures t.Valid() && (t.table == old(t.table) || fresh(t.table))
    ensures reply == if old(t.NeedsRebuild(k) && !t.CanRebuild(memory)) then OutOfMemory
                     else if k in old(t.contents) then Found(old(t.contents)[k]) else Found(v)
    ensures t.contents == if reply.OutOfMemory? || k in old(t.contents) then old(t.contents)
                          else old(t.contents)[k := v]
  {
    hide Good, RemovedSlots, KeepsSlots, OverloadedAt, Pow2, HashTable.ReusesTombstone, HashTable.CanRebuild;
    var slot := t.LookupWithDefault(k, v, memory);
    reply := if t.table[slot].IsLive() then Found(t.table[slot].value) else OutOfMemory;
    if t.table[slot].IsLive() { HeldValue(t, slot, k); }
  }

  /** lookupForAdd, and add on a miss. */
  method TryAddIfMissing<K(==), V>(t: HashTable<K, V>, k: K, v: V, memory: bool) returns (reply: Reply<K, V>)
    requires t.Valid()
    modifies t, t.table
    ensures t.Valid() && (t.table == old(t.table) || fresh(t.table))
    ensures reply == if old(t.NeedsRebuild(k) && !t.CanRebuild(memory)) then OutOfMemory
                     else if k in old(t.contents) then Found(old(t.contents)[k]) else Done
    ensures t.contents == if reply.OutOfMemory? || k in old(t.contents) then old(t.contents)
                          else old(t.contents)[k := v]
  {
    hide Good, RemovedSlots, KeepsSlots, OverloadedAt, Pow2, SearchLeaves, Filled, Insert, Reinserted,
      HashTable.ReusesTombstone;
    var p := t.LookupForAdd(k);
    if t.table[p.slot].IsLive() {
      reply := Found(t.table[p.slot].value);
    } else {
      var ok, q := t.Add(p, k, v, memory);
      reply := if ok then Done else OutOfMemory;
    }
  }

  /** lookupForAdd, and relookupOrAdd at once. */
  method TryRelookupOrAdd<K(==), V>(t: HashTable<K, V>, k: K, v: V, memory: bool) returns (reply: Reply<K, V>)
    requires t.Valid()
    modifies t, t.table
    ensures t.Valid() && (t.table == old(t.table) || fresh(t.table))
    ensures reply == if old(t.NeedsRebuild(k) && !t.CanRebuild(memory)) then OutOfMemory
                     else if k in old(t.contents) then Found(old(t.contents)[k]) else Found(v)
    ensures t.contents == if reply.OutOfMemory? || k in old(t.contents) then old(t.contents)
                          else old(t.contents)[k := v]
  {
    hide Good, RemovedSlots, KeepsSlots, OverloadedAt, Pow2, SearchLeaves;
    var p := t.LookupForAdd(k);
    var ok, q := t.RelookupOrAdd(p, k, v, memory);
    reply := if ok then Found(t.table[q.slot].value) else OutOfMemory;
    if ok { HeldValue(t, q.slot, k); }
  }

  /**
   * One operation; memory says whether the allocator grants the one allocation it may ask for. putNew asserts
   * that its key is absent, so it is tried only then: otherwise the run ends, and proper is false.
   */
  method Perform<K(==), V>(t: HashTable<K, V>, op: Operation<K, V>, memory: bool)
    returns (proper: bool, reply: Reply<K, V>)
    requires t.Valid()
    modifies t, t.table
    ensures t.Valid() && (t.table == old(t.table) || fresh(t.table))
    ensures proper <==> !(op.PutNew? && op.key in old(t.contents))
    ensures proper ==> Allowed(old(t.contents), op, reply, memory)
    ensures proper ==> (reply.OutOfMemory? <==> old(HasToRebuild(t, op) && !t.CanRebuild(memory)))
    ensures t.contents == if proper then After(old(t.contents), op, reply) else old(t.contents)
  {
    hide Good, RemovedSlots, KeepsSlots, Replay, Prescribed, Enumerated, OverloadedAt, UnderloadedAt, Pow2,
      HashTable.NeedsRebuild, HashTable.CanRebuild, HashTable.Overloaded, HashTable.Capacity;
    proper, reply := true, Done;
    if HasToRebuild(t, op) && !t.CanRebuild(memory) { FullWhenStuck(t, op, memory); }
    match op
    case Has(k) =>
      var slot, _ := t.Lookup(k);
      reply := if t.table[slot].IsLive() then Found(t.table[slot].value) else Missing;
    case Put(k, v) =>
      var ok := t.Put(k, v, memory);
      if !ok { reply := OutOfMemory; }
    case PutNew(k, v) =>
      proper, reply := TryPutNew(t, k, v, memory);
    case LookupWithDefault(k, v) =>
      reply := TryLookupWithDefault(t, k, v, memory);
    case Remove(k) => t.Remove(k, memory);
    case Clear => t.Clear();
    case AddIfMissing(k, v) =>
      reply := TryAddIfMissing(t, k, v, memory);
    case RelookupOrAdd(k, v) =>
      reply := TryRelookupOrAdd(t, k, v, memory);
    case Enumerate(edits) =>
      var fronts, blocked := RunEdits(t, edits, memory);
      reply := Edited(fronts, blocked);
  }

  /** Any run of operations, up to the first improper one; memory(i) is the allocator's answer to the i-th. */
  method Run<K(==), V>(t: HashTable<K, V>, ops: seq<Operation<K, V>>, memory: nat -> bool)
    returns (replies: seq<Reply<K, V>>)
    requires t.Valid()
    modifies t, t.table
    ensures t.Valid() && |replies| <= |ops|
    ensures Explained(old(t.contents), ops, replies, memory)
    ensures t.contents == Final(old(t.contents), ops, replies)
    ensures |replies| < |ops| ==> ops[|replies|].PutNew? && ops[|replies|].key in t.contents
  {
    ghost var m := t.contents;
    replies := [];
    while |replies| < |ops|
      invariant t.Valid() && (t.table == old(t.table) || fresh(t.table))
      invariant |replies| <= |ops| && Explained(m, ops, replies, memory) && t.contents == Final(m, ops, replies)
    {
      var proper, reply := Perform(t, ops[|replies|], memory(|replies|));
      if !proper { return; }
      ExplainedNext(m, ops, replies, reply, memory);
      replies := replies + [reply];
    }
  }

  lemma ExplainedNext<K, V>(m: map<K, V>, ops: seq<Operation<K, V>>, replies: seq<Reply<K, V>>, reply: Reply<K, V>,
                            memory: nat -> bool)
    requires |replies| < |ops| && Explained(m, ops, replies, memory)
    requires Allowed(Final(m, ops, replies), ops[|replies|], reply, memory(|replies|))
    ensures Explained(m, ops, replies + [reply], memory)
    ensures Final(m, ops, replies + [reply]) == After(Final(m, ops, replies), ops[|replies|], reply)
  {
    var next := replies + [reply];
    assert next[..|replies|] == replies;
    forall i | 0 <= i < |next|
      ensures Allowed(Final(m, ops, next[..i]), ops[i], next[i], memory(i))
    {
      if i < |replies| { assert next[..i] == replies[..i]; }
    }
  }
}
