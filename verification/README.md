# Verified models of SpiderMonkey's containers, hashing and debugger bookkeeping

A Dafny project about the parts of the engine whose correctness does not show in any one function.

* **The hash table** (`js/public/HashTable.h`): open addressing with double hashing over a power-of-two
  storage, tombstones, a collision bit per entry, rebuilds to another capacity, a rehash in place that reuses
  the collision bits as "already placed" marks, and an enumerator that removes and rekeys. `DoubleHashing` has
  the number theory of probe sequences, `HashTableSpec` the invariant on a storage and what each elementary
  change does to it, `HashTables` the class with the source's loops, `HashEnums` enumerations, `HashRuns` whole
  runs of map operations.
* **The call profiler** (`js/jsd/jsd_step.c`): `Profiler` is the call hook over profile objects linked by their
  caller pointers, `ProfilerRuns` compares it with an accounting that looks at the whole history of calls and
  returns.
* **Reference-counted debugger values** (`js/jsd/jsd_val.c`): `RefHeapSpec` states who owns whom and what every
  reference count is, `RefHeaps` has the operations with their release loops, `RefHeapRuns` whole runs of a client.
* **Overflow-checked integers** (`mfbt/CheckedInt.h`): `CheckedInts`, on top of `Bits` and `Pow2s`.
* **The growable vector** (`js/public/Vector.h`, `js/public/TemplateLib.h`, `js/public/Utility.h`): `Log2` for
  the logarithms and masks, `Vectors` for the buffer.
* **The reentrant lock** (`js/jsd/jsd_lock.c`): `ReentrantLock`, one atomic step per shared access.
* **Hashing and filters** (`mfbt/HashFunctions.h`, `mfbt/BloomFilter.h`): `HashFunctions`, `BloomFilters`.
* **The intrusive list** (`mfbt/LinkedList.h`): `LinkedLists`, with `Orbits` and `ListSanity` for its sanity check.

32-bit and 64-bit words are numbers below 2^32 and 2^64; every place where the code wraps around has an explicit
remainder. Whether an allocation succeeds is a parameter: `memory` for the one an operation may ask for, `grants` for
how many of several succeed before one fails. Clocks and the engine's answers are parameters too.

Six findings about the code itself:

* The assertion that a table rehashed at the end of an enumeration is no longer overloaded
  (`js/public/HashTable.h:587`) fails with three of four slots live and one entry rekeyed.
  `HashEnums.Enum.EndEnumeration` says exactly when: something was rekeyed and exactly three quarters of the slots
  are live. `HashEnums.RekeyedThreeOfFour` gets there from an empty table.
* `appendN` adds the two lengths on 64 bits without a check. `Vectors.WrappedGuard` says exactly when that lets the
  copies run over the end of the buffer; `Vectors.OverrunByOne` does it with one element.
* After a recursive call returns before its function's first outermost call does, the profiler's minimum times
  stay 0. `ProfilerRuns.MinimumIsExact` says exactly when they are right.
* `debugAssertIsSane` does not look at the `prev` pointer of the sentinel of a list that is not empty.
  `ListSanity.CheckMissesOneLink` says exactly what it establishes. (In the source the loops compare a pointer
  with the sentinel object; the model compares with its address.)
* Removing a key that was never added to a Bloom filter can make it deny a key that was.
  `BloomFilters.StrangerDeniesExactly` says exactly when it does so at once, and
  `BloomFilters.StrangerForgivenExactly` exactly when no later use of the filter will ever deny a member.
* The profiler charges a recursive call to the innermost function by first activation, which need not be the one
  running: with A calling B calling A, the time of the inner A goes to B.
  `ProfilerRuns.OwnTimeIsInnermostExactly` says exactly when the two are the same.

`dafny verify dfyconfig.toml` checks everything.

## Model

| member | source | states |
|---|---|---|
| DoubleHashing.WalkClosedForm | js/public/HashTable.h:402-413 | the shift-and-mask probe step walks down by the odd second hash modulo the capacity, for any number of steps |
| DoubleHashing.ProbeInjective | js/public/HashTable.h:393-413 | the first 2^k probes of a hash hit 2^k different slots |
| DoubleHashing.ProbeVisitsEverySlot | js/public/HashTable.h:393-413 | within 2^k probes every slot is reached, for every hash and every slot |
| DoubleHashing.HashesByDivision | js/public/HashTable.h:393-409 | the first slot is the number the k highest bits of the hash spell, and the step the number the next k bits spell (zeros following the hash) with its lowest bit set |
| HashTableSpec.PrepareHash | js/public/HashTable.h:305-313 | a prepared hash is never the free or the removed mark and has its collision bit clear; PreparedFrom says which one it is |
| HashTableSpec.PreparedFrom | js/public/HashTable.h:305-313 | a storable hash is prepared from exactly two hash codes, the inverse golden ratio times it and times one more; 2^32 - 2 also from the two codes that scramble to a reserved mark |
| HashTableSpec.RepresentsUnique | js/public/HashTable.h:137-178 | a storage stands for at most one finite map: keys are unique and each has one value |
| HashTableSpec.LiveCount | js/public/HashTable.h:242-246 | the number of live slots is the size of the map |
| HashTableSpec.MarkingIsHarmless | js/public/HashTable.h:429-481 | setting the collision bits along a search changes neither the map, the tombstones nor the probe-path invariant |
| HashTableSpec.SearchStops | js/public/HashTable.h:429-481 | a search in a storage that has a free slot or the key's entry ends, before it has made as many probes as there are slots |
| HashTableSpec.SearchEndsExactly | js/public/HashTable.h:429-481 | even when rekeying has used up the free slots, a search ends if and only if the key is present or a slot is free |
| HashTableSpec.SearchDecides | js/public/HashTable.h:429-481 | where a search ends there is the key's entry if the map has the key, and a free slot if not |
| HashTableSpec.MissLeavesRoom | js/public/HashTable.h:429-481 | a marking search that misses returns a slot, possibly the first tombstone, whose whole probe path is marked for the key |
| HashTableSpec.PlacingIsSafe | js/public/HashTable.h:739-773 | filling such a slot keeps every other entry reachable, adds exactly one binding and keeps the tombstone count exact; a reused tombstone must keep its bit |
| HashTableSpec.ErasingIsSafe | js/public/HashTable.h:591-605 | freeing an unmarked slot or tombstoning a marked one removes exactly one binding and keeps all other entries reachable |
| HashTableSpec.UpdatingIsSafe | js/public/HashTable.h:1192-1200 | overwriting a value changes exactly one binding |
| HashTableSpec.PlaceBySwapStep | js/public/HashTable.h:636-658 | one swap of the in-place rehash permutes the entries, gives the placed one an all-placed probe path, keeps the placed ones placed, and leaves fewer unplaced |
| HashTableSpec.RehashDone | js/public/HashTable.h:622-659 | when every live entry is placed, the probe-path invariant holds and no tombstone is left |
| HashTableSpec.PlacedInOrderNext | js/public/HashTable.h:636-658 | one swap of the in-place rehash extends the order of placement by one slot whose probe path was filled before it |
| HashTableSpec.InsertionBuildsTable | js/public/HashTable.h:615-621 | inserting the entries one by one in such an order, each at the first slot not live, builds exactly this table |
| HashTableSpec.SearchesAgree | js/public/HashTable.h:483-525 | without tombstones and for an absent key, findFreeEntry and lookupForAdd stop after the same number of collisions |
| HashTableSpec.MarkingDeterministic | js/public/HashTable.h:483-525 | the collision bits a search sets are determined by where it ends |
| HashTableSpec.SearchesPlaceAlike | js/public/HashTable.h:483-525 | so they return the same slot and leave the same storage, collision bits included |
| HashTables.LoadTestsExact | js/public/HashTable.h:415-423 | the two 32-bit load tests never overflow and compare with exactly three quarters and one quarter of the capacity |
| HashTables.InitFits | js/public/HashTable.h:344-357 | the 32-bit product of init does not wrap for any admissible length and rounds up to at most 2^24 |
| HashTables.InitHasRoom | js/public/HashTable.h:344-379 | a capacity of at least 171/128 of the length is not overloaded by fewer than length entries |
| HashTables.HashTable.LookupEntry | js/public/HashTable.h:429-481 | the probe loop terminates at the end of the search and marks exactly the live slots it passed, or nothing |
| HashTables.HashTable.FindFreeEntry | js/public/HashTable.h:491-525 | it stops at the first slot on the path that is not live, having marked the live ones before it |
| HashTables.HashTable.ChangeTableSize | js/public/HashTable.h:529-561 | to half, the same or double capacity, exactly when memory is there and that is at most 2^24: the same map, no tombstones, room for one more entry, a new generation, and the storage that inserting the live entries slot by slot into an empty one builds; else nothing changes |
| HashTables.HashTable.CheckOverloaded | js/public/HashTable.h:563-579 | rebuilds exactly when overloaded, with memory there and the new capacity at most 2^24: the same capacity if at least a quarter of the slots are tombstones, else twice that; afterwards there is room for one more entry; a failure changes nothing |
| HashTables.HashTable.CheckUnderloaded | js/public/HashTable.h:607-613 | halves the capacity exactly when at most a quarter is live and memory is there; the map and the three-quarters bound are kept |
| HashTables.HashTable.RemoveEntry | js/public/HashTable.h:591-605 | removes exactly one binding and writes only its slot, whose bit decides between free and tombstone; the entry in it is a blank one |
| HashTables.HashTable.RehashTable | js/public/HashTable.h:615-659 | terminates with the same map in the same storage, no tombstones, only live slots before each entry on its probe path, and an insertion order of all live slots that would have built this table |
| HashTables.HashTable.PlaceEntry | js/public/HashTable.h:636-658 | the inner loop ends because the unplaced source slot lies on the probe cycle, and one more entry is placed |
| HashTables.HashTable.CheckOverRemoved | js/public/HashTable.h:581-589 | re-establishes the load bound after rekeying without an allocation; afterwards the table is overloaded if and only if exactly three quarters of the slots are live |
| HashTables.HashTable.Lookup | js/public/HashTable.h:724-728 | the slot is live exactly when the map has the key, then holds its value, and was found in fewer probes than there are slots; nothing changes. In the middle of a rekeying enumeration too, if the key is present or a slot is free |
| HashTables.HashTable.LookupForAdd | js/public/HashTable.h:730-737 | as lookup, and a miss yields the first slot not live on the key's path, where it may be added; exactly the live slots before the end of the search get their collision bit |
| HashTables.HashTable.Add | js/public/HashTable.h:739-781 | adds exactly the new binding; it fails, changing nothing, exactly when the slot is no tombstone, the table is overloaded, and memory or capacity is lacking for the rebuild; a new generation exactly when it was rebuilt, and the whole new storage in either case |
| HashTables.HashTable.PutNewInfallible | js/public/HashTable.h:791-808 | in a table with room it adds an absent key at the slot findFreeEntry stops at, without moving anything and without failing |
| HashTables.HashTable.PutNew | js/public/HashTable.h:810-817 | as add for a key the caller knows to be absent, but an overloaded table is rebuilt even if a tombstone could be reused |
| HashTables.HashTable.RelookupOrAdd | js/public/HashTable.h:819-827 | the old binding is kept if there is one, else the new one is added, with failure and rebuild exactly as in put |
| HashTables.HashTable.RemoveFound | js/public/HashTable.h:829-836 | removes one binding and halves the capacity exactly when at most a quarter is then live and memory is there; without that no other slot is written |
| HashTables.HashTable.Clear | js/public/HashTable.h:662-674 | the empty map in the same storage, every slot a blank entry and both counters zero |
| HashTables.HashTable.Finish | js/public/HashTable.h:676-689 | no storage, no entries, and a new generation if there was a storage |
| HashTables.HashTable.Init | js/public/HashTable.h:344-379 | exactly for lengths up to 2^23 and with memory: the least power of two not below the requested capacity, and at most 2^24, all slots blank; adding up to length entries will not overload it |
| HashTables.HashTable.Put | js/public/HashTable.h:1192-1200 | the map with the key bound to the new value; it fails exactly when the key is absent, no tombstone comes first on its path, the table is overloaded, and memory or capacity is lacking; it rebuilds exactly then if nothing is lacking, to the capacity that checkOverloaded chooses |
| HashTables.HashTable.LookupWithDefault | js/public/HashTable.h:1208-1214 | the entry of the old binding or of the default added for it; no entry, and an unchanged map, exactly when put would fail |
| HashTables.HashTable.Remove | js/public/HashTable.h:1217-1220 | the map without the key; nothing at all changes for an absent one; the capacity is halved exactly when at most a quarter is then live and memory is there |
| HashRuns.Perform | js/public/HashTable.h:1030-1220 | any one map operation, lookup-then-add and whole enumerations included, replies as a finite map allows and leaves the table standing for that map's next state; it runs out of memory exactly when it has to rebuild and cannot, so only if the allocator fails or the map holds more than 2^23 keys |
| HashRuns.Run | js/public/HashTable.h:1030-1220 | over any run of map operations and enumerations, with the allocator failing anywhere, every reply and the final contents are those of a finite map, and no operation gives up while the allocator grants and there are at most 2^23 keys |
| HashEnums.Enum.RemoveFront | js/public/HashTable.h:205-211 | removes exactly the front binding in the middle of an enumeration |
| HashEnums.Enum.RekeyFront | js/public/HashTable.h:216-226 | moves exactly the front binding to the slot findFreeEntry finds for the new key and moves no other entry; its own key changes nothing |
| HashEnums.Enum.EndEnumeration | js/public/HashTable.h:233-238 | the destructor restores the three-quarters bound that rekeying may have broken, and keeps the map; the capacity is halved exactly when something was removed, at most a quarter is live and memory is there; the assertion on the way holds unless something was rekeyed and exactly three quarters of the slots are live |
| HashEnums.RekeyedThreeOfFour | js/public/HashTable.h:581-589 | for every hash function: from init(0), three additions and one rekeying lead to the failing assertion |
| HashEnums.RemoveWhere | js/public/HashTable.h:137-239 | removing while enumerating visits every original key exactly once and leaves the filtered map; the capacity is halved at most once, at the end, exactly when something was removed, at most a quarter is live and memory is there |
| HashEnums.TreatFront | js/public/HashTable.h:205-226 | one edit of the front does to the map what it says, and moves no other entry |
| HashEnums.RunEdits | js/public/HashTable.h:180-239 | any mixture of removals and rekeyings, each to a key absent when its turn comes or to the front's own, leaves the map that the edits describe; every original key is visited, and a key is visited again only if it was rekeyed to in between |
| HashEnums.InitThenFill | js/public/HashTable.h:344-379 | init(length) succeeds exactly up to 2^23 and with memory; length insertions of different keys then succeed without any memory and never rebuild |
| Profiler.JSDContext.CallHook | js/jsd/jsd_step.c:111-211 | the hook over linked profile objects does what the pure step function says, first calls, recursion and returns alike |
| ProfilerRuns.StepReaches | js/jsd/jsd_step.c:111-211 | one event keeps the caller chain, the stopped clocks and all statistics consistent with the history |
| ProfilerRuns.RunReaches | js/jsd/jsd_step.c:111-211 | so every well-nested run reaches a consistent state |
| ProfilerRuns.CallerLinksAreTheStack | js/jsd/jsd_step.c:119-144 | the current function and the caller links are at every moment the acyclic stack of first activations, the empty one included; a function not on it has no caller |
| ProfilerRuns.OwnTimeIsExact | js/jsd/jsd_step.c:127-189 | for a function not on the stack, the own time charged is the time it was on top of the stack of first activations, and the maximum that of one span |
| ProfilerRuns.OwnTimeIsInnermostExactly | js/jsd/jsd_step.c:119-189 | at every moment of a run and for all functions that is the time the function itself was running, if and only if whenever time passed the innermost call was on top of that stack |
| ProfilerRuns.OwnTimeIsTimeRunning | js/jsd/jsd_step.c:119-189 | so it is when functions on the stack are only called by themselves |
| ProfilerRuns.CalledBackThroughAnother | js/jsd/jsd_step.c:119-211 | a run of four events in which the function in between is charged for its caller |
| ProfilerRuns.TotalsAreExact | js/jsd/jsd_step.c:154-211 | total and maximum time, return count and deepest recursion are those of the history, and own time never exceeds total time |
| ProfilerRuns.MinimumIsExact | js/jsd/jsd_step.c:160-196 | the minimum times are the true minima exactly when no recursive call returned before the first outermost one, or the true minimum is 0 |
| ProfilerRuns.MinimumStaysZero | js/jsd/jsd_step.c:160-211 | a run of four events whose recorded minimum is 0 although its only span lasted 2 |
| ProfilerRuns.OwnTimesFillTheSpans | js/jsd/jsd_step.c:111-211 | the own times of all functions add up to the outermost spans, plus the running one |
| ProfilerRuns.OwnTimeIsConserved | js/jsd/jsd_step.c:111-211 | whenever the stack is empty, the recorded own times add up to the outermost call spans: nothing is lost or counted twice |
| RefHeapSpec.DetachKeeps | js/jsd/jsd_val.c:319-344 | turning an owning edge into a held reference keeps all counts right |
| RefHeapSpec.FreeKeeps | js/jsd/jsd_val.c:319-344 | an object with no reference to it and none from it can be freed without leaving a dangling pointer |
| RefHeapSpec.AttachKeeps | js/jsd/jsd_val.c:661-753 | giving a held reference to a cache field keeps all counts right and ownership going to newer objects |
| RefHeapSpec.AppendKeeps | js/jsd/jsd_val.c:409-456 | the same for a property joining a value's list |
| RefHeaps.JSDHeap.DropValue | js/jsd/jsd_val.c:319-344 | the mutually recursive release terminates, touches nothing older, takes away one reference, and frees the value exactly when that was the last; if not, nothing else changes; whatever survives a release keeps all but its count |
| RefHeaps.JSDHeap.DropProperty | js/jsd/jsd_val.c:849-861 | the same for a property with its value, name and alias |
| RefHeaps.JSDHeap.RefreshValue | js/jsd/jsd_val.c:461-494 | releases exactly the cached children and properties, keeps the invariant, and changes only counts of what survives |
| RefHeaps.JSDHeap.NewValue | js/jsd/jsd_val.c:276-317 | with memory, one new value for that jsval with one reference; without, the heap as it was |
| RefHeaps.JSDHeap.NewProperty | js/jsd/jsd_val.c:367-393 | exactly if three allocations succeed, or four with an alias: one new property with one reference, its name made from the described id, its value from the described value, its alias from the described alias; every partial failure leaves the heap as it was |
| RefHeaps.JSDHeap.BuildProps | js/jsd/jsd_val.c:409-456 | exactly if the allocations for all of them succeed, all described properties are listed in order, each with its own name, value and alias; else none, and nothing is left over |
| RefHeaps.JSDHeap.GetRelated | js/jsd/jsd_val.c:661-753 | prototype, parent and constructor getters hand out one new reference to what is cached; the first request caches a value for exactly the engine's object, or NULL if there is none, the value is primitive or memory is lacking, and changes nothing else |
| RefHeaps.JSDHeap.IterateProperties | js/jsd/jsd_val.c:517-537 | the property at the iterator with one new reference, all described properties having been listed as described first if need be and memory lasts; at the end nothing is handed out, and no other object changes |
| RefHeaps.JSDHeap.GetPart | js/jsd/jsd_val.c:821-841 | a property's name, value or alias with one new reference, and no other change |
| RefHeaps.JSDHeap.DropAll | js/jsd/jsd_val.c:319-344 | dropping every outstanding handle, in any order, empties the heap |
| RefHeapRuns.Perform | js/jsd/jsd_val.c:276-861 | any one client operation on objects the client holds keeps the invariant and changes its handles by what it is handed or drops |
| RefHeapRuns.Run | js/jsd/jsd_val.c:276-861 | over any run of client operations, with allocation failing anywhere: held objects are there, every count is the client's handles plus the owning edges, and once all handles are dropped nothing is left |
| RefHeaps.CountsAreReferences | js/jsd/jsd_val.c:276-344 | every count is the number of handles plus the number of owning edges into the object, at most one, from an older object, and is never zero |
| RefHeaps.UnheldIsEmpty | js/jsd/jsd_val.c:319-344 | without handles nothing is left: ownership has no cycles |
| RefHeaps.NothingLeft | js/jsd/jsd_val.c:367-393 | giving up half way through a construction frees everything it had built |
| CheckedInts.AddValidIsExact | mfbt/CheckedInt.h:353-369 | the sign-bit test on the wrapped sum, and the complement test, decide exactly whether the sum is in range |
| CheckedInts.SubValidIsExact | mfbt/CheckedInt.h:371-384 | the same for the difference |
| CheckedInts.MulValidIsExact | mfbt/CheckedInt.h:390-442 | the product in twice the width, or the division tests at the widest type, decide exactly whether the product is in range |
| CheckedInts.SignedDivisionTests | mfbt/CheckedInt.h:405-426 | the four truncating-division tests bound the product exactly, for either sign of either factor |
| CheckedInts.DivValidIsExact | mfbt/CheckedInt.h:444-451 | a quotient is valid exactly when the divisor is not zero and the truncated quotient is in range |
| CheckedInts.InRangeIsExact | mfbt/CheckedInt.h:296-351 | all five variants of the range test decide exactly whether a value of one type fits another |
| CheckedInts.OperationIsExact | mfbt/CheckedInt.h:707-722 | each binary operator is valid exactly when the exact result exists and is in range, and then stores it |
| CheckedInts.NegationIsExact | mfbt/CheckedInt.h:625-635 | unary minus is valid exactly when the operand is and the exact opposite is in range, and then stores it |
| CheckedInts.CheckedEvaluationIsExact | mfbt/CheckedInt.h:568-635 | for any expression tree, valid if and only if every leaf and every exact intermediate result is in range with no zero divisor, and then the exact value |
| Log2.FloorLog2Macro | js/public/Utility.h:302-317 | the shift cascade computes the same floor logarithm as the recursive template |
| Log2.FloorLog2wImpl | js/src/jslog2.cpp:39-60 | the 64-bit cascade too |
| Log2.CeilingLog2Macro | js/public/Utility.h:266-288 | the fallback ceiling macro agrees with the recursive template and with the word macro |
| Log2.CeilingIsLeast | js/public/Utility.h:343-343 | the ceiling logarithm is the least exponent whose power of two is not below n |
| Log2.CeilingsAgree | js/public/TemplateLib.h:42-53 | the compile-time and the run-time definition agree |
| Log2.OverflowMaskMeaning | js/public/TemplateLib.h:83-100 | a number has no bit under the overflow mask of n exactly when it is below 2^64 shifted down by the ceiling logarithm of n |
| Log2.OverflowMaskIsSound | js/public/TemplateLib.h:89-100 | then its product with n does not overflow |
| Vectors.NewCapacityIsExact | js/public/Vector.h:560-599 | succeeds exactly up to a limit on the unwrapped new length, and then gives the least power of two not below it, whose byte size is below 2^63 |
| Vectors.Vector.GrowStorageBy | js/public/Vector.h:605-653 | exactly with memory and up to the limit on the new length: the same contents in a fresh buffer of that least capacity, from inline or heap storage, each element moved once; else nothing changed |
| Vectors.Vector.Append | js/public/Vector.h:766-790 | one more element; it fails, changing nothing, exactly when there is no spare slot and memory or the limit is lacking; with a spare slot it keeps the buffer, else the new capacity is the least power of two that suffices |
| Vectors.Vector.Reserve | js/public/Vector.h:655-670 | exactly if the capacity suffices, or with memory and up to the limit: at least the requested capacity with the same contents; else nothing changed |
| Vectors.Vector.GrowBy | js/public/Vector.h:682-708 | that many default elements appended, for any length, or nothing changed, with failure and growth exactly as in append |
| Vectors.Vector.AppendN | js/public/Vector.h:794-818 | that many copies appended, or nothing changed, with failure and growth exactly as in append; the buffer would be overrun if and only if the new length does not fit 64 bits |
| Vectors.WrappedGuard | js/public/Vector.h:798-800 | growth is skipped although the elements do not fit exactly when the 64-bit sum wraps around |
| Vectors.OverrunByOne | js/public/Vector.h:794-818 | one element and a request for 2^64 - 1 more: the overrun |
| Vectors.Vector.Resize | js/public/Vector.h:717-727 | truncated or extended to the new length, or nothing changed, with failure and growth exactly as in append; truncating keeps the capacity |
| Vectors.Vector.PopCopy | js/public/Vector.h:916-923 | takes off and returns the last element |
| Vectors.Vector.Insert | js/public/Vector.h:820-839 | the element put in at the position and the rest shifted, or unchanged contents, with failure and growth exactly as in append |
| Vectors.Vector.Erase | js/public/Vector.h:841-851 | the contents without the element at the position |
| Vectors.Vector.ClearAndFree | js/public/Vector.h:749-763 | no elements, back on inline storage and its capacity |
| Vectors.Vector.ExtractRawBuffer | js/public/Vector.h:925-948 | hands over the heap buffer itself, or a fresh copy of inline elements, and leaves an empty vector on inline storage; it fails, changing nothing, exactly for inline elements without memory |
| Vectors.Vector.ReplaceRawBuffer | js/public/Vector.h:950-982 | takes over the given elements, copied inline when they fit |
| Vectors.AppendAll | js/public/Vector.h:766-790 | any number n of successful appends to a fresh vector moves at most 2n elements altogether, and the contents are what was appended; they stop only at a full buffer, for lack of memory or at the limit |
| Vectors.AppendWithin | js/public/Vector.h:766-790 | where there is room, any number of appends succeed without memory, move nothing and keep the buffer |
| Vectors.AppendReserved | js/public/Vector.h:655-670 | after a successful reserve the appends need no memory and cannot fail; the reserve moves each element once if it had to grow, and nothing else moves any |
| Vectors.Transfer | js/public/Vector.h:925-982 | extracting from one vector into another moves the contents over unchanged; it fails, changing neither, exactly for inline elements without memory |
| ReentrantLock.StepKeepsInv | js/jsd/jsd_lock.c:100-139 | every atomic step of any thread keeps the lock's fields as the holder's position says |
| ReentrantLock.MutualExclusion | js/jsd/jsd_lock.c:100-139 | in every interleaving at most one thread holds the lock |
| ReentrantLock.AssertionsHold | js/jsd/jsd_lock.c:107-119 | in every interleaving no assertion of jsd_Lock fails, and the count is not negative |
| ReentrantLock.DepthIsCounted | js/jsd/jsd_lock.c:100-139 | the unlocked owner test answers correctly for the testing thread, and the count is then its nesting depth |
| ReentrantLock.OnlyWaitsForHolder | js/jsd/jsd_lock.c:114-115 | a thread that cannot move is outside and waits for another one, which can move or is running its own code |
| ReentrantLock.StepIsAtomic | js/jsd/jsd_lock.c:100-139 | every step of every interleaving is one indivisible lock or unlock of an abstract reentrant lock, or changes nothing in it |
| ReentrantLock.ReleasedAtDepthZero | js/jsd/jsd_lock.c:122-139 | the mutex is given back exactly by the unlock that brings the depth from one to zero |
| HashFunctions.RotationInverts | mfbt/HashFunctions.h:61-66 | rotating on by the rest of the word restores it |
| HashFunctions.BitOfMixed | mfbt/HashFunctions.h:70-113 | undoing the multiplication of one step shows, at every place, the bit of the hash five places below, cyclically, exclusive-or the bit of the value |
| HashFunctions.MixedSmall | mfbt/HashFunctions.h:70-113 | on a hash below 2^27 and a value below 32 a step is the golden ratio times 32 times the hash plus the value |
| HashFunctions.BijectiveInValue | mfbt/HashFunctions.h:70-113 | for a fixed hash, exactly one value leads to each result |
| HashFunctions.BijectiveInHash | mfbt/HashFunctions.h:70-113 | for a fixed value, exactly one hash leads to each result |
| HashFunctions.GoldenRatioOrder | mfbt/HashFunctions.h:53-110 | a power of the golden ratio is 1 modulo 2^32 exactly when the exponent is a multiple of 2^29 |
| HashFunctions.MultiplicationCancels | mfbt/HashFunctions.h:104-110 | repeated multiplication brings an odd hash back to itself after exactly the multiples of 2^29 |
| HashFunctions.HashUntilZero | mfbt/HashFunctions.h:263-271 | the hash of exactly the units before the first zero, which it finds itself |
| HashFunctions.HashKnownLength | mfbt/HashFunctions.h:273-281 | the hash of that many units |
| HashFunctions.HashOfOneUnit | mfbt/HashFunctions.h:263-281 | a string of one unit hashes to the golden ratio times that unit, not to the unit |
| HashFunctions.HashOfLetterA | mfbt/HashFunctions.h:263-281 | the string of the one letter a hashes to 0xF3051F19 |
| HashFunctions.HashStringOverloads | mfbt/HashFunctions.h:263-303 | both agree on a terminated string, whatever follows the terminator |
| HashFunctions.SuffixKeepsApart | mfbt/HashFunctions.h:273-281 | different hashes stay different, whatever units are added |
| HashFunctions.OneUnitDecides | mfbt/HashFunctions.h:273-281 | two strings of one length that differ in one place never hash alike |
| HashFunctions.EveryHashOnce | mfbt/HashFunctions.h:273-281 | at any one place of any string exactly one unit leads to each hash |
| BloomFilters.HitsOfOneMore | mfbt/BloomFilter.h:146-157 | the hits of a multiset of keys on a slot do not depend on an order, and both hashes of a key may count |
| BloomFilters.SlotsByDivision | mfbt/BloomFilter.h:146-157 | the two slots of a key are the lowest keySize bits of its hash, and the keySize bits from bit 16 up |
| BloomFilters.AddKeepsMeaning | mfbt/BloomFilter.h:171-181 | after adding, each counter is the exact number of hits, or 255 if the hits ever reached that |
| BloomFilters.RemoveKeepsMeaning | mfbt/BloomFilter.h:190-204 | after removing a member too |
| BloomFilters.MemberIsSeen | mfbt/BloomFilter.h:215-221 | both counters of a member are above zero |
| BloomFilters.AddThenRemove | mfbt/BloomFilter.h:171-204 | adding and then removing a key restores exactly the counters that did not become full |
| BloomFilters.RemoveOfStranger | mfbt/BloomFilter.h:190-204 | removing a key that is no member leaves every counter the number of member hits, or rightly full, exactly when both its counters are stuck at 255 |
| BloomFilters.StrangerDeniesExactly | mfbt/BloomFilter.h:190-221 | it denies a member at once if and only if one of its counters is exactly the number of hits the stranger itself would have there |
| BloomFilters.StrangerForgivenExactly | mfbt/BloomFilter.h:166-221 | whatever is added, and whatever members are removed, afterwards, no member is ever denied, if and only if both its counters end at 255 |
| BloomFilters.StrangerHidesMember | mfbt/BloomFilter.h:190-221 | two keys for which removing the one makes the filter deny the other |
| BloomFilters.BloomFilter.Add | mfbt/BloomFilter.h:171-181 | the new counters, and that they mean the members with the key added if they did before |
| BloomFilters.BloomFilter.Remove | mfbt/BloomFilter.h:190-204 | the new counters for any key, and that they mean the members without it if it was one |
| BloomFilters.BloomFilter.Clear | mfbt/BloomFilter.h:164-169 | all counters zero, full ones included, and no members |
| BloomFilters.BloomFilter.MightContain | mfbt/BloomFilter.h:215-221 | whether both counters are above zero; while only members have been removed, never no for a member, and yes exactly when both slots have hits left or overflowed |
| BloomFilters.RunOps | mfbt/BloomFilter.h:146-224 | over any run of additions and removals of members, the counters mean the whole history since the last clear |
| LinkedLists.LinkedListElement.SetNextUnsafe | mfbt/LinkedList.h:205-213 | an element that is in no list is put in behind this one and the ring stays a ring |
| LinkedLists.LinkedListElement.SetPreviousUnsafe | mfbt/LinkedList.h:219-227 | and in front of this one |
| LinkedLists.LinkedListElement.SetNext | mfbt/LinkedList.h:133-136 | within a list, an element is put in behind this one and the ring stays a ring |
| LinkedLists.LinkedListElement.SetPrevious | mfbt/LinkedList.h:143-146 | within a list, and in front of this one |
| LinkedLists.LinkedListElement.Remove | mfbt/LinkedList.h:152-159 | an element leaves any ring from within and is then alone |
| LinkedLists.LinkedListElement.IsInList | mfbt/LinkedList.h:164-167 | the assertion holds and the answer is whether the ring has another element |
| LinkedLists.LinkedListElement.GetNext | mfbt/LinkedList.h:111-116 | the next element, or null at the end |
| LinkedLists.LinkedListElement.GetPrevious | mfbt/LinkedList.h:122-127 | the previous element, or null at the start |
| LinkedLists.LinkedList.InsertFront | mfbt/LinkedList.h:246-249 | the list with the element in front |
| LinkedLists.LinkedList.InsertBack | mfbt/LinkedList.h:254-256 | the list with the element at the back |
| LinkedLists.LinkedList.PopFirst | mfbt/LinkedList.h:282-287 | the first element, now in no list, and the list of the others; null from an empty list |
| LinkedLists.LinkedList.PopLast | mfbt/LinkedList.h:293-298 | the same for the last element |
| LinkedLists.LinkedList.IsEmpty | mfbt/LinkedList.h:303-305 | whether the list holds no element |
| LinkedLists.LinkedList.Clear | mfbt/LinkedList.h:313-316 | an empty list, and every former element in no list |
| LinkedLists.LinkedList.RemovedItself | mfbt/LinkedList.h:152-159 | when an element removes itself, its list is what it was without it |
| LinkedLists.LinkedList.CheckForCycle | mfbt/LinkedList.h:328-353 | on any pointers the tortoise and the hare stop within tail plus cycle rounds, without a failing assertion exactly when the walk comes back to the sentinel |
| LinkedLists.LinkedList.DebugAssertIsSane | mfbt/LinkedList.h:322-374 | on any pointers all four loops end, and no assertion fails exactly when the stated conditions hold |
| LinkedLists.LinkedList.HoldsIsWellFormed | mfbt/LinkedList.h:318-321 | a list holds some elements exactly when the pointers form a ring of them with one sentinel |
| LinkedLists.LinkedList.CheckedListIsWellFormed | mfbt/LinkedList.h:318-374 | what passes the check is a well-formed list exactly when the sentinel's prev is the last element |
| ListSanity.CheckMissesOneLink | mfbt/LinkedList.h:322-374 | every well-formed ring passes, and what passes is one exactly when one more link is right |
| ListSanity.PassesButIsNoRing | mfbt/LinkedList.h:322-374 | three nodes that pass the check and are no ring |
| Orbits.MeetingPoint | mfbt/LinkedList.h:328-341 | two walkers, one twice as fast, are on the same node within tail plus cycle steps |
| Orbits.NeverReturns | mfbt/LinkedList.h:332-341 | a node seen twice before any return to the sentinel means there is none |

## Left out

- HashTables.HashTable.RehashTable: entries move without a new generation, as in the source; slot stability is stated for the operations that promise it.
- HashEnums.RunEdits: a client that wants to rekey to a key already present ends the enumeration there, since the source asserts that the key is absent; it finds out by scanning, as a lookup need not end while free slots are used up.
- Vectors.Vector.AppendN: where the source would write past the end of the buffer the model stops and says so.
- A lookup in the hash table is a key and match is equality, as in HashMap with the default policy; HashSet, which stores its keys alone, is not modelled.
- The hash table's debug statistics, reentrancy guards, mutation count, move constructors, plain-data dispatch and memory reporting have no effect on its contents.
- Profiler.JSDContext.CallHook: times are whole microseconds instead of floating-point milliseconds, and counters do not wrap around.
- ProfilerRuns.RunReaches: runs have a positive, non-decreasing clock; client hooks, toggling of profiling flags, clearing profile data in mid-run and scripts without profile data are not modelled.
- RefHeaps.JSDHeap: the heap is a map of records under addresses that are never used again, so reuse of an address, and the aliasing of two pointers to the in-place record, are not captured; an engine object is a number, and what the engine reports about it is a parameter.
- RefHeaps.JSDHeap.NewProperty: a property's flags are reduced to whether it has an alias.
- RefHeaps.JSDHeap.BuildProps: the engine always delivers its array of descriptions; when it does not, the source lists nothing and asks again later.
- RefHeaps.JSDHeap.IterateProperties: an iterator is a position in the list, so an iterator kept across a refresh is not modelled.
- The cached strings, function names and class names of debugger values, jsd_GetValueProperty, garbage-collection roots and failing cross-compartment calls are engine calls that cannot be seen.
- CheckedInts.CheckedEvaluationIsExact: compound assignment and increments, which assign the result of the same operators, are not repeated; negating the least signed value stores the wrapped value, which C++ leaves undefined, under an invalid flag.
- Vectors.Vector.Insert: the inserted value is not a reference into the same vector.
- Vectors.AppendAll: a reallocation of a heap buffer counts as a move of every element.
- Range append, the debug-only reserve bookkeeping, move construction and memory reporting of the vector.
- ReentrantLock.MutualExclusion: memory is sequentially consistent, and the mutex is correct but promises no fairness; creating a lock is not modelled.
- HashFunctions.RotateBitsLeft32: rotation by 0 is not modelled, since it shifts by 32, which C++ leaves undefined; hashing only rotates by 5.
- HashFunctions.HashKnownLength: a unit is what its character is converted to, 32 bits; HashBytes and pointers, which drop or split 64-bit words, are not modelled.
- BloomFilters.BloomFilter.Add: a key is its 32-bit hash; the rate of wrong answers is not modelled.
- LinkedLists.LinkedListElement.SetNext: inserting into a ring that the element is already in is a failed assertion in the source and is excluded here.
- The sizes of list elements, and the cast from list element to the client's type.
- The interprocess, XPCOM and engine parts of the debugger and the engine, and every benchmark and tool: what they do is input and output, or calls into libraries that are not part of this model.
