/**
 * Whole runs of client operations on the heap of debugger values (js/jsd/jsd_val.c): what holds in every
 * state that a client can reach by creating, asking, listing, refreshing and dropping, in any order and with
 * allocation failing anywhere.
 */
module RefHeapRuns {
  import opened Options
  import opened RefHeapSpec
  import opened RefHeaps

  /**
   * A client names objects it holds a handle on. val, related and pds are what the engine supplies; memory and
   * grants what the allocator does.
   */
  datatype ClientOp =
    | New(val: JSVal, memory: bool)
    | Related(v: int, l: Label, related: Option<int>, memory: bool)
    | Iterate(v: int, iter: Option<nat>, pds: seq<PropertyDesc>, grants: nat)
    | Part(p: int, l: Label)
    | Refresh(v: int)
    | Release(x: int)

  /** What the source asserts of its callers. */
  predicate Proper(heap: map<int, Obj>, held: multiset<int>, op: ClientOp) {
    match op
    case New(_, _) => true
    case Related(v, l, _, _) => v in held && v in heap && heap[v].Value? && (l == Proto || l == Parent || l == Ctor)
    case Iterate(v, iter, _, _) =>
      && v in held && v in heap && heap[v].Value?
      && (heap[v].gotProps || (iter.None? && heap[v].val.ObjectVal?))
    case Part(p, l) => p in held && p in heap && heap[p].Property? && (l == Val || l == Name || l == Alias)
    case Refresh(v) => v in held && v in heap && heap[v].Value?
    case Release(x) => x in held
  }

  /** The handles a client has after an operation that handed out r. */
  function HeldNext(held: multiset<int>, op: ClientOp, r: Option<int>): multiset<int> {
    if op.Release? then held - multiset{op.x}
    else if r.Some? then held + multiset{r.value}
    else held
  }

  /** The handles a client has once it has been handed these objects, and dropped those it dropped. */
  function Held(ops: seq<ClientOp>, handed: seq<Option<int>>): multiset<int>
    requires |handed| <= |ops|
  {
    if handed == [] then multiset{}
    else
      var last := |handed| - 1;
      HeldNext(Held(ops, handed[..last]), ops[last], handed[last])
  }

  /** One operation of a client; improper ones do nothing. */
  method Perform(h: JSDHeap, held: multiset<int>, op: ClientOp) returns (proper: bool, r: Option<int>)
    requires Inv(h.St(), {}, {}) && h.handles == held
    modifies h
    ensures Inv(h.St(), {}, {}) && proper == Proper(old(h.heap), held, op)
    ensures h.handles == if proper then HeldNext(held, op, r) else held
    ensures !proper ==> h.heap == old(h.heap)
  {
    hide Inv;
    proper, r := Proper(h.heap, held, op), None;
    if !proper { return; }
    match op
    case New(val, memory) => r := h.NewValue(val, memory, {}, {});
    case Related(v, l, related, memory) => r := h.GetRelated(v, l, related, memory);
    case Iterate(v, iter, pds, grants) =>
      var next;
      r, next := h.IterateProperties(v, iter, pds, grants);
    case Part(p, l) => r := h.GetPart(p, l);
    case Refresh(v) => h.RefreshValue(v, {}, {}, h.next);
    case Release(x) => h.Drop(x);
  }

  /**
   * Any run from the empty heap, up to the first improper operation. In the state reached every held object
   * is there, every count is the number of handles on the object plus the number of owning edges into it, at
   * most one and from an older object, nothing else is counted, and without handles nothing is left.
   */
  method Run(ops: seq<ClientOp>) returns (h: JSDHeap, handed: seq<Option<int>>)
    ensures fresh(h) && Inv(h.St(), {}, {})
    ensures |handed| <= |ops| && h.handles == Held(ops, handed)
    ensures |handed| < |ops| ==> !Proper(h.heap, Held(ops, handed), ops[|handed|])
    ensures forall x :: x in Held(ops, handed) ==> x in h.heap
    ensures forall x :: x in h.heap ==>
              && h.heap[x].nref == Held(ops, handed)[x] + |EdgesInto(h.heap, x)| && h.heap[x].nref > 0
              && |EdgesInto(h.heap, x)| <= 1
              && forall e :: e in EdgesInto(h.heap, x) ==> e.holder < x && e.holder in h.heap
    ensures Held(ops, handed) == multiset{} ==> h.heap == map[]
  {
    hide Inv, EdgesInto;
    h := new JSDHeap();
    handed := [];
    var held: multiset<int> := multiset{};
    while |handed| < |ops|
      invariant fresh(h) && Inv(h.St(), {}, {}) && |handed| <= |ops|
      invariant h.handles == held == Held(ops, handed)
    {
      var proper, r := Perform(h, held, ops[|handed|]);
      if !proper { break; }
      assert (handed + [r])[..|handed|] == handed;
      held := HeldNext(held, ops[|handed|], r);
      handed := handed + [r];
    }
    forall x | x in held ensures x in h.heap { HandleIsLive(h.St(), {}, {}, x); }
    forall x | x in h.heap
      ensures h.heap[x].nref == held[x] + |EdgesInto(h.heap, x)| && h.heap[x].nref > 0
      ensures |EdgesInto(h.heap, x)| <= 1
      ensures forall e :: e in EdgesInto(h.heap, x) ==> e.holder < x && e.holder in h.heap
    {
      CountsAreReferences(h.St(), x);
    }
    if held == multiset{} { UnheldIsEmpty(h.St()); }
  }
}
