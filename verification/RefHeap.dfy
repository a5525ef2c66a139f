/**
 * The operations of js/jsd/jsd_val.c on the heap of debugger values: creating, caching, listing
 * and releasing. Ghost arguments say which edges and objects the callers up the stack are in the
 * middle of releasing or building; a client call passes none.
 */
module RefHeaps {
  import opened Options
  import opened RefHeapSpec

  /** One entry of the engine's property description array; hasAlias is the flag JSDPD_ALIAS. */
  datatype PropertyDesc = PropertyDesc(id: JSVal, value: JSVal, alias: JSVal, hasAlias: bool)

  function FreshValue(val: JSVal): Obj {
    Value(1, map[], val, [], {}, false)
  }

  /** The part l of the property p is a value of its own for val. */
  ghost predicate PartIs(heap: map<int, Obj>, p: int, l: Label, val: JSVal)
    requires p in heap
  {
    l in heap[p].refs && p < heap[p].refs[l] && heap[p].refs[l] in heap && heap[heap[p].refs[l]] == FreshValue(val)
  }

  /** A property as described: the name from the id, the value from the value, and an alias if there is one. */
  ghost predicate Describes(heap: map<int, Obj>, p: int, pd: PropertyDesc) {
    && p in heap && heap[p].Property? && heap[p].nref == 1
    && PartIs(heap, p, Name, pd.id) && PartIs(heap, p, Val, pd.value)
    && (Alias in heap[p].refs <==> pd.hasAlias) && (pd.hasAlias ==> PartIs(heap, p, Alias, pd.alias))
  }

  /** How many allocations a property takes, and how many several properties take. */
  function Cost(pd: PropertyDesc): nat {
    if pd.hasAlias then 4 else 3
  }

  function TotalCost(pds: seq<PropertyDesc>): nat {
    if pds == [] then 0 else TotalCost(pds[..|pds| - 1]) + Cost(pds[|pds| - 1])
  }

  lemma {:induction false} CostOfPrefix(pds: seq<PropertyDesc>, i: nat)
    requires i < |pds|
    ensures TotalCost(pds[..i]) + Cost(pds[i]) == TotalCost(pds[..i + 1]) <= TotalCost(pds)
    decreases |pds| - i
  {
    assert pds[..i + 1][..i] == pds[..i];
    if i + 1 == |pds| { assert pds[..i + 1] == pds; } else { CostOfPrefix(pds, i + 1); }
  }

  /** The list of v holds i properties, all newer than floor, as the first i descriptions say. */
  ghost predicate Listing(heap: map<int, Obj>, v: int, pds: seq<PropertyDesc>, i: nat, floor: int) {
    && i <= |pds| && v in heap && heap[v].Value? && |heap[v].props| == i
    && forall j :: 0 <= j < i ==> floor <= heap[v].props[j] && Describes(heap, heap[v].props[j], pds[j])
  }

  /**
   * What releasing does to everything but some objects: what is still there has at most lost references, and
   * nothing is new.
   */
  ghost predicate Survivors(a: map<int, Obj>, b: map<int, Obj>, but: set<int>) {
    b.Keys <= a.Keys && forall y :: y in b && y !in but ==> b[y] == a[y].WithCount(b[y].nref)
  }

  /** The heap with one more reference counted on the object handed out, if any. */
  ghost function CountedUp(heap: map<int, Obj>, r: Option<int>): map<int, Obj> {
    if r.Some? && r.value in heap then heap[r.value := heap[r.value].WithCount(heap[r.value].nref + 1)] else heap
  }

  lemma ListingStart(heap: map<int, Obj>, v: int, pds: seq<PropertyDesc>, floor: int)
    requires v in heap && heap[v].Value? && heap[v].props == []
    ensures Listing(heap, v, pds, 0, floor)
  {
  }

  lemma DescribesKept(a: map<int, Obj>, b: map<int, Obj>, p: int, pd: PropertyDesc, v: int)
    requires Describes(a, p, pd) && v < p && forall y :: y in a && y != v ==> y in b && b[y] == a[y]
    ensures Describes(b, p, pd)
  {
  }

  lemma ListingNext(a: map<int, Obj>, b: map<int, Obj>, v: int, pds: seq<PropertyDesc>, i: nat, floor: int, p: int)
    requires Listing(a, v, pds, i, floor) && i < |pds| && floor <= p && v < floor
    requires forall y :: y in a ==> y in b && b[y] == a[y]
    requires Describes(b, p, pds[i])
    ensures Listing(b[v := b[v].(props := b[v].props + [p])], v, pds, i + 1, floor)
  {
    hide Describes;
    var c := b[v := b[v].(props := b[v].props + [p])];
    forall j | 0 <= j <= i ensures floor <= c[v].props[j] && Describes(c, c[v].props[j], pds[j]) {
      if j < i {
        DescribesKept(a, c, a[v].props[j], pds[j], v);
      } else {
        DescribesKept(b, c, p, pds[i], v);
      }
    }
  }

  lemma ListingFlag(heap: map<int, Obj>, v: int, pds: seq<PropertyDesc>, i: nat, floor: int)
    requires Listing(heap, v, pds, i, floor) && v < floor
    ensures Listing(heap[v := heap[v].(gotProps := true)], v, pds, i, floor)
  {
    hide Describes;
    var c := heap[v := heap[v].(gotProps := true)];
    forall j | 0 <= j < i ensures floor <= c[v].props[j] && Describes(c, c[v].props[j], pds[j]) {
      DescribesKept(heap, c, c[v].props[j], pds[j], v);
    }
  }

  /** Callers up the stack only hold objects older than x, or x itself. */
  ghost predicate Within(x: int, busy: set<Edge>, open: set<int>) {
    (forall e :: e in busy ==> e.holder < x) && (forall y :: y in open ==> y <= x)
  }

  class JSDHeap {
    var heap: map<int, Obj>
    var next: int
    ghost var owner: map<int, Edge>
    ghost var handles: multiset<int>

    ghost function St(): State
      reads this
    {
      State(heap, next, owner, handles)
    }

    constructor ()
      ensures heap == map[] && handles == multiset{} && Inv(St(), {}, {})
    {
      heap, next, owner, handles := map[], 0, map[], multiset{};
    }

    // ----- Releasing -----

    /** jsd_DropValue */
    method DropValue(x: int, ghost busy: set<Edge>, ghost open: set<int>, ghost limit: int)
      requires Inv(St(), busy, open) && next <= limit && Within(x, busy, open) && x !in open
      requires x in heap && heap[x].Value? && x in handles
      modifies this
      ensures Inv(St(), busy, open) && OlderSame(old(St()), St(), x)
      ensures handles == old(handles) - multiset{x} && Survivors(old(heap), heap, {})
      ensures x in heap <==> old(heap[x].nref) > 1
      ensures x in heap ==> heap == old(heap)[x := old(heap[x]).WithCount(old(heap[x].nref) - 1)]
      decreases limit - x, 5
    {
      hide Inv, Survivors;
      InRange(St(), busy, open, x);
      ReleaseKeeps(St(), busy, open, x);
      ghost var before := heap;
      heap := heap[x := heap[x].WithCount(heap[x].nref - 1)];
      handles := handles - multiset{x};
      ghost var counted := heap;
      SurvivorsCount(before, x, before[x].nref - 1);
      if heap[x].nref == 0 {
        RefreshValue(x, busy, open + {x}, limit);
        SurvivorsFreed(before, counted, heap, x);
        Unreferenced(St(), busy, open + {x}, x);
        FreeKeeps(St(), busy, open + {x}, x);
        heap := heap - {x};
        assert open + {x} - {x} == open;
      }
    }

    /** jsd_RefreshValue: forget everything cached. */
    method RefreshValue(x: int, ghost busy: set<Edge>, ghost open: set<int>, ghost limit: int)
      requires Inv(St(), busy, open) && next <= limit && Within(x, busy, open)
      requires x in heap && heap[x].Value?
      modifies this
      ensures Inv(St(), busy, open) && OlderSame(old(St()), St(), x)
      ensures handles == old(handles) && Survivors(old(heap), heap, {x})
      ensures x in heap && heap[x] == Value(old(heap[x].nref), map[], old(heap[x].val), [], {}, false)
      decreases limit - x, 4
    {
      hide Inv, Survivors;
      InRange(St(), busy, open, x);
      ghost var was, before := heap[x], heap;
      AllLabels(St(), busy, open, x);
      DropThree(x, Proto, Parent, Ctor, busy, open, limit);
      assert heap[x].refs == was.refs - {Proto} - {Parent} - {Ctor} == map[];
      ListsAreNewer(St(), busy, open, x);
      ghost var s1 := St();
      FreeProps(x, x + 1, busy, open, limit);
      OlderFromBut(s1, St(), x);
      SurvivorsTransitive(before, s1.heap, heap, {x});
      FlagKeeps(St(), busy, open, x, {}, false);
      SurvivorsSelf(before, heap, x, heap[x].(got := {}, gotProps := false));
      heap := heap[x := heap[x].(got := {}, gotProps := false)];
    }

    /** DROP_CLEAR_VALUE on the three pointer fields of a value, or of a property. */
    method DropThree(x: int, l1: Label, l2: Label, l3: Label,
                     ghost busy: set<Edge>, ghost open: set<int>, ghost limit: int)
      requires Inv(St(), busy, open) && next <= limit && Within(x, busy, open)
      requires x in heap && (heap[x].Property? ==> x in open)
      modifies this
      ensures Inv(St(), busy, open) && OlderSame(old(St()), St(), x)
      ensures handles == old(handles) && Survivors(old(heap), heap, {x})
      ensures x in heap && heap[x] == old(heap[x]).WithRefs(old(heap[x].refs) - {l1} - {l2} - {l3})
      decreases limit - x, 2
    {
      hide Inv, Survivors;
      ghost var before := heap;
      DropClear(x, l1, busy, open, limit);
      ghost var mid := heap;
      DropClear(x, l2, busy, open, limit);
      SurvivorsTransitive(before, mid, heap, {x});
      mid := heap;
      DropClear(x, l3, busy, open, limit);
      SurvivorsTransitive(before, mid, heap, {x});
    }

    /** DROP_CLEAR_VALUE on one pointer field: release what it points to, then set it to NULL. */
    method DropClear(x: int, l: Label, ghost busy: set<Edge>, ghost open: set<int>, ghost limit: int)
      requires Inv(St(), busy, open) && next <= limit && Within(x, busy, open)
      requires x in heap && (heap[x].Property? ==> x in open)
      modifies this
      ensures Inv(St(), busy, open) && OlderSame(old(St()), St(), x)
      ensures handles == old(handles) && Survivors(old(heap), heap, {x})
      ensures x in heap && heap[x] == old(heap[x]).WithRefs(old(heap[x].refs) - {l})
      decreases limit - x, 1
    {
      hide Inv, OlderSame, Within, Survivors;
      ghost var s0 := St();
      OlderReflexive(s0, x);
      SurvivorsReflexive(heap, {x});
      if l in heap[x].refs {
        var c := heap[x].refs[l];
        NotBusy(x, l, busy, open);
        RefTarget(s0, busy, open, x, l);
        WithinNewer(x, l, c, busy, open);
        DetachKeeps(s0, busy, open, x, l);
        owner := owner - {c};
        handles := handles + multiset{c};
        DropValue(c, busy + {Ref(x, l)}, open, limit);
        OlderKept(Detached(s0, x, l), St(), c, x);
        OlderIgnoresGhosts(s0, Detached(s0, x, l), St(), x);
        ClearKeeps(St(), busy, open, x, l);
        OlderIgnoresSelf(s0, St(), x, heap[x].WithRefs(heap[x].refs - {l}));
        SurvivorsWeaken(s0.heap, heap, {x});
        SurvivorsSelf(s0.heap, heap, x, heap[x].WithRefs(heap[x].refs - {l}));
        heap := heap[x := heap[x].WithRefs(heap[x].refs - {l})];
      } else {
        NothingToClear(heap[x], l);
      }
    }

    /** _freeProps: unlink and drop the properties one by one. Objects older than all of them stay as they are. */
    method FreeProps(x: int, ghost floor: int, ghost busy: set<Edge>, ghost open: set<int>, ghost limit: int)
      requires Inv(St(), busy, open) && next <= limit && Within(x, busy, open)
      requires x in heap && heap[x].Value? && x < floor
      requires forall i :: 0 <= i < |heap[x].props| ==> floor <= heap[x].props[i]
      modifies this
      ensures Inv(St(), busy, open) && OlderBut(old(St()), St(), x, floor)
      ensures handles == old(handles) && Survivors(old(heap), heap, {x})
      ensures x in heap && heap[x] == old(heap[x]).(props := [], gotProps := false)
      decreases limit - x, 1
    {
      hide Inv, OlderBut, Within, Survivors;
      OlderButReflexive(St(), x, floor);
      SurvivorsReflexive(heap, {x});
      while heap[x].props != []
        invariant Inv(St(), busy, open) && OlderBut(old(St()), St(), x, floor)
        invariant handles == old(handles) && Survivors(old(heap), heap, {x})
        invariant x in heap && heap[x].Value? && heap[x] == old(heap[x]).(props := heap[x].props)
        invariant forall i :: 0 <= i < |heap[x].props| ==> floor <= heap[x].props[i]
        invariant next == old(next)
        decreases |heap[x].props|
      {
        ghost var s0 := St();
        DropFirst(x, floor, busy, open, limit);
        OlderButTransitive(old(St()), s0, St(), x, floor);
        SurvivorsTransitive(old(heap), s0.heap, heap, {x});
      }
      NoPropsFlag(St(), busy, open, x);
      OlderButSelf(old(St()), St(), x, floor, heap[x].(gotProps := false));
      SurvivorsSelf(old(heap), heap, x, heap[x].(gotProps := false));
      heap := heap[x := heap[x].(gotProps := false)];
    }

    method DropFirst(x: int, ghost floor: int, ghost busy: set<Edge>, ghost open: set<int>, ghost limit: int)
      requires Inv(St(), busy, open) && next <= limit && Within(x, busy, open)
      requires x in heap && heap[x].Value? && heap[x].props != [] && x < floor <= heap[x].props[0]
      modifies this
      ensures Inv(St(), busy, open) && OlderBut(old(St()), St(), x, floor) && next == old(next)
      ensures handles == old(handles) && Survivors(old(heap), heap, {x})
      ensures x in heap && heap[x] == old(heap[x]).(props := old(heap[x].props[1..]))
      decreases limit - x, 0
    {
      hide Inv, OlderSame, OlderBut, Within, Survivors;
      ghost var s0 := St();
      var p := heap[x].props[0];
      ListTarget(s0, busy, open, x, 0);
      WithinNewer(x, Proto, p, busy, open);
      UnlinkKeeps(s0, busy, open, x);
      heap := heap[x := heap[x].(props := heap[x].props[1..])];
      owner := owner - {p};
      handles := handles + multiset{p};
      ghost var unlinked := heap;
      SurvivorsReflexive(s0.heap, {x});
      SurvivorsSelf(s0.heap, s0.heap, x, unlinked[x]);
      DropProperty(p, busy, open, limit);
      SurvivorsWeaken(unlinked, heap, {x});
      SurvivorsTransitive(s0.heap, unlinked, heap, {x});
      assert open - {p} == open;
      OlderKept(Unlinked(s0, x), St(), p, x);
      OlderBeforeUnlink(s0, St(), x, p, floor);
    }

    /** jsd_DropProperty */
    method DropProperty(p: int, ghost busy: set<Edge>, ghost open: set<int>, ghost limit: int)
      requires Inv(St(), busy, open) && next <= limit && Within(p, busy, open)
      requires p in heap && heap[p].Property? && p in handles && (p in open ==> heap[p].nref == 1)
      modifies this
      ensures Inv(St(), busy, open - {p}) && OlderSame(old(St()), St(), p)
      ensures handles == old(handles) - multiset{p} && Survivors(old(heap), heap, {})
      ensures p in heap <==> old(heap[p].nref) > 1
      ensures p in heap ==> heap == old(heap)[p := old(heap[p]).WithCount(old(heap[p].nref) - 1)]
      decreases limit - p, 3
    {
      hide Inv, Survivors;
      InRange(St(), busy, open, p);
      ghost var was, before := heap[p], heap;
      SurvivorsCount(before, p, was.nref - 1);
      AllLabels(St(), busy, open, p);
      ReleaseKeeps(St(), busy, open, p);
      heap := heap[p := heap[p].WithCount(heap[p].nref - 1)];
      handles := handles - multiset{p};
      if heap[p].nref == 0 {
        ghost var open' := open + {p};
        ghost var counted := heap;
        assert p !in owner;
        DropThree(p, Val, Name, Alias, busy, open', limit);
        SurvivorsFreed(before, counted, heap, p);
        assert heap[p].refs == was.refs - {Val} - {Name} - {Alias} == map[];
        Unreferenced(St(), busy, open', p);
        FreeKeeps(St(), busy, open', p);
        heap := heap - {p};
        assert open' - {p} == open - {p};
      } else {
        assert open - {p} == open;
      }
    }

    // ----- Creating -----

    /** calloc, and rooting a value's jsval: an object with one reference, or no memory. */
    method Allocate(o: Obj, memory: bool, ghost busy: set<Edge>, ghost open: set<int>) returns (r: Option<int>)
      requires Inv(St(), busy, open) && o.nref == 1 && o.refs == map[] && (o.Value? ==> o.props == [])
      modifies this
      ensures r.Some? <==> memory
      ensures r.None? ==> unchanged(this)
      ensures r.Some? ==> r.value == old(next) && St() == Allocated(old(St()), o)
      ensures r.Some? ==> Inv(St(), busy, if o.Value? then open else open + {r.value})
      ensures r.Some? ==> r.value !in old(heap) && r.value !in owner
    {
      hide Inv;
      if !memory { return None; }
      AllocateKeeps(St(), busy, open, o);
      r := Some(next);
      handles := handles + multiset{next};
      heap := heap[next := o];
      next := next + 1;
    }

    /** jsd_NewValue: the client (or the caller) holds the one reference. */
    method NewValue(val: JSVal, memory: bool, ghost busy: set<Edge>, ghost open: set<int>) returns (r: Option<int>)
      requires Inv(St(), busy, open)
      modifies this
      ensures Inv(St(), busy, open)
      ensures r.Some? <==> memory
      ensures r.None? ==> unchanged(this)
      ensures r.Some? ==> r.value == old(next) && St() == Allocated(old(St()), FreshValue(val))
      ensures r.Some? ==> r.value !in old(heap) && r.value !in owner
    {
      r := Allocate(FreshValue(val), memory, busy, open);
    }

    /** jsdprop->l = jsd_NewValue(...) on a property under construction. */
    method NewPart(p: int, l: Label, val: JSVal, memory: bool, ghost open: set<int>) returns (ok: bool)
      requires Inv(St(), {}, open) && p in heap && heap[p].Property? && p in open
      requires Fits(heap[p], l) && l !in heap[p].refs
      modifies this
      ensures Inv(St(), {}, open) && handles == old(handles) && Extends(old(St()), St(), p)
      ensures p in heap && heap[p].Property? && heap[p].nref == old(heap[p].nref)
      ensures ok <==> memory
      ensures ok ==> heap[p].refs == old(heap[p].refs)[l := old(next)] && PartIs(heap, p, l, val)
      ensures p !in old(owner) ==> p !in owner
    {
      hide Inv, Extends, PartIs;
      ghost var s0 := St();
      InRange(s0, {}, open, p);
      AllInRange(s0, {}, open);
      ExtendsAllocated(s0, FreshValue(val), p);
      ExtendsReflexive(s0, p);
      var c := NewValue(val, memory, {}, open);
      if c.None? { return false; }
      ghost var s1 := St();
      AttachKeeps(s1, {}, open, p, l, c.value);
      ExtendsAttached(s0, s1, p, l, c.value);
      PartAttached(heap, p, l, c.value, val);
      heap := heap[p := heap[p].WithRefs(heap[p].refs[l := c.value])];
      owner := owner[c.value := Ref(p, l)];
      handles := handles - multiset{c.value};
      assert handles == s0.handles;
      return true;
    }

    /**
     * The name, the value and, if flagged, the alias, until one of them cannot be allocated: grants is how many
     * allocations succeed before one fails.
     */
    method FillProperty(p: int, pd: PropertyDesc, grants: nat, ghost open: set<int>) returns (ok: bool)
      requires Inv(St(), {}, open) && p in heap && heap[p] == Property(1, map[]) && p in open
      modifies this
      ensures Inv(St(), {}, open) && handles == old(handles) && Extends(old(St()), St(), p)
      ensures p in heap && heap[p].Property? && heap[p].nref == 1
      ensures ok <==> 1 + grants >= Cost(pd)
      ensures ok ==> ObjOk(heap[p]) && Describes(heap, p, pd)
      ensures p !in old(owner) ==> p !in owner
    {
      hide Inv, Extends, PartIs;
      ghost var s0 := St();
      ok := NewPart(p, Name, pd.id, grants > 0, open);
      if !ok { return; }
      ghost var s1 := St();
      ok := NewPart(p, Val, pd.value, grants > 1, open);
      ExtendsTransitive(s0, s1, St(), p);
      if !ok { return; }
      PartKept(s1, St(), p, Name, pd.id);
      if !pd.hasAlias { return; }
      s1 := St();
      ok := NewPart(p, Alias, pd.alias, grants > 2, open);
      ExtendsTransitive(s0, s1, St(), p);
      if !ok { return; }
      PartKept(s1, St(), p, Name, pd.id);
      PartKept(s1, St(), p, Val, pd.value);
    }

    /** _newProperty: on failure everything allocated on the way has been released again. */
    method NewProperty(pd: PropertyDesc, grants: nat, ghost open: set<int>) returns (r: Option<int>)
      requires Inv(St(), {}, open) && Within(next, {}, open) && next !in open
      modifies this
      ensures Inv(St(), {}, open) && old(next) <= next
      ensures r.Some? <==> grants >= Cost(pd)
      ensures r.None? ==> heap == old(heap) && handles == old(handles)
      ensures r.Some? ==>
                && r.value == old(next) && r.value !in owner && Describes(heap, r.value, pd)
                && handles == old(handles) + multiset{r.value}
                && Extends(old(St()), St(), r.value) && r.value !in old(heap)
    {
      hide Inv, Extends, OlderSame, Survivors, PartIs;
      ghost var s0 := St();
      var p := Allocate(Property(1, map[]), grants > 0, {}, open);
      if p.None? { return None; }
      ghost var open', s1 := open + {p.value}, St();
      var ok := FillProperty(p.value, pd, grants - 1, open');
      ghost var s2 := St();
      AllInRange(s0, {}, open);
      ExtendsAllocated(s0, Property(1, map[]), p.value);
      ExtendsTransitive(s0, s1, s2, p.value);
      assert open' - {p.value} == open;
      if !ok {
        DropProperty(p.value, {}, open', next);
        assert handles == s0.handles;
        SurvivorKeys(s2.heap, heap, {});
        NothingLeft(s0, s2, St(), open, p.value);
        NextGrows(s0, s2, St(), p.value);
        return None;
      }
      OpenClose(s2, {}, open', p.value);
      return p;
    }

    // ----- Client operations: nothing is busy or open -----

    /** _buildProps: all of the described properties, or none if memory does not last. GOT_PROPS is set either way. */
    method BuildProps(v: int, pds: seq<PropertyDesc>, grants: nat) returns (any: bool)
      requires Inv(St(), {}, {}) && v in heap && heap[v].Value?
      requires heap[v].val.ObjectVal? && heap[v].props == [] && !heap[v].gotProps
      modifies this
      ensures Inv(St(), {}, {}) && handles == old(handles) && Extends(old(St()), St(), v)
      ensures v in heap && heap[v].Value? && heap[v] == old(heap[v]).(props := heap[v].props, gotProps := true)
      ensures any <==> pds != [] && grants >= TotalCost(pds)
      ensures any <==> heap[v].props != []
      ensures if any then Listing(heap, v, pds, |pds|, old(next)) else heap.Keys == old(heap.Keys)
    {
      hide Inv, Extends, Listing, TotalCost, Cost;
      ghost var s0 := St();
      InRange(s0, {}, {}, v);
      OpenClose(s0, {}, {}, v);
      assert {} + {v} == {v};
      ExtendsReflexive(s0, v);
      ListingStart(heap, v, pds, next);
      NoCost(pds);
      var i := 0;
      var left: nat := grants;
      while i < |pds|
        invariant 0 <= i <= |pds| && Inv(St(), {}, {v}) && handles == s0.handles && Extends(s0, St(), v)
        invariant v in heap && heap[v].Value? && heap[v] == s0.heap[v].(props := heap[v].props)
        invariant s0.next <= next && |heap[v].props| == i && (i == 0 ==> heap == s0.heap)
        invariant Listing(heap, v, pds, i, s0.next)
        invariant left + TotalCost(pds[..i]) == grants
      {
        CostOfPrefix(pds, i);
        var ok := ListNext(v, pds, i, left, s0);
        if !ok {
          GiveUp(v, pds, i, s0);
          return false;
        }
        i, left := i + 1, left - Cost(pds[i]);
      }
      ListingFlag(heap, v, pds, i, s0.next);
      SetGotProps(v, s0);
      return heap[v].props != [];
    }

    /** One turn of the loop: create the next property and append it to the list. */
    method ListNext(v: int, pds: seq<PropertyDesc>, i: nat, grants: nat, ghost s0: State) returns (ok: bool)
      requires Inv(St(), {}, {v}) && Extends(s0, St(), v) && v in s0.heap && v < s0.next <= next
      requires v in heap && heap[v].Value? && Listing(heap, v, pds, i, s0.next) && i < |pds|
      modifies this
      ensures Inv(St(), {}, {v}) && Extends(s0, St(), v) && handles == old(handles) && old(next) <= next
      ensures ok <==> grants >= Cost(pds[i])
      ensures !ok ==> heap == old(heap)
      ensures ok ==>
                && v in heap && heap[v].Value? && heap[v] == old(heap[v]).(props := heap[v].props)
                && |heap[v].props| == |old(heap[v].props)| + 1 && Listing(heap, v, pds, i + 1, s0.next)
    {
      hide Inv, Extends, Listing, Describes, Cost, Within;
      ghost var s1 := St();
      InRange(s1, {}, {v}, v);
      OnlyOpen(v, next);
      var prop := NewProperty(pds[i], grants, {v});
      if prop.None? {
        ExtendsSameHeap(s0, s1, St(), v);
        return false;
      }
      ExtendsAny(s1, St(), prop.value, v);
      ExtendsTransitive(s0, s1, St(), v);
      ListingNext(s1.heap, heap, v, pds, i, s0.next, prop.value);
      DescribedIsThere(heap, prop.value, pds[i]);
      AppendToList(v, prop.value, s0);
      return true;
    }

    /** JS_APPEND_LINK(&prop->links, &jsdval->props) */
    method AppendToList(v: int, p: int, ghost s0: State)
      requires Inv(St(), {}, {v}) && v in heap && heap[v].Value? && Extends(s0, St(), v) && v in s0.heap
      requires p in heap && heap[p].Property? && v < p && p in handles && p !in owner
      modifies this
      ensures Inv(St(), {}, {v}) && Extends(s0, St(), v) && handles == old(handles) - multiset{p} && next == old(next)
      ensures heap == old(heap)[v := old(heap[v]).(props := old(heap[v].props) + [p])]
    {
      hide Inv, Extends;
      AppendKeeps(St(), {}, {v}, v, p);
      ExtendsAtSelf(s0, St(), Appended(St(), v, p), v);
      heap := heap[v := heap[v].(props := heap[v].props + [p])];
      owner := owner[p := Listed(v)];
      handles := handles - multiset{p};
    }

    /** Out of memory while listing properties: drop those already listed. */
    method GiveUp(v: int, ghost pds: seq<PropertyDesc>, ghost i: nat, ghost s0: State)
      requires Inv(s0, {}, {}) && Inv(St(), {}, {v}) && Extends(s0, St(), v) && handles == s0.handles
      requires v in s0.heap && s0.heap[v].Value? && s0.heap[v].props == [] && s0.heap[v].val.ObjectVal?
      requires v in heap && heap[v].Value? && heap[v] == s0.heap[v].(props := heap[v].props)
      requires Listing(heap, v, pds, i, s0.next)
      modifies this
      ensures Inv(St(), {}, {}) && Extends(s0, St(), v) && handles == s0.handles && heap.Keys == s0.heap.Keys
      ensures v in heap && heap[v] == s0.heap[v].(gotProps := true)
    {
      hide Inv, Extends, OlderBut, Survivors;
      ghost var s1 := St();
      InRange(s0, {}, {}, v);
      OpenClose(s0, {}, {}, v);
      OpenObject(s0, {}, {}, v);
      assert {} + {v} == {v} && {v} - {v} == {};
      FreeProps(v, s0.next, {}, {v}, next);
      SurvivorKeys(s1.heap, heap, {v});
      SameSurvivors(s0, s1, St(), v);
      SetGotProps(v, s0);
    }

    /** SET_BIT_FLAG(jsdval->flags, GOT_PROPS) */
    method SetGotProps(v: int, ghost s0: State)
      requires (Inv(St(), {}, {v}) || Inv(St(), {}, {})) && Extends(s0, St(), v) && v in s0.heap && Inv(s0, {}, {})
      requires v in heap && heap[v].Value? && heap[v].val.ObjectVal? && heap[v].nref == s0.heap[v].nref
      requires s0.heap[v].Value? && heap[v].refs == s0.heap[v].refs && heap[v].got == s0.heap[v].got
      modifies this
      ensures Inv(St(), {}, {}) && Extends(s0, St(), v) && handles == old(handles)
      ensures heap == old(heap)[v := old(heap[v]).(gotProps := true)]
    {
      hide Inv, Extends;
      ghost var s1 := St();
      OpenObject(s0, {}, {}, v);
      assert {} + {v} == {v} && {v} - {v} == {};
      if Inv(s1, {}, {}) { OpenClose(s1, {}, {}, v); }
      FlagKeeps(s1, {}, {v}, v, heap[v].got, true);
      assert heap[v].(gotProps := true) == heap[v].(got := heap[v].got, gotProps := true);
      ExtendsAtSelf(s0, s1, Flagged(s1, v, heap[v].got, true), v);
      heap := heap[v := heap[v].(gotProps := true)];
      OpenClose(St(), {}, {v}, v);
    }

    /** nref++ on behalf of the client. */
    method AddReference(x: int)
      requires Inv(St(), {}, {}) && x in heap
      modifies this
      ensures Inv(St(), {}, {}) && handles == old(handles) + multiset{x} && next == old(next)
      ensures heap == old(heap)[x := old(heap[x]).WithCount(old(heap[x].nref) + 1)]
    {
      hide Inv;
      ReferenceKeeps(St(), {}, {}, x);
      handles := handles + multiset{x};
      heap := heap[x := heap[x].WithCount(heap[x].nref + 1)];
    }

    /**
     * jsd_GetValuePrototype, jsd_GetValueParent and jsd_GetValueConstructor: related is the object the
     * engine names, if any. The answer is cached, a NULL one included.
     */
    method GetRelated(v: int, l: Label, related: Option<int>, memory: bool) returns (r: Option<int>)
      requires Inv(St(), {}, {}) && v in heap && heap[v].Value? && Fits(heap[v], l)
      modifies this
      ensures Inv(St(), {}, {})
      ensures handles == if r.Some? then old(handles) + multiset{r.value} else old(handles)
      ensures l in old(heap[v].got) ==>
                && next == old(next) && heap == CountedUp(old(heap), r)
                && r == if l in old(heap[v].refs) then Some(old(heap[v].refs[l])) else None
      ensures l !in old(heap[v].got) ==>
                && r == (if old(heap[v].val.ObjectVal?) && related.Some? && memory then Some(old(next)) else None)
                && heap == CountedUp(Cached(old(heap), v, l, r, related), r)
    {
      hide Inv, Cached;
      OpenObject(St(), {}, {}, v);
      if l !in heap[v].got {
        ghost var answer := if heap[v].val.ObjectVal? && related.Some? && memory then Some(next) else None;
        CachedFacts(St(), v, l, answer, related);
        FillCache(v, l, related, memory);
      }
      if l in heap[v].refs {
        RefTarget(St(), {}, {}, v, l);
        r := Some(heap[v].refs[l]);
        AddReference(heap[v].refs[l]);
      } else {
        r := None;
      }
    }

    /** The first request: set the GOT_ flag, and cache a new value if the engine has one and memory lasts. */
    method FillCache(v: int, l: Label, related: Option<int>, memory: bool)
      requires Inv(St(), {}, {}) && v in heap && heap[v].Value? && Fits(heap[v], l) && l !in heap[v].got
      modifies this
      ensures Inv(St(), {}, {}) && handles == old(handles)
      ensures heap == Cached(old(heap), v, l, if old(heap[v].val.ObjectVal?) && related.Some? && memory
                                              then Some(old(next)) else None, related)
    {
      hide Inv, Cached;
      AllInRange(St(), {}, {});
      OpenObject(St(), {}, {}, v);
      ghost var before := heap;
      assert l !in heap[v].refs;
      SetGot(v, l);
      CachedNull(before, v, l, related);
      if !heap[v].val.ObjectVal? { return; }
      if related.None? { return; }
      var c := NewValue(ObjectVal(related.value), memory, {}, {});
      if c.None? { return; }
      CachedNew(before, v, l, c.value, related.value);
      CacheNew(v, l, c.value);
    }

    method SetGot(v: int, l: Label)
      requires Inv(St(), {}, {}) && v in heap && heap[v].Value? && ObjOk(heap[v])
      modifies this
      ensures Inv(St(), {}, {}) && handles == old(handles) && next == old(next) && owner == old(owner)
      ensures heap == old(heap)[v := old(heap[v]).(got := old(heap[v].got) + {l})]
    {
      hide Inv;
      FlagKeeps(St(), {}, {}, v, heap[v].got + {l}, heap[v].gotProps);
      assert heap[v].(got := heap[v].got + {l}) == heap[v].(got := heap[v].got + {l}, gotProps := heap[v].gotProps);
      heap := heap[v := heap[v].(got := heap[v].got + {l})];
    }

    /** The cache takes over the reference of a value just created. */
    method CacheNew(v: int, l: Label, c: int)
      requires Inv(St(), {}, {}) && v in heap && heap[v].Value? && Fits(heap[v], l) && l !in heap[v].refs
      requires l in heap[v].got && c in heap && heap[c].Value? && v < c && c in handles && c !in owner
      modifies this
      ensures Inv(St(), {}, {}) && handles == old(handles) - multiset{c} && next == old(next)
      ensures heap == old(heap)[v := old(heap[v]).WithRefs(old(heap[v].refs)[l := c])]
    {
      hide Inv;
      AttachKeeps(St(), {}, {}, v, l, c);
      heap := heap[v := heap[v].WithRefs(heap[v].refs[l := c])];
      owner := owner[c := Ref(v, l)];
      handles := handles - multiset{c};
    }

    /** jsd_IterateProperties: the property at the iterator, listing the properties first if need be. */
    method IterateProperties(v: int, iter: Option<nat>, pds: seq<PropertyDesc>, grants: nat)
      returns (r: Option<int>, iter': Option<nat>)
      requires Inv(St(), {}, {}) && v in heap && heap[v].Value? && (heap[v].gotProps || iter.None?)
      requires !heap[v].gotProps ==> heap[v].val.ObjectVal?
      modifies this
      ensures Inv(St(), {}, {}) && v in heap && heap[v].Value? && heap[v].gotProps
      ensures heap[v] == old(heap[v]).(props := heap[v].props, gotProps := true)
      ensures forall y :: y in old(heap) && y != v && r != Some(y) ==> y in heap && heap[y] == old(heap[y])
      ensures old(heap[v].gotProps) ==> heap == CountedUp(old(heap), r)
      ensures !old(heap[v].gotProps) ==> (heap[v].props != [] <==> pds != [] && grants >= TotalCost(pds))
      ensures !old(heap[v].gotProps) && heap[v].props == [] ==> heap.Keys == old(heap.Keys)
      ensures !old(heap[v].gotProps) && heap[v].props != [] ==>
                exists listed :: Listing(listed, v, pds, |pds|, old(next)) && heap == CountedUp(listed, r)
      ensures var i := if iter.Some? then iter.value else 0;
              if i < |heap[v].props|
              then r == Some(heap[v].props[i]) && iter' == Some(i + 1) && handles == old(handles) + multiset{r.value}
              else r == None && iter' == iter && handles == old(handles)
    {
      hide Inv, Listing, TotalCost;
      OpenObject(St(), {}, {}, v);
      if !heap[v].gotProps {
        var any := BuildProps(v, pds, grants);
        if !any { return None, iter; }
      }
      var i := if iter.Some? then iter.value else 0;
      if i >= |heap[v].props| { return None, iter; }
      ListTarget(St(), {}, {}, v, i);
      ghost var listed := heap;
      r, iter' := Some(heap[v].props[i]), Some(i + 1);
      AddReference(heap[v].props[i]);
      assert heap == CountedUp(listed, r);
    }

    /** jsd_GetPropertyName, jsd_GetPropertyValue and jsd_GetPropertyAlias; only the alias can be NULL. */
    method GetPart(p: int, l: Label) returns (r: Option<int>)
      requires Inv(St(), {}, {}) && p in heap && heap[p].Property? && Fits(heap[p], l)
      modifies this
      ensures Inv(St(), {}, {}) && (l != Alias ==> r.Some?)
      ensures r == if l in old(heap[p].refs) then Some(old(heap[p].refs[l])) else None
      ensures handles == if r.Some? then old(handles) + multiset{r.value} else old(handles)
      ensures heap == CountedUp(old(heap), r) && next == old(next)
    {
      hide Inv;
      OpenObject(St(), {}, {}, p);
      if l !in heap[p].refs { return None; }
      RefTarget(St(), {}, {}, p, l);
      r := Some(heap[p].refs[l]);
      AddReference(heap[p].refs[l]);
    }

    /** The client gives up one of its handles. */
    method Drop(x: int)
      requires Inv(St(), {}, {}) && x in handles
      modifies this
      ensures Inv(St(), {}, {}) && handles == old(handles) - multiset{x}
      ensures x in old(heap) && (x in heap <==> old(heap[x].nref) > 1) && Survivors(old(heap), heap, {})
      ensures x in heap ==> heap == old(heap)[x := old(heap[x]).WithCount(old(heap[x].nref) - 1)]
    {
      hide Inv, Survivors;
      HandleIsLive(St(), {}, {}, x);
      if heap[x].Value? {
        DropValue(x, {}, {}, next);
      } else {
        DropProperty(x, {}, {}, next);
        assert {} - {x} == {};
      }
    }

    /** Dropping every handle, in any order, frees every object. */
    method DropAll(hs: seq<int>)
      requires Inv(St(), {}, {}) && multiset(hs) == handles
      modifies this
      ensures Inv(St(), {}, {}) && heap == map[] && handles == multiset{}
    {
      hide Inv, Survivors;
      for i := 0 to |hs|
        invariant Inv(St(), {}, {}) && handles == multiset(hs[i..])
      {
        assert hs[i..] == [hs[i]] + hs[i + 1..];
        Drop(hs[i]);
      }
      UnheldIsEmpty(St());
    }
  }

  // ----- Frames -----

  lemma SurvivorsReflexive(a: map<int, Obj>, but: set<int>)
    ensures Survivors(a, a, but)
  {
  }

  lemma SurvivorsCount(a: map<int, Obj>, x: int, n: int)
    requires x in a
    ensures Survivors(a, a[x := a[x].WithCount(n)], {})
  {
  }

  lemma SurvivorsTransitive(a: map<int, Obj>, b: map<int, Obj>, c: map<int, Obj>, but: set<int>)
    requires Survivors(a, b, but) && Survivors(b, c, but)
    ensures Survivors(a, c, but)
  {
  }

  lemma SurvivorsWeaken(a: map<int, Obj>, b: map<int, Obj>, but: set<int>)
    requires Survivors(a, b, {})
    ensures Survivors(a, b, but)
  {
  }

  lemma SurvivorsSelf(a: map<int, Obj>, b: map<int, Obj>, x: int, o: Obj)
    requires Survivors(a, b, {x}) && x in b
    ensures Survivors(a, b[x := o], {x})
  {
  }

  /** Lowering the count of x, tearing x down and freeing it. */
  lemma SurvivorsFreed(a: map<int, Obj>, b: map<int, Obj>, c: map<int, Obj>, x: int)
    requires Survivors(a, b, {}) && Survivors(b, c, {x})
    ensures Survivors(a, c - {x}, {})
  {
  }

  lemma SurvivorKeys(a: map<int, Obj>, b: map<int, Obj>, but: set<int>)
    requires Survivors(a, b, but)
    ensures b.Keys <= a.Keys
  {
  }

  lemma DescribedIsThere(heap: map<int, Obj>, p: int, pd: PropertyDesc)
    requires Describes(heap, p, pd)
    ensures p in heap && heap[p].Property?
  {
  }

  lemma PartAttached(heap: map<int, Obj>, p: int, l: Label, c: int, val: JSVal)
    requires p in heap && p < c && c in heap && heap[c] == FreshValue(val)
    ensures PartIs(heap[p := heap[p].WithRefs(heap[p].refs[l := c])], p, l, val)
  {
  }

  /** Adding another part to p leaves a part as it was. */
  lemma PartKept(a: State, b: State, p: int, l: Label, val: JSVal)
    requires p in a.heap && p in b.heap && PartIs(a.heap, p, l, val) && Extends(a, b, p)
    requires l in b.heap[p].refs && b.heap[p].refs[l] == a.heap[p].refs[l]
    ensures PartIs(b.heap, p, l, val)
  {
  }

  lemma NoCost(pds: seq<PropertyDesc>)
    ensures TotalCost(pds[..0]) == 0 && pds[..|pds|] == pds
  {
  }

  /** The heap once l has been asked of v for the first time: the answer, a new value or NULL, is cached. */
  ghost function Cached(heap: map<int, Obj>, v: int, l: Label, c: Option<int>, related: Option<int>): map<int, Obj>
    requires v in heap && heap[v].Value? && (c.Some? ==> related.Some?)
  {
    var asked := heap[v].(got := heap[v].got + {l});
    if c.None? then heap[v := asked]
    else heap[c.value := FreshValue(ObjectVal(related.value))][v := asked.WithRefs(asked.refs[l := c.value])]
  }

  lemma CachedNull(heap: map<int, Obj>, v: int, l: Label, related: Option<int>)
    requires v in heap && heap[v].Value?
    ensures Cached(heap, v, l, None, related) == heap[v := heap[v].(got := heap[v].got + {l})]
  {
  }

  lemma CachedNew(heap: map<int, Obj>, v: int, l: Label, c: int, obj: int)
    requires v in heap && heap[v].Value? && c != v
    ensures var asked := heap[v := heap[v].(got := heap[v].got + {l})][c := FreshValue(ObjectVal(obj))];
            Cached(heap, v, l, Some(c), Some(obj)) == asked[v := asked[v].WithRefs(asked[v].refs[l := c])]
  {
  }

  lemma CachedFacts(st: State, v: int, l: Label, c: Option<int>, related: Option<int>)
    requires Inv(st, {}, {}) && v in st.heap && st.heap[v].Value? && l !in st.heap[v].got
    requires c.Some? ==> related.Some? && c.value == st.next
    ensures var after := Cached(st.heap, v, l, c, related);
            && v in after && after[v].Value? && Fits(after[v], l) == Fits(st.heap[v], l)
            && if c.Some? then l in after[v].refs && after[v].refs[l] == c.value else l !in after[v].refs
  {
    OpenObject(st, {}, {}, v);
  }

  lemma WithinNewer(x: int, l: Label, c: int, busy: set<Edge>, open: set<int>)
    requires Within(x, busy, open) && x < c
    ensures Within(c, busy, open) && Within(c, busy + {Ref(x, l)}, open) && c !in open && Ref(x, l) !in busy
  {
  }

  lemma OnlyOpen(v: int, n: int)
    requires v < n
    ensures Within(n, {}, {v})
  {
  }

  lemma NotBusy(x: int, l: Label, busy: set<Edge>, open: set<int>)
    requires Within(x, busy, open)
    ensures Ref(x, l) !in busy
  {
  }

  lemma OlderReflexive(a: State, x: int)
    ensures OlderSame(a, a, x)
  {
  }

  lemma OlderKept(a: State, b: State, c: int, x: int)
    requires OlderSame(a, b, c) && x < c && x in a.heap
    ensures x in b.heap && b.heap[x] == a.heap[x] && OlderSame(a, b, x) && b.next == a.next
  {
  }

  lemma OlderIgnoresGhosts(a: State, a': State, b: State, x: int)
    requires OlderSame(a', b, x) && a'.heap == a.heap && a'.next == a.next
    ensures OlderSame(a, b, x)
  {
  }

  lemma OlderIgnoresSelf(a: State, b: State, x: int, o: Obj)
    requires OlderSame(a, b, x)
    ensures OlderSame(a, b.(heap := b.heap[x := o]), x) && b.next == a.next
  {
  }

  lemma OlderBeforeUnlink(a: State, b: State, x: int, p: int, floor: int)
    requires x in a.heap && a.heap[x].Value? && a.heap[x].props != [] && OlderSame(Unlinked(a, x), b, p) && floor <= p
    ensures OlderBut(a, b, x, floor)
  {
  }

  /** Nothing older than floor has changed, except x. */
  ghost predicate OlderBut(a: State, b: State, x: int, floor: int) {
    && a.next == b.next
    && (forall y :: y < floor && y != x && y in a.heap ==> y in b.heap && b.heap[y] == a.heap[y])
  }

  lemma OlderButReflexive(a: State, x: int, floor: int)
    ensures OlderBut(a, a, x, floor)
  {
  }

  lemma OlderButTransitive(a: State, b: State, c: State, x: int, floor: int)
    requires OlderBut(a, b, x, floor) && OlderBut(b, c, x, floor)
    ensures OlderBut(a, c, x, floor)
  {
  }

  lemma OlderButSelf(a: State, b: State, x: int, floor: int, o: Obj)
    requires OlderBut(a, b, x, floor)
    ensures OlderBut(a, b.(heap := b.heap[x := o]), x, floor)
  {
  }

  lemma OlderFromBut(a: State, b: State, x: int)
    requires OlderBut(a, b, x, x + 1)
    ensures OlderSame(a, b, x)
  {
  }

  lemma ListsAreNewer(st: State, busy: set<Edge>, open: set<int>, v: int)
    requires Inv(st, busy, open) && v in st.heap && st.heap[v].Value?
    ensures forall i :: 0 <= i < |st.heap[v].props| ==> v + 1 <= st.heap[v].props[i]
  {
  }

  lemma NothingToClear(o: Obj, l: Label)
    requires l !in o.refs
    ensures o == o.WithRefs(o.refs - {l})
  {
    assert o.refs - {l} == o.refs;
  }

  /** Apart from the object p, what was there is still there, and only newer objects have been added. */
  ghost predicate Extends(a: State, b: State, p: int) {
    && a.next <= b.next
    && (forall y :: y in a.heap && y != p ==> y in b.heap && b.heap[y] == a.heap[y])
    && (forall y :: y in b.heap && y < a.next ==> y in a.heap)
  }

  lemma ExtendsAllocated(a: State, o: Obj, p: int)
    requires forall y :: y in a.heap ==> y < a.next
    ensures Extends(a, Allocated(a, o), p)
  {
  }

  lemma ExtendsReflexive(a: State, p: int)
    ensures Extends(a, a, p)
  {
  }

  lemma ExtendsAttached(a: State, b: State, p: int, l: Label, c: int)
    requires Extends(a, b, p) && p in a.heap && p in b.heap
    ensures Extends(a, Attached(b, p, l, c), p)
  {
  }

  lemma ExtendsAtSelf(a: State, b: State, c: State, p: int)
    requires Extends(a, b, p) && p in a.heap && p in b.heap && c.next == b.next
    requires p in c.heap && c.heap == b.heap[p := c.heap[p]]
    ensures Extends(a, c, p)
  {
  }

  /** What an object satisfies by itself when it is not under construction. */
  lemma OpenObject(st: State, busy: set<Edge>, open: set<int>, x: int)
    requires Inv(st, busy, open) && x in st.heap && x !in open
    ensures ObjOk(st.heap[x]) && st.heap[x].nref > 0
  {
  }

  lemma NextGrows(a: State, mid: State, b: State, p: int)
    requires Extends(a, mid, p) && OlderSame(mid, b, p)
    ensures a.next <= b.next
  {
  }

  lemma AllInRange(st: State, busy: set<Edge>, open: set<int>)
    requires Inv(st, busy, open)
    ensures forall y :: y in st.heap ==> y < st.next
  {
  }

  lemma ExtendsTransitive(a: State, b: State, c: State, p: int)
    requires Extends(a, b, p) && Extends(b, c, p)
    ensures Extends(a, c, p)
  {
  }

  lemma ExtendsSameHeap(a: State, b: State, c: State, p: int)
    requires Extends(a, b, p) && c.heap == b.heap && b.next <= c.next
    ensures Extends(a, c, p)
  {
  }

  lemma ExtendsAny(a: State, b: State, p: int, q: int)
    requires Extends(a, b, p) && p !in a.heap
    ensures Extends(a, b, q) && forall y :: y in a.heap ==> y in b.heap && b.heap[y] == a.heap[y]
  {
  }

  /**
   * Once the objects older than p hold what they held in a, and the client handles are the same, no
   * newer object can be left: its owner would have to be newer than p as well, and so on downwards.
   */
  lemma {:induction false} NoOrphan(a: State, b: State, open: set<int>, p: int, y: int)
    requires Inv(a, {}, open) && Inv(b, {}, open) && a.next == p && a.handles == b.handles
    requires forall z :: z in b.heap && z < p ==> z in a.heap && SameEdges(b.heap[z], a.heap[z])
    requires forall z :: z in open ==> z < p
    requires p <= y && y in b.heap
    ensures false
    decreases y - p
  {
    hide RefsOk, ListsOk, ObjOk;
    assert y !in a.handles;
    assert b.heap[y].nref > 0 && y in b.owner;
    var e := b.owner[y];
    assert PointsTo(b.heap, e, y);
    OwnerIsOlder(b, {}, open, y);
    if e.holder >= p {
      NoOrphan(a, b, open, p, e.holder);
    } else {
      assert PointsTo(a.heap, e, y);
      TargetsInRange(a, {}, open, e, y);
    }
  }

  lemma NothingLeft(a: State, mid: State, b: State, open: set<int>, p: int)
    requires Inv(a, {}, open) && Inv(b, {}, open) && a.next == p && a.handles == b.handles
    requires Extends(a, mid, p) && OlderSame(mid, b, p) && b.heap.Keys <= mid.heap.Keys
    requires forall y :: y in open ==> y < p
    ensures b.heap == a.heap
  {
    hide Inv;
    forall y | y in b.heap ensures y in a.heap {
      if y >= p { NoOrphan(a, b, open, p, y); }
    }
    forall y | y in a.heap ensures y in b.heap && b.heap[y] == a.heap[y] {
      InRange(a, {}, open, y);
    }
    assert b.heap.Keys == a.heap.Keys;
  }

  /** After giving up on the properties of v, what is left is what was there before, v's flags aside. */
  lemma SameSurvivors(a: State, mid: State, b: State, v: int)
    requires Inv(a, {}, {v}) && Inv(b, {}, {v}) && a.handles == b.handles && v in a.heap && v < a.next
    requires Extends(a, mid, v) && OlderBut(mid, b, v, a.next) && b.heap.Keys <= mid.heap.Keys
    requires v in b.heap && SameEdges(b.heap[v], a.heap[v])
    ensures b.heap.Keys == a.heap.Keys && Extends(a, b, v)
  {
    hide Inv;
    forall z | z in b.heap && z < a.next ensures z in a.heap && SameEdges(b.heap[z], a.heap[z]) {
      if z != v { assert z in mid.heap && mid.heap[z] == a.heap[z]; }
    }
    forall y | y in b.heap ensures y in a.heap {
      if y >= a.next { NoOrphan(a, b, {v}, a.next, y); }
    }
    forall y | y in a.heap ensures y in b.heap && (y != v ==> b.heap[y] == a.heap[y]) {
      InRange(a, {}, {v}, y);
    }
  }

  lemma HandleIsLive(st: State, busy: set<Edge>, open: set<int>, x: int)
    requires Inv(st, busy, open) && x in st.handles
    ensures x in st.heap
  {
  }

  /** No leak: when the client holds nothing, nothing is left. */
  lemma UnheldIsEmpty(st: State)
    requires Inv(st, {}, {}) && st.handles == multiset{}
    ensures st.heap == map[]
  {
    hide Inv;
    forall x | x in st.heap ensures false {
      NoneUnheld(st, x);
    }
    assert st.heap.Keys == {};
  }

  lemma {:induction false} NoneUnheld(st: State, x: int)
    requires Inv(st, {}, {}) && st.handles == multiset{} && x in st.heap
    ensures false
    decreases x
  {
    hide RefsOk, ListsOk, OwnersOk, ObjOk;
    assert x in st.owner;
    OwnerIsOlder(st, {}, {}, x);
    NoneUnheld(st, st.owner[x].holder);
  }

  /** The set of owning edges into x. */
  ghost function EdgesInto(heap: map<int, Obj>, x: int): set<Edge> {
    set e | e in AllEdges(heap) && PointsTo(heap, e, x)
  }

  ghost function AllEdges(heap: map<int, Obj>): set<Edge> {
    (set y, l | y in heap && l in heap[y].refs :: Ref(y, l)) + (set y | y in heap :: Listed(y))
  }

  /** Every reference count is the client's handles plus the owning edges, of which there is at most one. */
  lemma CountsAreReferences(st: State, x: int)
    requires Inv(st, {}, {}) && x in st.heap
    ensures st.heap[x].nref == st.handles[x] + |EdgesInto(st.heap, x)| && st.heap[x].nref > 0
    ensures |EdgesInto(st.heap, x)| <= 1
    ensures forall e :: e in EdgesInto(st.heap, x) ==> e.holder < x && e.holder in st.heap
  {
    hide ObjOk;
    var edges := EdgesInto(st.heap, x);
    forall e | e in edges ensures x in st.owner && st.owner[x] == e && e.holder < x {
      EdgeIsOwner(st, e, x);
    }
    if x in st.owner {
      assert PointsTo(st.heap, st.owner[x], x);
      assert edges == {st.owner[x]};
    } else {
      assert edges == {};
    }
  }

  lemma EdgeIsOwner(st: State, e: Edge, x: int)
    requires Inv(st, {}, {}) && PointsTo(st.heap, e, x)
    ensures x in st.owner && st.owner[x] == e && e.holder < x
  {
    hide CountsOk, ShapesOk, OwnersOk;
    if e.Listed? {
      var i :| 0 <= i < |st.heap[e.holder].props| && st.heap[e.holder].props[i] == x;
    }
  }

  lemma OwnerIsOlder(st: State, busy: set<Edge>, open: set<int>, c: int)
    requires Inv(st, busy, open) && c in st.owner
    ensures st.owner[c].holder < c && st.owner[c].holder in st.heap
  {
    hide CountsOk, ShapesOk;
    var e := st.owner[c];
    assert PointsTo(st.heap, e, c);
    if e.Listed? {
      var i :| 0 <= i < |st.heap[e.holder].props| && st.heap[e.holder].props[i] == c;
    }
  }

  lemma TargetsInRange(st: State, busy: set<Edge>, open: set<int>, e: Edge, c: int)
    requires Inv(st, busy, open) && PointsTo(st.heap, e, c) && e !in busy
    ensures c < st.next
  {
    hide CountsOk, OwnersOk, ObjOk;
    if e.Listed? {
      var i :| 0 <= i < |st.heap[e.holder].props| && st.heap[e.holder].props[i] == c;
    }
  }

  // ----- What the methods read off the invariant -----

  lemma InRange(st: State, busy: set<Edge>, open: set<int>, x: int)
    requires Inv(st, busy, open) && x in st.heap
    ensures x < st.next && st.heap[x].nref == st.handles[x] + if x in st.owner then 1 else 0
  {
    hide RefsOk, ListsOk, OwnersOk, ObjOk;
  }

  lemma Unreferenced(st: State, busy: set<Edge>, open: set<int>, x: int)
    requires Inv(st, busy, open) && x in st.heap && st.heap[x].nref == 0
    ensures x !in st.owner && x !in st.handles
  {
    InRange(st, busy, open, x);
  }

  lemma AllLabels(st: State, busy: set<Edge>, open: set<int>, x: int)
    requires Inv(st, busy, open) && x in st.heap
    ensures st.heap[x].Value? ==> forall l :: l in st.heap[x].refs ==> l == Proto || l == Parent || l == Ctor
    ensures st.heap[x].Property? ==> forall l :: l in st.heap[x].refs ==> l == Val || l == Name || l == Alias
  {
    hide RefsOk, ListsOk, OwnersOk, CountsOk, ObjOk;
  }

  /** A value without properties may lose its GOT_PROPS flag. */
  lemma NoPropsFlag(st: State, busy: set<Edge>, open: set<int>, x: int)
    requires Inv(st, busy, open) && x in st.heap && st.heap[x].Value? && st.heap[x].props == []
    ensures Inv(st.(heap := st.heap[x := st.heap[x].(gotProps := false)]), busy, open)
  {
    if x !in open { assert ObjOk(st.heap[x]); }
    FlagKeeps(st, busy, open, x, st.heap[x].got, false);
    assert st.heap[x].(gotProps := false) == st.heap[x].(got := st.heap[x].got, gotProps := false);
  }

  lemma RefTarget(st: State, busy: set<Edge>, open: set<int>, x: int, l: Label)
    requires Inv(st, busy, open) && x in st.heap && l in st.heap[x].refs && Ref(x, l) !in busy
    ensures var c := st.heap[x].refs[l];
            x < c < st.next && c in st.heap && st.heap[c].Value? && c in st.owner && st.owner[c] == Ref(x, l)
  {
    hide ListsOk, OwnersOk, CountsOk, ObjOk;
  }

  lemma ListTarget(st: State, busy: set<Edge>, open: set<int>, v: int, i: int)
    requires Inv(st, busy, open) && v in st.heap && st.heap[v].Value? && 0 <= i < |st.heap[v].props|
    ensures var p := st.heap[v].props[i];
            v < p < st.next && p in st.heap && st.heap[p].Property? && p in st.owner && st.owner[p] == Listed(v)
  {
    hide RefsOk, OwnersOk, CountsOk, ObjOk;
  }
}
