/**
 * Reference-counted debugger values and properties (js/jsd/jsd_val.c) as a heap of records. An
 * address is a number; newer objects have larger addresses. The ghost part of the state records
 * which client handles are outstanding and which owning edge, if any, leads to each object.
 */
module RefHeapSpec {

  /** Owning pointer fields: a value caches proto, parent and ctor; a property holds val, name and alias. */
  datatype Label = Proto | Parent | Ctor | Val | Name | Alias

  /** A jsval: a primitive, or a reference to one of the engine's objects. */
  datatype JSVal = Primitive(bits: int) | ObjectVal(obj: int)

  /** JSDValue and JSDProperty. A pointer field missing from refs is NULL; got and gotProps are the GOT_ flags. */
  datatype Obj =
    | Value(nref: int, refs: map<Label, int>, val: JSVal, props: seq<int>, got: set<Label>, gotProps: bool)
    | Property(nref: int, refs: map<Label, int>)
  {
    function WithCount(n: int): Obj { this.(nref := n) }
    function WithRefs(r: map<Label, int>): Obj { this.(refs := r) }
  }

  /** An owning edge: a pointer field of an object, or membership in the property list of a value. */
  datatype Edge = Ref(holder: int, lab: Label) | Listed(holder: int)

  datatype State = State(heap: map<int, Obj>, next: int, owner: map<int, Edge>, handles: multiset<int>)

  ghost predicate PointsTo(heap: map<int, Obj>, e: Edge, c: int) {
    && e.holder in heap
    && if e.Ref? then e.lab in heap[e.holder].refs && heap[e.holder].refs[e.lab] == c
       else heap[e.holder].Value? && c in heap[e.holder].props
  }

  // ----- The invariant, relative to edges being released (busy) and objects being built or torn down (open) -----

  /** A pointer leads to a newer live value, which knows the pointer as its owner. */
  ghost predicate RefsOk(st: State, busy: set<Edge>) {
    forall x, l :: x in st.heap && l in st.heap[x].refs && Ref(x, l) !in busy ==>
      var c := st.heap[x].refs[l];
      c in st.heap && st.heap[c].Value? && x < c && c in st.owner && st.owner[c] == Ref(x, l)
  }

  /** The listed properties are distinct, live and newer than the value, and know it as their owner. */
  ghost predicate ListsOk(st: State) {
    forall v :: v in st.heap && st.heap[v].Value? ==>
      && (forall i :: 0 <= i < |st.heap[v].props| ==>
            var p := st.heap[v].props[i];
            p in st.heap && st.heap[p].Property? && v < p && p in st.owner && st.owner[p] == Listed(v))
      && (forall i, j :: 0 <= i < j < |st.heap[v].props| ==> st.heap[v].props[i] != st.heap[v].props[j])
  }

  ghost predicate OwnersOk(st: State, busy: set<Edge>) {
    forall c :: c in st.owner ==> c in st.heap && st.owner[c] !in busy && PointsTo(st.heap, st.owner[c], c)
  }

  ghost predicate CountsOk(st: State, open: set<int>) {
    && (forall x :: x in st.heap ==> st.heap[x].nref == st.handles[x] + if x in st.owner then 1 else 0)
    && (forall x :: x in st.heap ==> st.heap[x].nref > 0 || x in open)
    && (forall x :: x in st.handles ==> x in st.heap)
  }

  ghost predicate ObjOk(o: Obj) {
    if o.Value? then o.refs.Keys <= o.got && (o.props != [] ==> o.gotProps && o.val.ObjectVal?)
    else Name in o.refs && Val in o.refs
  }

  /** Values cache proto, parent and ctor; properties hold val, name and alias. */
  ghost predicate Fits(o: Obj, l: Label) {
    o.Value? <==> l == Proto || l == Parent || l == Ctor
  }

  lemma FitsSame(o: Obj, o': Obj)
    requires o.Value? == o'.Value?
    ensures forall l :: Fits(o, l) == Fits(o', l)
  {
  }

  ghost predicate ShapesOk(st: State, open: set<int>) {
    && 0 <= st.next && (forall x :: x in st.heap ==> 0 <= x < st.next)
    && (forall x, l :: x in st.heap && l in st.heap[x].refs ==> Fits(st.heap[x], l))
    && (forall x :: x in st.heap && x !in open ==> ObjOk(st.heap[x]))
  }

  ghost predicate Inv(st: State, busy: set<Edge>, open: set<int>) {
    && RefsOk(st, busy) && ListsOk(st) && OwnersOk(st, busy)
    && CountsOk(st, open) && ShapesOk(st, open)
  }

  /** Nothing older than x has changed. */
  ghost predicate OlderSame(a: State, b: State, x: int) {
    && a.next == b.next
    && (forall y :: y < x && y in a.heap ==> y in b.heap && b.heap[y] == a.heap[y])
  }

  // ----- Moving a reference between an edge and a handle -----

  /** The owner of c is about to drop it: its edge is released and its reference becomes a handle. */
  ghost function Detached(st: State, x: int, l: Label): State
    requires x in st.heap && l in st.heap[x].refs
  {
    var c := st.heap[x].refs[l];
    st.(owner := st.owner - {c}, handles := st.handles + multiset{c})
  }

  lemma DetachKeeps(st: State, busy: set<Edge>, open: set<int>, x: int, l: Label)
    requires Inv(st, busy, open) && x in st.heap && l in st.heap[x].refs && Ref(x, l) !in busy
    ensures Inv(Detached(st, x, l), busy + {Ref(x, l)}, open)
  {
    hide ObjOk;
    var st', busy' := Detached(st, x, l), busy + {Ref(x, l)};
    assert RefsOk(st', busy') by { hide ListsOk, OwnersOk, CountsOk, ShapesOk; }
    assert ListsOk(st') by { hide CountsOk, ShapesOk, OwnersOk; }
    assert OwnersOk(st', busy') by { hide CountsOk, ShapesOk, ListsOk, RefsOk; }
    assert CountsOk(st', open) by { hide ListsOk, OwnersOk, ShapesOk; }
    assert ShapesOk(st', open) by { hide ListsOk, OwnersOk, CountsOk, RefsOk; }
  }

  /** The released pointer is set to NULL. */
  ghost function Cleared(st: State, x: int, l: Label): State
    requires x in st.heap
  {
    st.(heap := st.heap[x := st.heap[x].WithRefs(st.heap[x].refs - {l})])
  }

  lemma ClearKeeps(st: State, busy: set<Edge>, open: set<int>, x: int, l: Label)
    requires Inv(st, busy + {Ref(x, l)}, open) && x in st.heap && Ref(x, l) !in busy
    requires st.heap[x].Property? ==> x in open
    ensures Inv(Cleared(st, x, l), busy, open)
  {
    ClearKeepsEdges(st, busy, open, x, l);
    hide PointsTo, ObjOk, Fits, RefsOk, ListsOk, OwnersOk;
    var st' := Cleared(st, x, l);
    assert CountsOk(st', open) by { hide ShapesOk; }
    assert ShapesOk(st', open) by {
      hide CountsOk;
      FitsSame(st.heap[x], st'.heap[x]);
      if x !in open { ObjOkCleared(st.heap[x], l); }
    }
  }

  lemma ClearKeepsEdges(st: State, busy: set<Edge>, open: set<int>, x: int, l: Label)
    requires Inv(st, busy + {Ref(x, l)}, open) && x in st.heap && Ref(x, l) !in busy
    ensures RefsOk(Cleared(st, x, l), busy) && ListsOk(Cleared(st, x, l)) && OwnersOk(Cleared(st, x, l), busy)
  {
    hide PointsTo, ShapesOk, CountsOk;
    var st' := Cleared(st, x, l);
    assert RefsOk(st', busy) by { hide ListsOk, OwnersOk; }
    assert ListsOk(st') by { hide OwnersOk, RefsOk; }
    assert OwnersOk(st', busy) by {
      hide ListsOk, RefsOk;
      forall c | c in st.owner ensures PointsTo(st'.heap, st.owner[c], c) {
        PointsToAfter(st.heap, st'.heap, x, st.owner[c], c);
      }
    }
  }

  lemma ObjOkCleared(o: Obj, l: Label)
    requires ObjOk(o) && o.Value?
    ensures ObjOk(o.WithRefs(o.refs - {l}))
  {
  }

  /** Changing one object only disturbs the edges it no longer holds. */
  lemma PointsToAfter(heap: map<int, Obj>, heap': map<int, Obj>, x: int, e: Edge, c: int)
    requires PointsTo(heap, e, c) && x in heap && x in heap'
    requires forall y :: y in heap && y != x ==> y in heap' && heap'[y] == heap[y]
    requires e.holder == x && e.Ref? && e.lab in heap[x].refs ==>
               e.lab in heap'[x].refs && heap'[x].refs[e.lab] == heap[x].refs[e.lab]
    requires e == Listed(x) && heap[x].Value? && c in heap[x].props ==> heap'[x].Value? && c in heap'[x].props
    ensures PointsTo(heap', e, c)
  {
  }

  /** JS_REMOVE_AND_INIT_LINK on the first property of x: its list edge becomes a handle. */
  ghost function Unlinked(st: State, x: int): State
    requires x in st.heap && st.heap[x].Value? && st.heap[x].props != []
  {
    var p := st.heap[x].props[0];
    st.(heap := st.heap[x := st.heap[x].(props := st.heap[x].props[1..])],
        owner := st.owner - {p}, handles := st.handles + multiset{p})
  }

  lemma UnlinkKeeps(st: State, busy: set<Edge>, open: set<int>, x: int)
    requires Inv(st, busy, open) && x in st.heap && st.heap[x].Value? && st.heap[x].props != []
    ensures Inv(Unlinked(st, x), busy, open)
  {
    UnlinkKeepsEdges(st, busy, x);
    var st', p := Unlinked(st, x), st.heap[x].props[0];
    assert st.owner[p] == Listed(x) by { assert st.heap[x].props[0] == p; }
    hide PointsTo, ObjOk, Fits, RefsOk, ListsOk, OwnersOk;
    assert CountsOk(st', open) by { hide ShapesOk; }
    assert ShapesOk(st', open) by {
      hide CountsOk;
      FitsSame(st.heap[x], st'.heap[x]);
      if x !in open { ObjOkUnlinked(st.heap[x]); }
    }
  }

  lemma UnlinkKeepsEdges(st: State, busy: set<Edge>, x: int)
    requires RefsOk(st, busy) && ListsOk(st) && OwnersOk(st, busy)
    requires x in st.heap && st.heap[x].Value? && st.heap[x].props != []
    ensures RefsOk(Unlinked(st, x), busy) && ListsOk(Unlinked(st, x)) && OwnersOk(Unlinked(st, x), busy)
  {
    hide PointsTo;
    var st', p := Unlinked(st, x), st.heap[x].props[0];
    assert p in st.owner && st.owner[p] == Listed(x) by { assert st.heap[x].props[0] == p; }
    assert st.heap[x].props == [p] + st'.heap[x].props;
    assert RefsOk(st', busy) by { hide ListsOk, OwnersOk; }
    assert ListsOk(st') by {
      hide OwnersOk, RefsOk, ListsOk;
      UnlinkLists(st, x);
    }
    assert OwnersOk(st', busy) by {
      hide ListsOk, RefsOk;
      forall c | c in st'.owner ensures c in st'.heap && PointsTo(st'.heap, st'.owner[c], c) {
        PointsToAfter(st.heap, st'.heap, x, st.owner[c], c);
      }
    }
  }

  lemma UnlinkLists(st: State, x: int)
    requires ListsOk(st) && x in st.heap && st.heap[x].Value? && st.heap[x].props != []
    ensures ListsOk(Unlinked(st, x))
  {
    var st', p := Unlinked(st, x), st.heap[x].props[0];
    forall v | v in st'.heap && st'.heap[v].Value?
      ensures forall i :: 0 <= i < |st'.heap[v].props| ==>
                var q := st'.heap[v].props[i];
                q in st'.heap && st'.heap[q].Property? && v < q && q in st'.owner && st'.owner[q] == Listed(v)
      ensures forall i, j :: 0 <= i < j < |st'.heap[v].props| ==> st'.heap[v].props[i] != st'.heap[v].props[j]
    {
      assert v != x ==> st'.heap[v] == st.heap[v];
      assert st.owner[p] == Listed(x);
    }
  }

  lemma ObjOkUnlinked(o: Obj)
    requires ObjOk(o) && o.Value? && o.props != []
    ensures ObjOk(o.(props := o.props[1..]))
  {
  }

  // ----- Handles -----

  /** Changing one object keeps what is said about shapes if the object is still in order, or under construction. */
  lemma ShapesKept(st: State, st': State, open: set<int>, open': set<int>, x: int)
    requires ShapesOk(st, open) && open <= open' && st'.next == st.next
    requires x in st.heap && x in st'.heap && st'.heap == st.heap[x := st'.heap[x]]
    requires st'.heap[x].Value? == st.heap[x].Value? && st'.heap[x].refs.Keys <= st.heap[x].refs.Keys
    requires x in open' || ObjOk(st'.heap[x])
    ensures ShapesOk(st', open')
  {
    hide ObjOk, Fits;
    FitsSame(st.heap[x], st'.heap[x]);
  }

  /** Two records with the same owning pointers. */
  ghost predicate SameEdges(o: Obj, o': Obj) {
    o.Value? == o'.Value? && o.refs == o'.refs && (o.Value? ==> o.props == o'.props)
  }

  /** Changing anything but its pointers in one object keeps everything that is said about edges. */
  lemma EdgesKept(st: State, st': State, busy: set<Edge>, x: int)
    requires RefsOk(st, busy) && ListsOk(st) && OwnersOk(st, busy)
    requires x in st.heap && x in st'.heap && st'.heap == st.heap[x := st'.heap[x]] && st'.owner == st.owner
    requires SameEdges(st.heap[x], st'.heap[x])
    ensures RefsOk(st', busy) && ListsOk(st') && OwnersOk(st', busy)
  {
    assert forall y :: y in st'.heap ==> y in st.heap && SameEdges(st.heap[y], st'.heap[y]);
    assert RefsOk(st', busy) by { hide ListsOk, OwnersOk; }
    assert ListsOk(st') by { hide OwnersOk, RefsOk; }
    assert OwnersOk(st', busy) by { hide ListsOk, RefsOk; }
  }

  ghost function Released(st: State, x: int): State
    requires x in st.heap
  {
    st.(heap := st.heap[x := st.heap[x].WithCount(st.heap[x].nref - 1)], handles := st.handles - multiset{x})
  }

  /** Giving up a handle; an object whose last reference this was is neither held nor owned any more. */
  lemma ReleaseKeeps(st: State, busy: set<Edge>, open: set<int>, x: int)
    requires Inv(st, busy, open) && x in st.heap && x in st.handles
    ensures var st' := Released(st, x);
            && Inv(st', busy, if st'.heap[x].nref == 0 then open + {x} else open)
            && (st'.heap[x].nref == 0 ==> x !in st'.owner && x !in st'.handles)
  {
    var st' := Released(st, x);
    var open' := if st'.heap[x].nref == 0 then open + {x} else open;
    hide PointsTo, ObjOk, Fits, RefsOk, ListsOk, OwnersOk;
    EdgesKept(st, st', busy, x);
    ReleaseCounts(st, open, x);
    assert x in open' || ObjOk(st'.heap[x]) by {
      if x !in open { SameShape(st.heap[x], st'.heap[x]); }
    }
    ShapesKept(st, st', open, open', x);
    hide CountsOk, ShapesOk;
  }

  lemma ReleaseCounts(st: State, open: set<int>, x: int)
    requires CountsOk(st, open) && x in st.heap && x in st.handles
    ensures var st' := Released(st, x);
            && CountsOk(st', if st'.heap[x].nref == 0 then open + {x} else open)
            && (st'.heap[x].nref == 0 ==> x !in st'.owner && x !in st'.handles)
  {
    var st' := Released(st, x);
    assert st.handles[x] > 0 && st'.handles[x] == st.handles[x] - 1;
  }

  lemma SameShape(o: Obj, o': Obj)
    requires o' == o.WithCount(o'.nref)
    ensures ObjOk(o) ==> ObjOk(o')
  {
  }

  ghost function Referenced(st: State, x: int): State
    requires x in st.heap
  {
    st.(heap := st.heap[x := st.heap[x].WithCount(st.heap[x].nref + 1)], handles := st.handles + multiset{x})
  }

  lemma ReferenceKeeps(st: State, busy: set<Edge>, open: set<int>, x: int)
    requires Inv(st, busy, open) && x in st.heap && x !in open
    ensures Inv(Referenced(st, x), busy, open)
  {
    var st' := Referenced(st, x);
    hide PointsTo, ObjOk, Fits, RefsOk, ListsOk, OwnersOk;
    EdgesKept(st, st', busy, x);
    SameShape(st.heap[x], st'.heap[x]);
    ShapesKept(st, st', open, open, x);
    hide ShapesOk;
  }

  // ----- Allocating and freeing -----

  ghost function Freed(st: State, x: int): State
  {
    st.(heap := st.heap - {x})
  }

  /** free() of an object nobody refers to and which refers to nobody. */
  lemma FreeKeeps(st: State, busy: set<Edge>, open: set<int>, x: int)
    requires Inv(st, busy, open) && x in st.heap && x !in st.owner && x !in st.handles
    requires st.heap[x].refs == map[] && (st.heap[x].Value? ==> st.heap[x].props == [])
    ensures Inv(Freed(st, x), busy, open - {x})
  {
    FreeKeepsEdges(st, busy, x);
    hide ObjOk, Fits, RefsOk, ListsOk, OwnersOk;
    var st', open' := Freed(st, x), open - {x};
    assert CountsOk(st', open') by { hide ShapesOk; }
    assert ShapesOk(st', open') by { hide CountsOk; }
  }

  lemma FreeKeepsEdges(st: State, busy: set<Edge>, x: int)
    requires RefsOk(st, busy) && ListsOk(st) && OwnersOk(st, busy) && x in st.heap && x !in st.owner
    requires st.heap[x].refs == map[] && (st.heap[x].Value? ==> st.heap[x].props == [])
    ensures RefsOk(Freed(st, x), busy) && ListsOk(Freed(st, x)) && OwnersOk(Freed(st, x), busy)
  {
    var st' := Freed(st, x);
    assert RefsOk(st', busy) by { hide ListsOk, OwnersOk; }
    assert ListsOk(st') by { hide OwnersOk, RefsOk; }
    assert OwnersOk(st', busy) by {
      hide ListsOk, RefsOk;
      forall c | c in st'.owner ensures c in st'.heap && PointsTo(st'.heap, st'.owner[c], c) {
        assert PointsTo(st.heap, st.owner[c], c);
      }
    }
  }

  ghost function Allocated(st: State, o: Obj): State
  {
    State(st.heap[st.next := o], st.next + 1, st.owner, st.handles + multiset{st.next})
  }

  /** calloc() of an object with one reference, held by the caller; a property is still incomplete. */
  lemma AllocateKeeps(st: State, busy: set<Edge>, open: set<int>, o: Obj)
    requires Inv(st, busy, open)
    requires o.nref == 1 && o.refs == map[] && (o.Value? ==> o.props == [])
    ensures Inv(Allocated(st, o), busy, if o.Value? then open else open + {st.next})
    ensures st.next !in st.heap && st.next !in st.owner
  {
    var x := st.next;
    var st', open' := Allocated(st, o), if o.Value? then open else open + {x};
    assert x !in st.heap && x !in st.owner && x !in st.handles;
    AllocateKeepsEdges(st, busy, o);
    hide PointsTo, ObjOk, Fits, RefsOk, ListsOk, OwnersOk;
    assert CountsOk(st', open') by { hide ShapesOk; }
    assert ShapesOk(st', open') by {
      hide CountsOk;
      if o.Value? { NewObjOk(o); }
    }
  }

  lemma AllocateKeepsEdges(st: State, busy: set<Edge>, o: Obj)
    requires RefsOk(st, busy) && ListsOk(st) && OwnersOk(st, busy) && st.next !in st.heap
    requires o.refs == map[] && (o.Value? ==> o.props == [])
    ensures RefsOk(Allocated(st, o), busy) && ListsOk(Allocated(st, o)) && OwnersOk(Allocated(st, o), busy)
  {
    hide PointsTo;
    var st' := Allocated(st, o);
    assert RefsOk(st', busy) by { hide ListsOk, OwnersOk; }
    assert ListsOk(st') by { hide OwnersOk, RefsOk; }
    assert OwnersOk(st', busy) by {
      hide ListsOk, RefsOk;
      forall c | c in st'.owner ensures c in st'.heap && PointsTo(st'.heap, st'.owner[c], c) {
        PointsToAllocated(st.heap, st.next, o, st.owner[c], c);
      }
    }
  }

  lemma NewObjOk(o: Obj)
    requires o.refs == map[] && o.Value? && o.props == []
    ensures ObjOk(o)
  {
  }

  lemma PointsToAllocated(heap: map<int, Obj>, x: int, o: Obj, e: Edge, c: int)
    requires PointsTo(heap, e, c) && x !in heap
    ensures PointsTo(heap[x := o], e, c)
  {
  }

  // ----- Handing a held object to an owner -----

  ghost function Attached(st: State, x: int, l: Label, c: int): State
    requires x in st.heap
  {
    st.(heap := st.heap[x := st.heap[x].WithRefs(st.heap[x].refs[l := c])],
        owner := st.owner[c := Ref(x, l)], handles := st.handles - multiset{c})
  }

  /** A NULL pointer field takes over the caller's handle on a newer value. */
  lemma AttachKeeps(st: State, busy: set<Edge>, open: set<int>, x: int, l: Label, c: int)
    requires Inv(st, busy, open) && x in st.heap && l !in st.heap[x].refs && Ref(x, l) !in busy
    requires c in st.heap && st.heap[c].Value? && x < c && c in st.handles && c !in st.owner
    requires Fits(st.heap[x], l) && (x !in open ==> st.heap[x].Value? && l in st.heap[x].got)
    ensures Inv(Attached(st, x, l, c), busy, open)
  {
    AttachKeepsEdges(st, busy, x, l, c);
    AttachCounts(st, open, x, l, c);
    hide ObjOk, PointsTo, Fits, RefsOk, ListsOk, OwnersOk, CountsOk;
    var st' := Attached(st, x, l, c);
    FitsSame(st.heap[x], st'.heap[x]);
    if x !in open { ObjOkAttached(st.heap[x], l, c); }
  }

  lemma AttachKeepsEdges(st: State, busy: set<Edge>, x: int, l: Label, c: int)
    requires RefsOk(st, busy) && ListsOk(st) && OwnersOk(st, busy)
    requires x in st.heap && l !in st.heap[x].refs && Ref(x, l) !in busy
    requires c in st.heap && st.heap[c].Value? && x < c && c !in st.owner
    ensures var st' := Attached(st, x, l, c); RefsOk(st', busy) && ListsOk(st') && OwnersOk(st', busy)
  {
    hide PointsTo;
    var st', c0 := Attached(st, x, l, c), c;
    assert RefsOk(st', busy) by {
      hide ListsOk, OwnersOk, RefsOk;
      AttachRefs(st, busy, x, l, c);
    }
    assert ListsOk(st') by { hide OwnersOk, RefsOk; }
    assert OwnersOk(st', busy) by {
      hide ListsOk, RefsOk;
      forall c | c in st'.owner ensures c in st'.heap && PointsTo(st'.heap, st'.owner[c], c) {
        if c == c0 { PointsToAttached(st, x, l, c); } else { PointsToAfter(st.heap, st'.heap, x, st.owner[c], c); }
      }
    }
  }

  lemma AttachRefs(st: State, busy: set<Edge>, x: int, l: Label, c: int)
    requires RefsOk(st, busy) && x in st.heap && l !in st.heap[x].refs
    requires c in st.heap && st.heap[c].Value? && x < c && c !in st.owner
    ensures RefsOk(Attached(st, x, l, c), busy)
  {
    var st' := Attached(st, x, l, c);
    forall y, k | y in st'.heap && k in st'.heap[y].refs && Ref(y, k) !in busy
      ensures var d := st'.heap[y].refs[k];
              d in st'.heap && st'.heap[d].Value? && y < d && d in st'.owner && st'.owner[d] == Ref(y, k)
    {
      if y != x || k != l { assert y in st.heap && k in st.heap[y].refs; }
    }
  }

  lemma AttachCounts(st: State, open: set<int>, x: int, l: Label, c: int)
    requires CountsOk(st, open) && x in st.heap && c in st.heap && c in st.handles && c !in st.owner && x != c
    ensures CountsOk(Attached(st, x, l, c), open)
  {
    var st' := Attached(st, x, l, c);
    forall y | y in st'.heap ensures st'.heap[y].nref == st'.handles[y] + if y in st'.owner then 1 else 0 {
      assert y in st.heap && st'.heap[y].nref == st.heap[y].nref;
    }
  }

  lemma PointsToAttached(st: State, x: int, l: Label, c: int)
    requires x in st.heap
    ensures PointsTo(Attached(st, x, l, c).heap, Ref(x, l), c)
  {
  }

  lemma ObjOkAttached(o: Obj, l: Label, c: int)
    requires ObjOk(o) && o.Value? && l in o.got
    ensures ObjOk(o.WithRefs(o.refs[l := c]))
  {
  }

  ghost function Appended(st: State, x: int, p: int): State
    requires x in st.heap && st.heap[x].Value?
  {
    st.(heap := st.heap[x := st.heap[x].(props := st.heap[x].props + [p])],
        owner := st.owner[p := Listed(x)], handles := st.handles - multiset{p})
  }

  /** JS_APPEND_LINK: the list takes over the handle on a newer property. */
  lemma AppendKeeps(st: State, busy: set<Edge>, open: set<int>, x: int, p: int)
    requires Inv(st, busy, open) && x in st.heap && st.heap[x].Value? && x in open && Listed(x) !in busy
    requires p in st.heap && st.heap[p].Property? && x < p && p in st.handles && p !in st.owner
    ensures Inv(Appended(st, x, p), busy, open)
  {
    AppendKeepsEdges(st, busy, x, p);
    hide ObjOk, PointsTo, Fits, RefsOk, ListsOk, OwnersOk;
    var st' := Appended(st, x, p);
    ShapesKept(st, st', open, open, x);
    hide ShapesOk;
  }

  lemma AppendKeepsEdges(st: State, busy: set<Edge>, x: int, p: int)
    requires RefsOk(st, busy) && ListsOk(st) && OwnersOk(st, busy)
    requires x in st.heap && st.heap[x].Value? && Listed(x) !in busy
    requires p in st.heap && st.heap[p].Property? && x < p && p !in st.owner
    ensures var st' := Appended(st, x, p); RefsOk(st', busy) && ListsOk(st') && OwnersOk(st', busy)
  {
    hide PointsTo;
    var st' := Appended(st, x, p);
    assert RefsOk(st', busy) by { hide ListsOk, OwnersOk; }
    assert ListsOk(st') by {
      hide OwnersOk, RefsOk, ListsOk;
      AppendLists(st, x, p);
    }
    assert OwnersOk(st', busy) by {
      hide ListsOk, RefsOk;
      forall c | c in st'.owner ensures c in st'.heap && PointsTo(st'.heap, st'.owner[c], c) {
        if c == p { PointsToAppended(st, x, p); } else { PointsToAfter(st.heap, st'.heap, x, st.owner[c], c); }
      }
    }
  }

  lemma AppendLists(st: State, x: int, p: int)
    requires ListsOk(st) && x in st.heap && st.heap[x].Value?
    requires p in st.heap && st.heap[p].Property? && x < p && p !in st.owner
    ensures ListsOk(Appended(st, x, p))
  {
    var st' := Appended(st, x, p);
    forall v | v in st'.heap && st'.heap[v].Value?
      ensures forall i :: 0 <= i < |st'.heap[v].props| ==>
                var q := st'.heap[v].props[i];
                q in st'.heap && st'.heap[q].Property? && v < q && q in st'.owner && st'.owner[q] == Listed(v)
      ensures forall i, j :: 0 <= i < j < |st'.heap[v].props| ==> st'.heap[v].props[i] != st'.heap[v].props[j]
    {
      assert forall i :: 0 <= i < |st.heap[v].props| ==> st.heap[v].props[i] != p;
    }
  }

  lemma PointsToAppended(st: State, x: int, p: int)
    requires x in st.heap && st.heap[x].Value?
    ensures PointsTo(Appended(st, x, p).heap, Listed(x), p)
  {
    var props := st.heap[x].props + [p];
    assert props[|props| - 1] == p;
  }

  /** Changing the GOT_ flags of a value. */
  ghost function Flagged(st: State, x: int, got: set<Label>, gotProps: bool): State
    requires x in st.heap && st.heap[x].Value?
  {
    st.(heap := st.heap[x := st.heap[x].(got := got, gotProps := gotProps)])
  }

  lemma FlagKeeps(st: State, busy: set<Edge>, open: set<int>, x: int, got: set<Label>, gotProps: bool)
    requires Inv(st, busy, open) && x in st.heap && st.heap[x].Value?
    requires x in open || ObjOk(Flagged(st, x, got, gotProps).heap[x])
    ensures Inv(Flagged(st, x, got, gotProps), busy, open)
  {
    var st' := Flagged(st, x, got, gotProps);
    hide ObjOk, PointsTo, Fits, RefsOk, ListsOk, OwnersOk;
    EdgesKept(st, st', busy, x);
    ShapesKept(st, st', open, open, x);
    hide ShapesOk;
  }

  /** A finished object leaves the set of objects under construction; any object may enter it. */
  lemma OpenClose(st: State, busy: set<Edge>, open: set<int>, x: int)
    requires Inv(st, busy, open)
    ensures Inv(st, busy, open + {x})
    ensures x in st.heap && st.heap[x].nref > 0 && ObjOk(st.heap[x]) ==> Inv(st, busy, open - {x})
  {
    hide RefsOk, ListsOk, OwnersOk, PointsTo, ObjOk;
  }
}
