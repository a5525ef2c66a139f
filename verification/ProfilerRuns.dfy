/**
 * Whole runs of the profiler: what the incremental clock stopping and restarting adds up to,
 * measured against a reference that looks only at the call stack between events.
 */
module ProfilerRuns {
  import opened Options
  import opened Profiler

  // ----- Runs -----

  ghost function Init<T>(s: seq<T>): seq<T>
    requires s != []
  {
    s[..|s| - 1]
  }

  ghost function Last<T>(s: seq<T>): T
    requires s != []
  {
    s[|s| - 1]
  }

  /** All activations in progress, the innermost last. */
  ghost function Calls(evs: seq<Event>): seq<nat> {
    if evs == [] then []
    else if Last(evs).before then Calls(Init(evs)) + [Last(evs).f]
    else if Calls(Init(evs)) == [] then [] else Init(Calls(Init(evs)))
  }

  ghost function Clock(evs: seq<Event>): int {
    if evs == [] then 0 else Last(evs).now
  }

  /** Functions below n, each return ending the innermost call, under a clock that is positive and never goes back. */
  ghost predicate WellNested(evs: seq<Event>, n: nat) {
    evs != [] ==>
      && WellNested(Init(evs), n)
      && Last(evs).f < n
      && (!Last(evs).before ==> Calls(Init(evs)) != [] && Last(Calls(Init(evs))) == Last(evs).f)
      && 0 < Last(evs).now && Clock(Init(evs)) <= Last(evs).now
  }

  ghost function Run(evs: seq<Event>, n: nat): (s: State)
    requires WellNested(evs, n)
    ensures |s.pd| == n
  {
    if evs == [] then Initial(n) else Step(Run(Init(evs), n), Last(evs))
  }

  // ----- The stack of first activations -----

  ghost function Occurs(stack: seq<nat>, f: nat): nat {
    if stack == [] then 0 else Occurs(Init(stack), f) + if Last(stack) == f then 1 else 0
  }

  /** The functions on the stack, each where it was first entered. */
  ghost function FirstActs(stack: seq<nat>): seq<nat> {
    if stack == [] then []
    else if Last(stack) in Init(stack) then FirstActs(Init(stack))
    else FirstActs(Init(stack)) + [Last(stack)]
  }

  ghost function LastOf(fa: seq<nat>): Option<nat> {
    if fa == [] then None else Some(Last(fa))
  }

  ghost function Top(stack: seq<nat>): Option<nat> {
    LastOf(FirstActs(stack))
  }

  lemma {:induction false} OccursIn(stack: seq<nat>, f: nat)
    ensures Occurs(stack, f) > 0 <==> f in stack
  {
    if stack != [] {
      OccursIn(Init(stack), f);
      assert stack == Init(stack) + [Last(stack)];
    }
  }

  lemma {:induction false} FirstActsElements(stack: seq<nat>)
    ensures forall f :: f in FirstActs(stack) <==> f in stack
    ensures forall i, j :: 0 <= i < j < |FirstActs(stack)| ==> FirstActs(stack)[i] != FirstActs(stack)[j]
    ensures FirstActs(stack) == [] <==> stack == []
  {
    if stack != [] {
      FirstActsElements(Init(stack));
      assert stack == Init(stack) + [Last(stack)];
    }
  }

  lemma Push(stack: seq<nat>, f: nat)
    ensures FirstActs(stack + [f]) == if f in stack then FirstActs(stack) else FirstActs(stack) + [f]
    ensures forall g :: Occurs(stack + [f], g) == Occurs(stack, g) + if f == g then 1 else 0
  {
    assert Init(stack + [f]) == stack;
  }

  // ----- The reference accounting -----

  /** Time during which f was the innermost first activation. */
  ghost function OwnTime(evs: seq<Event>, f: nat): int {
    if evs == [] then 0
    else OwnTime(Init(evs), f) + if Top(Calls(Init(evs))) == Some(f) then Clock(evs) - Clock(Init(evs)) else 0
  }

  /** When f was last entered without being on the stack, and its own time up to then. */
  ghost function Entered(evs: seq<Event>, f: nat): (int, int) {
    if evs == [] then (0, 0)
    else if Last(evs).before && Last(evs).f == f && f !in Calls(Init(evs)) then (Clock(evs), OwnTime(Init(evs), f))
    else Entered(Init(evs), f)
  }

  /** The last event ends the first activation of f. */
  ghost predicate Completes(evs: seq<Event>, f: nat) {
    evs != [] && !Last(evs).before && Last(evs).f == f && Occurs(Calls(Init(evs)), f) == 1
  }

  /** The spans of f's completed first activations, and the own time spent in each. */
  ghost function Spans(evs: seq<Event>, f: nat): seq<int> {
    if evs == [] then []
    else if Completes(evs, f) then Spans(Init(evs), f) + [Clock(evs) - Entered(Init(evs), f).0]
    else Spans(Init(evs), f)
  }

  ghost function OwnSpans(evs: seq<Event>, f: nat): seq<int> {
    if evs == [] then []
    else if Completes(evs, f) then OwnSpans(Init(evs), f) + [OwnTime(evs, f) - Entered(Init(evs), f).1]
    else OwnSpans(Init(evs), f)
  }

  ghost function Returns(evs: seq<Event>, f: nat): nat {
    if evs == [] then 0 else Returns(Init(evs), f) + if !Last(evs).before && Last(evs).f == f then 1 else 0
  }

  /** A recursive call of f returned before any first activation of f was completed. */
  ghost predicate RecursedFirst(evs: seq<Event>, f: nat) {
    evs != [] && (RecursedFirst(Init(evs), f) ||
                  (!Last(evs).before && Last(evs).f == f &&
                   Occurs(Calls(Init(evs)), f) > 1 && Spans(Init(evs), f) == []))
  }

  /** The deepest recursion of f so far: activations beyond the first. */
  ghost function MaxDepth(evs: seq<Event>, f: nat): nat {
    if evs == [] then 0
    else if Occurs(Calls(evs), f) > MaxDepth(Init(evs), f) + 1 then Occurs(Calls(evs), f) - 1
    else MaxDepth(Init(evs), f)
  }

  ghost function Sum(s: seq<int>): int {
    if s == [] then 0 else Sum(Init(s)) + Last(s)
  }

  /** The maximum of the spans, 0 before there are any. */
  ghost function Max(s: seq<int>): int {
    if s == [] then 0 else RaiseMax(Last(s), Max(Init(s)))
  }

  /** The minimum of the spans, 0 before there are any. */
  ghost function Min(s: seq<int>): int {
    if s == [] then 0
    else if |s| == 1 || Last(s) < Min(Init(s)) then Last(s) else Min(Init(s))
  }

  // ----- What every state of a run satisfies -----

  /** Own time of f not yet recorded when the clock reads t. */
  ghost function Pending(s: State, stack: seq<nat>, f: nat, t: int): int
    requires f < |s.pd|
  {
    if f !in stack then 0
    else if Top(stack) == Some(f) then
      s.pd[f].runningTime + (t - if s.lastReturnTime != 0 then s.lastReturnTime else s.pd[f].lastCallStart)
    else s.pd[f].runningTime
  }

  ghost predicate OnStack(p: PData, evs: seq<Event>, f: nat) {
    if f in Calls(evs) then
      0 < p.lastCallStart == Entered(evs, f).0 && p.recurseDepth == Occurs(Calls(evs), f) - 1
    else
      p.lastCallStart == 0 && p.recurseDepth == 0 && p.caller == None
  }

  ghost predicate Accounts(p: PData, evs: seq<Event>, f: nat, pending: int) {
    && p.totalOwnExecutionTime + pending == OwnTime(evs, f)
    && 0 <= pending && p.totalOwnExecutionTime <= p.totalExecutionTime
    && (f in Calls(evs) ==>
          pending <= Clock(evs) - p.lastCallStart && p.totalOwnExecutionTime == Entered(evs, f).1)
  }

  ghost predicate Statistics(p: PData, evs: seq<Event>, f: nat) {
    && p.callCount == Returns(evs, f) && p.maxRecurseDepth == MaxDepth(evs, f)
    && p.totalExecutionTime == Sum(Spans(evs, f)) && p.maxExecutionTime == Max(Spans(evs, f))
    && p.maxOwnExecutionTime == Max(OwnSpans(evs, f))
    && |Spans(evs, f)| == |OwnSpans(evs, f)|
    && p.minExecutionTime == (if RecursedFirst(evs, f) then 0 else Min(Spans(evs, f)))
    && p.minOwnExecutionTime == (if RecursedFirst(evs, f) then 0 else Min(OwnSpans(evs, f)))
    && (Spans(evs, f) == [] ==> (p.callCount > 0 <==> RecursedFirst(evs, f)))
    && (Spans(evs, f) != [] ==> p.callCount > 0)
  }

  ghost predicate Consistent(s: State, evs: seq<Event>, f: nat)
    requires f < |s.pd|
  {
    && OnStack(s.pd[f], evs, f)
    && Accounts(s.pd[f], evs, f, Pending(s, Calls(evs), f, Clock(evs)))
    && Statistics(s.pd[f], evs, f)
  }

  /** Following the caller links from the end of fa runs down fa and stops at its first element. */
  ghost predicate Chain(pd: seq<PData>, fa: seq<nat>) {
    fa != [] ==>
      Last(fa) < |pd| && pd[Last(fa)].caller == LastOf(Init(fa)) && Chain(pd, Init(fa))
  }

  /** callingFunctionPData and the caller links spell out the stack of first activations. */
  ghost predicate Linked(s: State, stack: seq<nat>) {
    s.calling == Top(stack) && Chain(s.pd, FirstActs(stack))
  }

  lemma {:induction false} ChainFrame(pd: seq<PData>, pd': seq<PData>, fa: seq<nat>, f: nat)
    requires Chain(pd, fa) && |pd'| == |pd| && f !in fa
    requires forall g :: 0 <= g < |pd| && g != f ==> pd'[g].caller == pd[g].caller
    ensures Chain(pd', fa)
  {
    if fa != [] { ChainFrame(pd, pd', Init(fa), f); }
  }

  ghost predicate Restarted(s: State, stack: seq<nat>) {
    stack != [] && s.lastReturnTime == 0 && Top(stack).Some? && Top(stack).value < |s.pd| ==>
      s.pd[Top(stack).value].runningTime == 0
  }

  ghost predicate Reached(s: State, evs: seq<Event>, n: nat) {
    && |s.pd| == n
    && Linked(s, Calls(evs)) && Restarted(s, Calls(evs))
    && forall f :: 0 <= f < n ==> Consistent(s, evs, f)
  }

  lemma TopIsOnStack(stack: seq<nat>)
    ensures Top(stack).Some? ==> Top(stack).value in stack
    ensures Top(stack).None? <==> stack == []
  {
    FirstActsElements(stack);
  }

  lemma {:induction false} DepthBound(evs: seq<Event>, f: nat)
    ensures Occurs(Calls(evs), f) <= MaxDepth(evs, f) + 1
  {
  }

  /** What a call or return that does not end a first activation of f leaves unchanged. */
  lemma Unrecorded(evs: seq<Event>, e: Event, f: nat)
    requires !Completes(evs + [e], f)
    ensures Spans(evs + [e], f) == Spans(evs, f) && OwnSpans(evs + [e], f) == OwnSpans(evs, f)
  {
    assert Init(evs + [e]) == evs;
  }

  // A call of a function not on the stack.

  ghost predicate IsFirstCall(s: State, evs: seq<Event>, e: Event, n: nat) {
    Reached(s, evs, n) && e.before && e.f < n && e.f !in Calls(evs) && 0 < e.now && Clock(evs) <= e.now
  }

  lemma FirstCallLinks(s: State, evs: seq<Event>, e: Event, n: nat)
    requires IsFirstCall(s, evs, e, n)
    ensures Linked(Step(s, e), Calls(evs + [e])) && Restarted(Step(s, e), Calls(evs + [e]))
  {
    var stack, s' := Calls(evs), Step(s, e);
    var fa := FirstActs(stack);
    assert Init(evs + [e]) == evs;
    assert OnStack(s.pd[e.f], evs, e.f) by { assert Consistent(s, evs, e.f); }
    CallersAfterFirstCall(s, e);
    Push(stack, e.f);
    FirstActsElements(stack);
    ChainFrame(s.pd, s'.pd, fa, e.f);
    assert Init(fa + [e.f]) == fa;
    assert Last(fa + [e.f]) == e.f;
    hide Consistent, OnStack, Step;
  }

  lemma CallersAfterFirstCall(s: State, e: Event)
    requires e.before && e.f < |s.pd| && s.pd[e.f].lastCallStart == 0 && s.pd[e.f].caller == None
    requires s.calling.Some? ==> s.calling.value < |s.pd|
    ensures var s' := Step(s, e);
            && |s'.pd| == |s.pd| && s'.calling == Some(e.f) && s'.lastReturnTime == 0
            && s'.pd[e.f].caller == s.calling && s'.pd[e.f].runningTime == 0
            && forall g :: 0 <= g < |s.pd| && g != e.f ==> s'.pd[g].caller == s.pd[g].caller
  {
  }

  /** Stopping the caller's clock keeps its time; the new first activation starts at nothing. */
  lemma PendingAfterFirstCall(s: State, evs: seq<Event>, e: Event, n: nat, f: nat)
    requires IsFirstCall(s, evs, e, n) && f < n
    ensures Pending(Step(s, e), Calls(evs + [e]), f, e.now)
         == if f == e.f then 0
            else Pending(s, Calls(evs), f, Clock(evs)) + if Top(Calls(evs)) == Some(f) then e.now - Clock(evs) else 0
  {
    hide Accounts, Statistics, Chain;
    assert Init(evs + [e]) == evs;
    Push(Calls(evs), e.f);
    TopIsOnStack(Calls(evs));
    assert Consistent(s, evs, e.f);
  }

  /** What a call adds to the reference accounting of f. */
  lemma CallAccounting(evs: seq<Event>, e: Event, f: nat)
    requires e.before
    ensures Calls(evs + [e]) == Calls(evs) + [e.f] && Clock(evs + [e]) == e.now
    ensures OwnTime(evs + [e], f) == OwnTime(evs, f) + if Top(Calls(evs)) == Some(f) then e.now - Clock(evs) else 0
    ensures Entered(evs + [e], f) == if f == e.f && f !in Calls(evs) then (e.now, OwnTime(evs, f)) else Entered(evs, f)
    ensures Occurs(Calls(evs + [e]), f) == Occurs(Calls(evs), f) + if f == e.f then 1 else 0
  {
    assert Init(evs + [e]) == evs;
    Push(Calls(evs), e.f);
  }

  lemma FirstCallKeeps(s: State, evs: seq<Event>, e: Event, n: nat, f: nat)
    requires IsFirstCall(s, evs, e, n) && f < n
    ensures Consistent(Step(s, e), evs + [e], f)
  {
    hide Reached, Step, Statistics, Calls, OwnTime, Entered, Occurs, Clock, FirstActs, Linked, Restarted;
    ConsistentAt(s, evs, n, f);
    ConsistentAt(s, evs, n, e.f);
    FirstCallRecords(s, evs, e, n, f);
    FirstCallFields(s, e, f);
    PendingAfterFirstCall(s, evs, e, n, f);
    CallAccounting(evs, e, f);
    TopIsOnStack(Calls(evs));
    OccursIn(Calls(evs), f);
    if f != e.f { assert f in Calls(evs + [e]) <==> f in Calls(evs); }
  }

  lemma ConsistentAt(s: State, evs: seq<Event>, n: nat, f: nat)
    requires Reached(s, evs, n) && f < n
    ensures |s.pd| == n && Consistent(s, evs, f)
  {
  }

  /** The fields that only returns and recursive calls write. */
  ghost predicate SameRecords(p: PData, q: PData) {
    && p.callCount == q.callCount && p.maxRecurseDepth == q.maxRecurseDepth
    && p.totalExecutionTime == q.totalExecutionTime && p.totalOwnExecutionTime == q.totalOwnExecutionTime
    && p.maxExecutionTime == q.maxExecutionTime && p.maxOwnExecutionTime == q.maxOwnExecutionTime
    && p.minExecutionTime == q.minExecutionTime && p.minOwnExecutionTime == q.minOwnExecutionTime
  }

  lemma FirstCallFields(s: State, e: Event, f: nat)
    requires e.before && e.f < |s.pd| && s.pd[e.f].lastCallStart == 0 && f < |s.pd|
    ensures var p, q := s.pd[f], Step(s, e).pd[f];
            && SameRecords(p, q) && q.recurseDepth == p.recurseDepth
            && q.lastCallStart == (if f == e.f then e.now else p.lastCallStart)
            && (f != e.f ==> q.caller == p.caller)
  {
  }

  lemma SameStatistics(p: PData, q: PData, evs: seq<Event>, e: Event, f: nat)
    requires Statistics(p, evs, f) && SameRecords(p, q) && e.before
    requires Occurs(Calls(evs + [e]), f) <= MaxDepth(evs, f) + 1
    ensures Statistics(q, evs + [e], f)
  {
    assert Init(evs + [e]) == evs;
    Unrecorded(evs, e, f);
    hide Spans, OwnSpans, Calls, Occurs, Min, Max, Sum;
  }

  lemma FirstCallRecords(s: State, evs: seq<Event>, e: Event, n: nat, f: nat)
    requires IsFirstCall(s, evs, e, n) && f < n
    ensures Statistics(Step(s, e).pd[f], evs + [e], f)
  {
    ConsistentAt(s, evs, n, f);
    ConsistentAt(s, evs, n, e.f);
    FirstCallFields(s, e, f);
    hide Reached, Step, Accounts, Statistics, SameRecords;
    assert Init(evs + [e]) == evs;
    Push(Calls(evs), e.f);
    OccursIn(Calls(evs), e.f);
    DepthBound(evs, f);
    SameStatistics(s.pd[f], Step(s, e).pd[f], evs, e, f);
  }

  // A recursive call.

  ghost predicate IsRecursiveCall(s: State, evs: seq<Event>, e: Event, n: nat) {
    Reached(s, evs, n) && e.before && e.f < n && e.f in Calls(evs) && 0 < e.now && Clock(evs) <= e.now
  }

  lemma RecursiveCallLinks(s: State, evs: seq<Event>, e: Event, n: nat)
    requires IsRecursiveCall(s, evs, e, n)
    ensures Linked(Step(s, e), Calls(evs + [e])) && Restarted(Step(s, e), Calls(evs + [e]))
  {
    var stack := Calls(evs);
    assert Init(evs + [e]) == evs;
    assert OnStack(s.pd[e.f], evs, e.f) by { assert Consistent(s, evs, e.f); }
    Push(stack, e.f);
    ChainSameCallers(s.pd, Step(s, e).pd, FirstActs(stack));
  }

  lemma {:induction false} ChainSameCallers(pd: seq<PData>, pd': seq<PData>, fa: seq<nat>)
    requires Chain(pd, fa) && |pd'| == |pd|
    requires forall g :: 0 <= g < |pd| ==> pd'[g].caller == pd[g].caller
    ensures Chain(pd', fa)
  {
    if fa != [] { ChainSameCallers(pd, pd', Init(fa)); }
  }

  lemma RecursiveCallRecords(s: State, evs: seq<Event>, e: Event, n: nat, f: nat)
    requires IsRecursiveCall(s, evs, e, n) && f < n
    ensures Statistics(Step(s, e).pd[f], evs + [e], f)
  {
    assert Init(evs + [e]) == evs;
    assert Consistent(s, evs, e.f) && Consistent(s, evs, f);
    hide Linked, Restarted, Chain, OwnTime, Entered, Sum, Max, Min;
    Push(Calls(evs), e.f);
    OccursIn(Calls(evs), f);
    Unrecorded(evs, e, f);
    DepthBound(evs, f);
  }

  lemma RecursiveCallFields(s: State, e: Event, f: nat)
    requires e.before && e.f < |s.pd| && s.pd[e.f].lastCallStart != 0 && f < |s.pd|
    ensures var p, q := s.pd[f], Step(s, e).pd[f];
            && q.lastCallStart == p.lastCallStart && q.caller == p.caller
            && q.recurseDepth == p.recurseDepth + (if f == e.f then 1 else 0)
            && q.totalExecutionTime == p.totalExecutionTime && q.totalOwnExecutionTime == p.totalOwnExecutionTime
  {
  }

  /** The stack of first activations stays, so time goes on for the same function. */
  lemma PendingAfterRecursiveCall(s: State, evs: seq<Event>, e: Event, n: nat, f: nat)
    requires IsRecursiveCall(s, evs, e, n) && f < n
    ensures Pending(Step(s, e), Calls(evs + [e]), f, e.now)
         == Pending(s, Calls(evs), f, Clock(evs)) + if Top(Calls(evs)) == Some(f) then e.now - Clock(evs) else 0
  {
    hide Accounts, Statistics, Chain;
    assert Init(evs + [e]) == evs;
    assert OnStack(s.pd[e.f], evs, e.f) by { assert Consistent(s, evs, e.f); }
    Push(Calls(evs), e.f);
    TopIsOnStack(Calls(evs));
  }

  lemma RecursiveCallKeeps(s: State, evs: seq<Event>, e: Event, n: nat, f: nat)
    requires IsRecursiveCall(s, evs, e, n) && f < n
    ensures Consistent(Step(s, e), evs + [e], f)
  {
    ConsistentAt(s, evs, n, f);
    ConsistentAt(s, evs, n, e.f);
    RecursiveCallRecords(s, evs, e, n, f);
    RecursiveCallFields(s, e, f);
    PendingAfterRecursiveCall(s, evs, e, n, f);
    CallAccounting(evs, e, f);
    hide Reached, Step, Statistics, Calls, OwnTime, Entered, Occurs, Clock, FirstActs, Pending, Linked, Restarted;
    if f != e.f { assert f in Calls(evs + [e]) <==> f in Calls(evs); }
  }

  // A return of a recursive call.

  ghost predicate IsReturn(s: State, evs: seq<Event>, e: Event, n: nat) {
    && Reached(s, evs, n) && !e.before && e.f < n && 0 < e.now && Clock(evs) <= e.now
    && Calls(evs) != [] && Last(Calls(evs)) == e.f
  }

  ghost predicate IsRecursiveReturn(s: State, evs: seq<Event>, e: Event, n: nat) {
    IsReturn(s, evs, e, n) && e.f in Init(Calls(evs))
  }

  lemma RecursiveReturnLinks(s: State, evs: seq<Event>, e: Event, n: nat)
    requires IsRecursiveReturn(s, evs, e, n)
    ensures Linked(Step(s, e), Calls(evs + [e])) && Restarted(Step(s, e), Calls(evs + [e]))
  {
    var stack := Calls(evs);
    assert Init(evs + [e]) == evs;
    assert OnStack(s.pd[e.f], evs, e.f) by { assert Consistent(s, evs, e.f); }
    OccursIn(Init(stack), e.f);
    ChainSameCallers(s.pd, Step(s, e).pd, FirstActs(stack));
  }

  lemma RecursiveReturnRecords(s: State, evs: seq<Event>, e: Event, n: nat, f: nat)
    requires IsRecursiveReturn(s, evs, e, n) && f < n
    ensures Statistics(Step(s, e).pd[f], evs + [e], f)
  {
    var stack := Calls(evs);
    assert Init(evs + [e]) == evs;
    assert stack == Init(stack) + [e.f];
    assert Consistent(s, evs, e.f) && Consistent(s, evs, f);
    hide Linked, Restarted, Chain, OwnTime, Entered, Sum, Max, Min;
    OccursIn(Init(stack), e.f);
    OccursIn(stack, f);
    Unrecorded(evs, e, f);
    DepthBound(evs, f);
  }

  lemma RecursiveReturnKeeps(s: State, evs: seq<Event>, e: Event, n: nat, f: nat)
    requires IsRecursiveReturn(s, evs, e, n) && f < n
    ensures Consistent(Step(s, e), evs + [e], f)
  {
    RecursiveReturnRecords(s, evs, e, n, f);
    hide Statistics, Linked, Restarted;
    var stack := Calls(evs);
    assert Init(evs + [e]) == evs;
    assert stack == Init(stack) + [e.f];
    TopIsOnStack(stack);
    assert Consistent(s, evs, e.f) && Consistent(s, evs, f);
    OccursIn(Init(stack), e.f);
    OccursIn(stack, f);
  }

  // A return that ends the first activation.

  ghost predicate IsLastReturn(s: State, evs: seq<Event>, e: Event, n: nat) {
    IsReturn(s, evs, e, n) && e.f !in Init(Calls(evs))
  }

  /** The function returning is the current one, and its caller link names the one below it. */
  lemma LastReturnIsTop(s: State, evs: seq<Event>, e: Event, n: nat)
    requires IsLastReturn(s, evs, e, n)
    ensures FirstActs(Calls(evs)) == FirstActs(Init(Calls(evs))) + [e.f]
    ensures Top(Calls(evs)) == Some(e.f) && e.f !in FirstActs(Init(Calls(evs)))
    ensures s.pd[e.f].caller == Top(Init(Calls(evs)))
    ensures s.pd[e.f].recurseDepth == 0 && s.pd[e.f].lastCallStart > 0
    ensures Occurs(Calls(evs), e.f) == 1
  {
    var stack := Calls(evs);
    assert stack == Init(stack) + [e.f];
    assert Init(FirstActs(Init(stack)) + [e.f]) == FirstActs(Init(stack));
    FirstActsElements(Init(stack));
    OccursIn(Init(stack), e.f);
    assert OnStack(s.pd[e.f], evs, e.f) by { assert Consistent(s, evs, e.f); }
  }

  lemma LastReturnLinks(s: State, evs: seq<Event>, e: Event, n: nat)
    requires IsLastReturn(s, evs, e, n)
    ensures Linked(Step(s, e), Calls(evs + [e])) && Restarted(Step(s, e), Calls(evs + [e]))
  {
    assert Init(evs + [e]) == evs;
    LastReturnIsTop(s, evs, e, n);
    var fa := FirstActs(Init(Calls(evs)));
    assert Init(fa + [e.f]) == fa;
    ChainFrame(s.pd, Step(s, e).pd, fa, e.f);
  }

  lemma LastReturnKeepsOthers(s: State, evs: seq<Event>, e: Event, n: nat, f: nat)
    requires IsLastReturn(s, evs, e, n) && f < n && f != e.f
    ensures Consistent(Step(s, e), evs + [e], f)
  {
    var stack := Calls(evs);
    assert Init(evs + [e]) == evs;
    assert stack == Init(stack) + [e.f];
    LastReturnIsTop(s, evs, e, n);
    assert Consistent(s, evs, f);
    Unrecorded(evs, e, f);
    OccursIn(stack, f);
    DepthBound(evs, f);
  }

  lemma LastReturnKeepsSelf(s: State, evs: seq<Event>, e: Event, n: nat)
    requires IsLastReturn(s, evs, e, n)
    ensures Consistent(Step(s, e), evs + [e], e.f)
  {
    LastReturnRecords(s, evs, e, n);
    hide Statistics;
    var f, stack, evs' := e.f, Calls(evs), evs + [e];
    assert Init(evs') == evs;
    assert stack == Init(stack) + [f];
    LastReturnIsTop(s, evs, e, n);
    OccursIn(Init(stack), f);
    assert Consistent(s, evs, f);
    assert OwnDelta(s, f, e.now).1 == Pending(s, stack, f, e.now);
  }

  /** The own time this return records is the own time since the function was entered. */
  lemma LastReturnDelta(s: State, evs: seq<Event>, e: Event, n: nat)
    requires IsLastReturn(s, evs, e, n)
    ensures OwnDelta(s, e.f, e.now).1 == OwnTime(evs + [e], e.f) - Entered(evs, e.f).1
    ensures s.pd[e.f].lastCallStart == Entered(evs, e.f).0 <= e.now && 0 <= OwnDelta(s, e.f, e.now).1
  {
    hide Statistics, Chain;
    var f, stack := e.f, Calls(evs);
    assert Init(evs + [e]) == evs;
    assert stack == Init(stack) + [f];
    LastReturnIsTop(s, evs, e, n);
    assert Consistent(s, evs, f);
    assert OwnDelta(s, f, e.now).1 == Pending(s, stack, f, e.now);
  }

  /** What a completed span adds to the recorded statistics. */
  ghost predicate RecordsSpan(p: PData, q: PData, span: int, own: int) {
    && q.callCount == p.callCount + 1 && q.maxRecurseDepth == p.maxRecurseDepth
    && q.totalExecutionTime == p.totalExecutionTime + span
    && q.maxExecutionTime == RaiseMax(span, p.maxExecutionTime)
    && q.minExecutionTime == LowerMin(p.callCount, span, p.minExecutionTime)
    && q.maxOwnExecutionTime == RaiseMax(own, p.maxOwnExecutionTime)
    && q.minOwnExecutionTime == LowerMin(p.callCount, own, p.minOwnExecutionTime)
  }

  lemma LastReturnFields(s: State, e: Event)
    requires !e.before && e.f < |s.pd| && s.pd[e.f].recurseDepth == 0 && s.pd[e.f].lastCallStart > 0
    ensures RecordsSpan(s.pd[e.f], Step(s, e).pd[e.f], e.now - s.pd[e.f].lastCallStart, OwnDelta(s, e.f, e.now).1)
  {
  }

  lemma SpanStatistics(p: PData, q: PData, evs: seq<Event>, e: Event, span: int, own: int)
    requires Statistics(p, evs, e.f) && RecordsSpan(p, q, span, own) && Completes(evs + [e], e.f)
    requires span == e.now - Entered(evs, e.f).0 && own == OwnTime(evs + [e], e.f) - Entered(evs, e.f).1
    requires 0 <= span && 0 <= own && Occurs(Calls(evs + [e]), e.f) <= MaxDepth(evs, e.f) + 1
    ensures Statistics(q, evs + [e], e.f)
  {
    hide Calls, Occurs, Sum, Max, Min, OwnTime;
    assert Init(evs + [e]) == evs;
    Recorded(Spans(evs, e.f), span);
    Recorded(OwnSpans(evs, e.f), own);
  }

  lemma LastReturnCompletes(s: State, evs: seq<Event>, e: Event, n: nat)
    requires IsLastReturn(s, evs, e, n)
    ensures Completes(evs + [e], e.f) && Occurs(Calls(evs + [e]), e.f) == 0
    ensures !e.before && e.f < n && s.pd[e.f].recurseDepth == 0 && s.pd[e.f].lastCallStart > 0
  {
    assert Init(evs + [e]) == evs;
    LastReturnIsTop(s, evs, e, n);
    OccursIn(Init(Calls(evs)), e.f);
  }

  lemma LastReturnRecords(s: State, evs: seq<Event>, e: Event, n: nat)
    requires IsLastReturn(s, evs, e, n)
    ensures Statistics(Step(s, e).pd[e.f], evs + [e], e.f)
  {
    LastReturnCompletes(s, evs, e, n);
    LastReturnDelta(s, evs, e, n);
    ConsistentAt(s, evs, n, e.f);
    LastReturnFields(s, e);
    hide Reached, Step, Accounts, Statistics, RecordsSpan, OwnDelta, IsReturn, Completes, OnStack;
    hide Calls, Occurs, Entered, OwnTime, MaxDepth, FirstActs, Clock, Pending;
    SpanStatistics(s.pd[e.f], Step(s, e).pd[e.f], evs, e, e.now - s.pd[e.f].lastCallStart, OwnDelta(s, e.f, e.now).1);
  }

  lemma Recorded(spans: seq<int>, d: int)
    ensures Sum(spans + [d]) == Sum(spans) + d && Max(spans + [d]) == RaiseMax(d, Max(spans))
    ensures Min(spans + [d]) == if spans == [] || d < Min(spans) then d else Min(spans)
  {
    assert Init(spans + [d]) == spans;
  }

  // ----- Theorems over whole runs -----

  lemma StepReaches(s: State, evs: seq<Event>, e: Event, n: nat)
    requires Reached(s, evs, n) && WellNested(evs + [e], n)
    ensures Reached(Step(s, e), evs + [e], n)
  {
    hide Consistent, Linked, Restarted, Step, Calls, FirstActs;
    assert Init(evs + [e]) == evs;
    if e.before && e.f !in Calls(evs) {
      FirstCallLinks(s, evs, e, n);
      forall f | 0 <= f < n ensures Consistent(Step(s, e), evs + [e], f) { FirstCallKeeps(s, evs, e, n, f); }
    } else if e.before {
      RecursiveCallLinks(s, evs, e, n);
      forall f | 0 <= f < n ensures Consistent(Step(s, e), evs + [e], f) { RecursiveCallKeeps(s, evs, e, n, f); }
    } else if e.f in Init(Calls(evs)) {
      RecursiveReturnLinks(s, evs, e, n);
      forall f | 0 <= f < n ensures Consistent(Step(s, e), evs + [e], f) { RecursiveReturnKeeps(s, evs, e, n, f); }
    } else {
      LastReturnLinks(s, evs, e, n);
      LastReturnKeepsSelf(s, evs, e, n);
      forall f | 0 <= f < n ensures Consistent(Step(s, e), evs + [e], f) {
        if f != e.f { LastReturnKeepsOthers(s, evs, e, n, f); }
      }
    }
  }

  lemma {:induction false} RunReaches(evs: seq<Event>, n: nat)
    requires WellNested(evs, n)
    ensures Reached(Run(evs, n), evs, n)
  {
    if evs != [] {
      assert evs == Init(evs) + [Last(evs)];
      RunReaches(Init(evs), n);
      StepReaches(Run(Init(evs), n), Init(evs), Last(evs), n);
    }
  }

  /**
   * The current function and the caller links are, at every moment, the stack of first activations; when the
   * stack is empty there is no current function, and a function that is not on it has no caller.
   */
  lemma CallerLinksAreTheStack(evs: seq<Event>, n: nat, i: nat)
    requires WellNested(evs, n)
    ensures var s, fa := Run(evs, n), FirstActs(Calls(evs));
            && s.calling == (if fa == [] then None else Some(fa[|fa| - 1]))
            && (fa == [] <==> Calls(evs) == [])
            && (i < |fa| ==>
                  && fa[i] < n && s.pd[fa[i]].caller == (if i == 0 then None else Some(fa[i - 1]))
                  && forall j :: 0 <= j < i ==> fa[j] != fa[i])
            && forall f :: 0 <= f < n && f !in Calls(evs) ==> s.pd[f].caller == None
  {
    RunReaches(evs, n);
    var s, fa := Run(evs, n), FirstActs(Calls(evs));
    FirstActsElements(Calls(evs));
    if i < |fa| { ChainAt(s.pd, fa, i); }
    forall f | 0 <= f < n && f !in Calls(evs) ensures s.pd[f].caller == None {
      assert Consistent(s, evs, f);
    }
  }

  lemma {:induction false} ChainAt(pd: seq<PData>, fa: seq<nat>, i: nat)
    requires Chain(pd, fa) && i < |fa|
    ensures fa[i] < |pd| && pd[fa[i]].caller == if i == 0 then None else Some(fa[i - 1])
  {
    if i < |fa| - 1 { ChainAt(pd, Init(fa), i); }
  }

  /** The clocks that are stopped and restarted across callers add up to the time at the top of the stack. */
  lemma OwnTimeIsExact(evs: seq<Event>, n: nat, f: nat)
    requires WellNested(evs, n) && f < n && f !in Calls(evs)
    ensures Run(evs, n).pd[f].totalOwnExecutionTime == OwnTime(evs, f)
    ensures Run(evs, n).pd[f].maxOwnExecutionTime == Max(OwnSpans(evs, f))
  {
    RunReaches(evs, n);
    assert Consistent(Run(evs, n), evs, f);
  }

  /** Totals, maxima, counts and depths are those of the completed first activations, at every moment. */
  lemma TotalsAreExact(evs: seq<Event>, n: nat, f: nat)
    requires WellNested(evs, n) && f < n
    ensures var p := Run(evs, n).pd[f];
            && p.totalExecutionTime == Sum(Spans(evs, f)) && p.maxExecutionTime == Max(Spans(evs, f))
            && p.totalOwnExecutionTime <= p.totalExecutionTime
            && p.callCount == Returns(evs, f) && p.maxRecurseDepth == MaxDepth(evs, f)
            && p.recurseDepth == if f in Calls(evs) then Occurs(Calls(evs), f) - 1 else 0
  {
    RunReaches(evs, n);
    assert Consistent(Run(evs, n), evs, f);
  }

  /** The minimum really is the shortest span, except that recursion inside the first activation pins it to 0. */
  lemma MinimumIsExact(evs: seq<Event>, n: nat, f: nat)
    requires WellNested(evs, n) && f < n
    ensures Run(evs, n).pd[f].minExecutionTime == Min(Spans(evs, f)) <==>
              !RecursedFirst(evs, f) || Min(Spans(evs, f)) == 0
    ensures Run(evs, n).pd[f].minOwnExecutionTime == Min(OwnSpans(evs, f)) <==>
              !RecursedFirst(evs, f) || Min(OwnSpans(evs, f)) == 0
    ensures RecursedFirst(evs, f) ==>
              Run(evs, n).pd[f].minExecutionTime == 0 && Run(evs, n).pd[f].minOwnExecutionTime == 0
  {
    RunReaches(evs, n);
    assert Consistent(Run(evs, n), evs, f);
  }

  /** f calls itself at 1, returns at 2 and at 3: the only span is 2, yet the minimum stays 0. */
  lemma MinimumStaysZero()
    ensures var evs := [Event(0, true, 1), Event(0, true, 1), Event(0, false, 2), Event(0, false, 3)];
            WellNested(evs, 1) && Spans(evs, 0) == [2] && Run(evs, 1).pd[0].minExecutionTime == 0
  {
    var e1, e2, e3, e4 := Event(0, true, 1), Event(0, true, 1), Event(0, false, 2), Event(0, false, 3);
    var r0, r1, r2, r3, r4: seq<Event> := [], [e1], [e1, e2], [e1, e2, e3], [e1, e2, e3, e4];
    assert Init(r1) == r0 && Init(r2) == r1 && Init(r3) == r2 && Init(r4) == r3;
    assert WellNested(r0, 1) && WellNested(r1, 1) && Calls(r1) == [0];
    assert WellNested(r2, 1) && Calls(r2) == [0, 0];
    assert WellNested(r3, 1) && Calls(r3) == [0];
    assert WellNested(r4, 1);
    assert Init([0, 0]) == [0] && Init([0]) == [];
    assert Occurs([0], 0) == 1 && Occurs([0, 0], 0) == 2;
    assert Spans(r0, 0) == [] && Spans(r1, 0) == [] && Spans(r2, 0) == [] && Spans(r3, 0) == [];
    assert Entered(r1, 0).0 == 1 && Entered(r2, 0).0 == 1 && Entered(r3, 0).0 == 1;
    assert Spans(r4, 0) == [] + [2];
    assert RecursedFirst(r3, 0) && RecursedFirst(r4, 0);
    MinimumIsExact(r4, 1, 0);
  }

  // ----- Whose own time it is -----

  /** The function running: the innermost call. */
  ghost function Innermost(stack: seq<nat>): Option<nat> {
    LastOf(stack)
  }

  /** Time during which f was the function running. */
  ghost function InnermostTime(evs: seq<Event>, f: nat): int {
    if evs == [] then 0
    else
      InnermostTime(Init(evs), f) +
      if Innermost(Calls(Init(evs))) == Some(f) then Clock(evs) - Clock(Init(evs)) else 0
  }

  /** Whenever time passed, the function running was the innermost first activation. */
  ghost predicate InnermostIsTop(evs: seq<Event>) {
    evs == [] || (InnermostIsTop(Init(evs)) &&
                  (Clock(evs) == Clock(Init(evs)) || Innermost(Calls(Init(evs))) == Top(Calls(Init(evs)))))
  }

  ghost predicate SameOwnTimes(evs: seq<Event>) {
    forall f: nat :: OwnTime(evs, f) == InnermostTime(evs, f)
  }

  /**
   * The profiler charges a recursive call to the function whose first activation is innermost. At every moment
   * of a run that is the function running, for all functions, exactly when the two are the same whenever time
   * passes.
   */
  lemma {:induction false} OwnTimeIsInnermostExactly(evs: seq<Event>)
    ensures InnermostIsTop(evs) <==> forall k: nat :: k <= |evs| ==> SameOwnTimes(evs[..k])
  {
    if evs == [] {
      assert forall k: nat :: k <= |evs| ==> evs[..k] == [];
    } else {
      var before, all := Init(evs), |evs|;
      OwnTimeIsInnermostExactly(before);
      assert forall k: nat :: k < all ==> before[..k] == evs[..k];
      assert evs[..all] == evs && before[..all - 1] == before;
      if SameOwnTimes(before) { LastIntervalDecides(evs); }
    }
  }

  lemma LastIntervalDecides(evs: seq<Event>)
    requires evs != [] && SameOwnTimes(Init(evs))
    ensures SameOwnTimes(evs) <==>
              Clock(evs) == Clock(Init(evs)) || Innermost(Calls(Init(evs))) == Top(Calls(Init(evs)))
  {
    var before := Init(evs);
    var stack, d := Calls(before), Clock(evs) - Clock(before);
    TopIsOnStack(stack);
    forall f: nat
      ensures OwnTime(evs, f) == OwnTime(before, f) + if Top(stack) == Some(f) then d else 0
      ensures InnermostTime(evs, f) == InnermostTime(before, f) + if Innermost(stack) == Some(f) then d else 0
    {
    }
    if d != 0 && Innermost(stack) != Top(stack) {
      var f := Last(stack);
      assert OwnTime(before, f) == InnermostTime(before, f);
      assert OwnTime(evs, f) != InnermostTime(evs, f);
    } else {
      forall f: nat
        ensures OwnTime(evs, f) == InnermostTime(evs, f)
      {
        assert OwnTime(before, f) == InnermostTime(before, f);
      }
    }
  }

  /** A function on the stack is only called by itself. */
  ghost predicate DirectRecursionOnly(evs: seq<Event>) {
    evs == [] || (DirectRecursionOnly(Init(evs)) &&
                  (Last(evs).before && Last(evs).f in Calls(Init(evs)) ==> Last(evs).f == Last(Calls(Init(evs)))))
  }

  /** Every call on the stack is of a function new to it, or of the one that makes it. */
  ghost predicate Grouped(stack: seq<nat>) {
    stack == [] || (Grouped(Init(stack)) && (Last(stack) in Init(stack) ==> Last(stack) == Last(Init(stack))))
  }

  lemma {:induction false} GroupedTop(stack: seq<nat>)
    requires Grouped(stack)
    ensures Top(stack) == Innermost(stack)
  {
    if stack != [] && Last(stack) in Init(stack) { GroupedTop(Init(stack)); }
  }

  lemma {:induction false} DirectRecursionGroups(evs: seq<Event>)
    requires DirectRecursionOnly(evs)
    ensures Grouped(Calls(evs)) && InnermostIsTop(evs)
  {
    if evs != [] {
      DirectRecursionGroups(Init(evs));
      var stack := Calls(Init(evs));
      GroupedTop(stack);
      if Last(evs).before { assert Init(stack + [Last(evs).f]) == stack; }
    }
  }

  /** So with direct recursion only, own time is the time a function was running. */
  lemma OwnTimeIsTimeRunning(evs: seq<Event>, n: nat, f: nat)
    requires WellNested(evs, n) && f < n && f !in Calls(evs) && DirectRecursionOnly(evs)
    ensures Run(evs, n).pd[f].totalOwnExecutionTime == InnermostTime(evs, f)
  {
    OwnTimeIsExact(evs, n, f);
    DirectRecursionGroups(evs);
    OwnTimeIsInnermostExactly(evs);
    assert evs[..|evs|] == evs;
    assert SameOwnTimes(evs);
  }

  /** A function that is called back by another: its time goes to the caller in between. */
  lemma CalledBackThroughAnother()
    ensures var evs := [Event(0, true, 1), Event(1, true, 2), Event(0, true, 3), Event(0, false, 5)];
            && WellNested(evs, 2) && !DirectRecursionOnly(evs)
            && OwnTime(evs, 1) == 3 && InnermostTime(evs, 1) == 1
  {
    var e1, e2, e3, e4 := Event(0, true, 1), Event(1, true, 2), Event(0, true, 3), Event(0, false, 5);
    assert Init([e1]) == [] && Init([e1, e2]) == [e1] && Init([e1, e2, e3]) == [e1, e2];
    assert Init([e1, e2, e3, e4]) == [e1, e2, e3];
    assert Calls([e1]) == [0] && Calls([e1, e2]) == [0, 1] && Calls([e1, e2, e3]) == [0, 1, 0];
    assert Init([0]) == [] && Init([0, 1]) == [0] && Init([0, 1, 0]) == [0, 1];
    assert FirstActs([0]) == [0] && FirstActs([0, 1]) == [0, 1] && FirstActs([0, 1, 0]) == [0, 1];
  }

  // ----- Conservation -----

  /** Sum of the own times of the functions below n. */
  ghost function AllOwnTime(evs: seq<Event>, n: nat): int {
    if n == 0 then 0 else AllOwnTime(evs, n - 1) + OwnTime(evs, n - 1)
  }

  ghost function AllRecordedOwnTime(pd: seq<PData>): int {
    if pd == [] then 0 else AllRecordedOwnTime(pd[..|pd| - 1]) + pd[|pd| - 1].totalOwnExecutionTime
  }

  /** When the call at the bottom of the stack was made. */
  ghost function OutermostStart(evs: seq<Event>): int {
    if evs == [] then 0
    else if Last(evs).before && Calls(Init(evs)) == [] then Clock(evs)
    else OutermostStart(Init(evs))
  }

  /** The summed spans of the outermost calls that have returned. */
  ghost function OutermostSpans(evs: seq<Event>): int {
    if evs == [] then 0
    else if !Last(evs).before && Calls(Init(evs)) != [] && Calls(evs) == [] then
      OutermostSpans(Init(evs)) + (Clock(evs) - OutermostStart(Init(evs)))
    else OutermostSpans(Init(evs))
  }

  lemma {:induction false} OneTopPerInterval(evs: seq<Event>, n: nat)
    requires evs != []
    ensures AllOwnTime(evs, n) == AllOwnTime(Init(evs), n) +
              match Top(Calls(Init(evs)))
              case None => 0
              case Some(f) => if f < n then Clock(evs) - Clock(Init(evs)) else 0
    decreases n
  {
    if n > 0 { OneTopPerInterval(evs, n - 1); }
  }

  lemma {:induction false} CallsBelow(evs: seq<Event>, n: nat)
    requires WellNested(evs, n)
    ensures forall i :: 0 <= i < |Calls(evs)| ==> Calls(evs)[i] < n
  {
    if evs != [] { CallsBelow(Init(evs), n); }
  }

  lemma {:induction false} OwnTimesFillTheSpans(evs: seq<Event>, n: nat)
    requires WellNested(evs, n)
    ensures AllOwnTime(evs, n) == OutermostSpans(evs) + if Calls(evs) == [] then 0 else Clock(evs) - OutermostStart(evs)
  {
    if evs == [] {
      NoOwnTime(n);
    } else {
      OwnTimesFillTheSpans(Init(evs), n);
      OneTopPerInterval(evs, n);
      TopIsOnStack(Calls(Init(evs)));
      CallsBelow(Init(evs), n);
    }
  }

  lemma {:induction false} NoOwnTime(n: nat)
    ensures AllOwnTime([], n) == 0
  {
    if n > 0 { NoOwnTime(n - 1); }
  }

  lemma {:induction false} RecordedIsOwnTime(evs: seq<Event>, pd: seq<PData>)
    requires forall f :: 0 <= f < |pd| ==> pd[f].totalOwnExecutionTime == OwnTime(evs, f)
    ensures AllRecordedOwnTime(pd) == AllOwnTime(evs, |pd|)
  {
    if pd != [] { RecordedIsOwnTime(evs, pd[..|pd| - 1]); }
  }

  /** Whenever no profiled function is active, the own times of all functions sum to the outermost call spans. */
  lemma OwnTimeIsConserved(evs: seq<Event>, n: nat)
    requires WellNested(evs, n) && Calls(evs) == []
    ensures AllRecordedOwnTime(Run(evs, n).pd) == OutermostSpans(evs)
  {
    forall f | 0 <= f < n ensures Run(evs, n).pd[f].totalOwnExecutionTime == OwnTime(evs, f) {
      OwnTimeIsExact(evs, n, f);
    }
    RecordedIsOwnTime(evs, Run(evs, n).pd);
    OwnTimesFillTheSpans(evs, n);
  }
}
