/**
 * The call profiler of js/jsd/jsd_step.c. Profiled functions are numbered; times are whole
 * microseconds. A run is a list of call and return events.
 */
module Profiler {
  import opened Options

  /** JSDProfileData, the caller given by its number. */
  datatype PData = PData(
    caller: Option<nat>, lastCallStart: int, runningTime: int,
    callCount: nat, recurseDepth: nat, maxRecurseDepth: nat,
    minExecutionTime: int, maxExecutionTime: int, totalExecutionTime: int,
    minOwnExecutionTime: int, maxOwnExecutionTime: int, totalOwnExecutionTime: int)

  /** The profiling fields of JSDContext together with all profile data. */
  datatype State = State(pd: seq<PData>, calling: Option<nat>, lastReturnTime: int)

  datatype Event = Event(f: nat, before: bool, now: int)

  const NO_DATA := PData(None, 0, 0, 0, 0, 0, 0, 0, 0, 0, 0, 0)

  function Initial(n: nat): State {
    State(seq(n, i => NO_DATA), None, 0)
  }

  /** The caller's clock is stopped: time since the last return, or else since it was called. */
  function StopCaller(s: State, now: int): State
  {
    if s.calling.None? || s.calling.value >= |s.pd| then s
    else
      var c := s.pd[s.calling.value];
      var delta := if s.lastReturnTime != 0 then now - s.lastReturnTime else now - c.lastCallStart;
      s.(pd := s.pd[s.calling.value := c.(runningTime := c.runningTime + delta)])
  }

  function OnCall(s: State, f: nat, now: int): State
    requires f < |s.pd|
  {
    if s.pd[f].lastCallStart == 0 then
      var s1 := StopCaller(s, now);
      var p := s1.pd[f];
      var p1 := if s.calling.Some? then p.(caller := s.calling) else p;
      State(s1.pd[f := p1.(runningTime := 0, lastCallStart := now)], Some(f), 0)
    else
      var d := s.pd[f].recurseDepth + 1;
      var p := s.pd[f].(recurseDepth := d);
      s.(pd := s.pd[f := if d > p.maxRecurseDepth then p.(maxRecurseDepth := d) else p])
  }

  /** The running time, and the own time that a return at now would record. */
  function OwnDelta(s: State, f: nat, now: int): (int, int)
    requires f < |s.pd|
  {
    var p := s.pd[f];
    if s.lastReturnTime != 0 then
      var running := p.runningTime + (now - s.lastReturnTime);
      (running, running)
    else
      (p.runningTime, now - p.lastCallStart)
  }

  /** A minimum that is overwritten while no return has been counted. */
  function LowerMin(callCount: nat, delta: int, min: int): int {
    if callCount == 0 || delta < min then delta else min
  }

  function RaiseMax(delta: int, max: int): int {
    if delta > max then delta else max
  }

  function OnReturn(s: State, f: nat, now: int): State
    requires f < |s.pd|
  {
    var p := s.pd[f];
    if p.recurseDepth == 0 && p.lastCallStart != 0 then
      var delta := now - p.lastCallStart;
      var (running, own) := OwnDelta(s, f, now);
      var p1 := p.(
        totalExecutionTime := p.totalExecutionTime + delta,
        minExecutionTime := LowerMin(p.callCount, delta, p.minExecutionTime),
        maxExecutionTime := RaiseMax(delta, p.maxExecutionTime),
        runningTime := running,
        totalOwnExecutionTime := p.totalOwnExecutionTime + own,
        minOwnExecutionTime := LowerMin(p.callCount, own, p.minOwnExecutionTime),
        maxOwnExecutionTime := RaiseMax(own, p.maxOwnExecutionTime),
        caller := None, lastCallStart := 0, callCount := p.callCount + 1);
      State(s.pd[f := p1], p.caller, now)
    else if p.recurseDepth > 0 then
      s.(pd := s.pd[f := p.(recurseDepth := p.recurseDepth - 1, callCount := p.callCount + 1)])
    else s
  }

  function Step(s: State, e: Event): (s': State)
    requires e.f < |s.pd|
    ensures |s'.pd| == |s.pd|
  {
    if e.before then OnCall(s, e.f, e.now) else OnReturn(s, e.f, e.now)
  }

  // ----- The imperative hook -----

  class JSDProfileData {
    const index: nat
    var caller: JSDProfileData?
    var lastCallStart: int
    var runningTime: int
    var callCount: nat
    var recurseDepth: nat
    var maxRecurseDepth: nat
    var minExecutionTime: int
    var maxExecutionTime: int
    var totalExecutionTime: int
    var minOwnExecutionTime: int
    var maxOwnExecutionTime: int
    var totalOwnExecutionTime: int

    constructor (index: nat)
      ensures this.index == index && caller == null && View() == NO_DATA
    {
      this.index := index;
      caller, lastCallStart, runningTime := null, 0, 0;
      callCount, recurseDepth, maxRecurseDepth := 0, 0, 0;
      minExecutionTime, maxExecutionTime, totalExecutionTime := 0, 0, 0;
      minOwnExecutionTime, maxOwnExecutionTime, totalOwnExecutionTime := 0, 0, 0;
    }

    /** Add a completed span to the total, minimum and maximum execution times. */
    method RecordSpan(delta: int)
      modifies this
      ensures View() == old(View()).(
                totalExecutionTime := old(totalExecutionTime) + delta,
                minExecutionTime := LowerMin(old(callCount), delta, old(minExecutionTime)),
                maxExecutionTime := RaiseMax(delta, old(maxExecutionTime)))
      ensures caller == old(caller)
    {
      totalExecutionTime := totalExecutionTime + delta;
      if callCount == 0 || delta < minExecutionTime { minExecutionTime := delta; }
      if delta > maxExecutionTime { maxExecutionTime := delta; }
    }

    /** Add own time to the total, minimum and maximum own execution times. */
    method RecordOwn(delta: int)
      modifies this
      ensures View() == old(View()).(
                totalOwnExecutionTime := old(totalOwnExecutionTime) + delta,
                minOwnExecutionTime := LowerMin(old(callCount), delta, old(minOwnExecutionTime)),
                maxOwnExecutionTime := RaiseMax(delta, old(maxOwnExecutionTime)))
      ensures caller == old(caller)
    {
      totalOwnExecutionTime := totalOwnExecutionTime + delta;
      if callCount == 0 || delta < minOwnExecutionTime { minOwnExecutionTime := delta; }
      if delta > maxOwnExecutionTime { maxOwnExecutionTime := delta; }
    }

    /** This function's clock stops at now: it has run since the last return, or else since it was called. */
    method StopClock(now: int, lastReturnTime: int)
      modifies this
      ensures View() == old(View()).(
                runningTime := old(runningTime) + now -
                  if lastReturnTime != 0 then lastReturnTime else old(lastCallStart))
      ensures caller == old(caller)
    {
      var delta := if lastReturnTime != 0 then now - lastReturnTime else now - lastCallStart;
      runningTime := runningTime + delta;
    }

    /** A first activation begins. */
    method Enter(callerpdata: JSDProfileData?, now: int)
      modifies this
      ensures View() == old(View()).(
                caller := if callerpdata == null then old(View()).caller else Some(callerpdata.index),
                runningTime := 0, lastCallStart := now)
      ensures caller == if callerpdata == null then old(caller) else callerpdata
    {
      if callerpdata != null { caller := callerpdata; }
      runningTime := 0;
      lastCallStart := now;
    }

    /** The span and the own time of the activation that ends at now. */
    method Charge(now: int, lastReturnTime: int, ghost s: State, ghost f: nat)
      requires f < |s.pd| && View() == s.pd[f] && s.lastReturnTime == lastReturnTime
      requires recurseDepth == 0 && lastCallStart != 0
      modifies this
      ensures View() == OnReturn(s, f, now).pd[f].(
                caller := s.pd[f].caller, lastCallStart := s.pd[f].lastCallStart, callCount := s.pd[f].callCount)
      ensures caller == old(caller)
    {
      hide LowerMin, RaiseMax;
      var delta := now - lastCallStart;
      RecordSpan(delta);
      if lastReturnTime != 0 {
        runningTime := runningTime + (now - lastReturnTime);
        delta := runningTime;
      }
      RecordOwn(delta);
    }

    /** It is no longer running. */
    method Leave()
      modifies this
      ensures View() == old(View()).(caller := None, lastCallStart := 0, callCount := old(callCount) + 1)
      ensures caller == null
    {
      caller := null;
      lastCallStart := 0;
      callCount := callCount + 1;
    }

    ghost function View(): PData
      reads this
    {
      PData(if caller == null then None else Some(caller.index), lastCallStart, runningTime,
            callCount, recurseDepth, maxRecurseDepth,
            minExecutionTime, maxExecutionTime, totalExecutionTime,
            minOwnExecutionTime, maxOwnExecutionTime, totalOwnExecutionTime)
    }
  }

  class JSDContext {
    const profiles: seq<JSDProfileData>
    var callingFunctionPData: JSDProfileData?
    var lastReturnTime: int

    ghost predicate Valid()
      reads this, profiles
    {
      && (forall i :: 0 <= i < |profiles| ==> profiles[i].index == i)
      && (callingFunctionPData != null ==> callingFunctionPData in profiles)
      && (forall p :: p in profiles && p.caller != null ==> p.caller in profiles)
    }

    /** The fields of this context and of every profile read as s. */
    ghost predicate Shows(s: State)
      reads this, profiles
    {
      && |s.pd| == |profiles|
      && (forall i :: 0 <= i < |profiles| ==> profiles[i].View() == s.pd[i])
      && s.calling == (if callingFunctionPData == null then None else Some(callingFunctionPData.index))
      && s.lastReturnTime == lastReturnTime
    }

    constructor (profiles: seq<JSDProfileData>)
      requires forall i :: 0 <= i < |profiles| ==> profiles[i].index == i && profiles[i].View() == NO_DATA
      requires forall p :: p in profiles ==> p.caller == null
      ensures Valid() && this.profiles == profiles && Shows(Initial(|profiles|))
    {
      this.profiles := profiles;
      callingFunctionPData := null;
      lastReturnTime := 0;
    }

    /** _callHook for a profiled script, at the clock reading now. */
    method CallHook(pdata: JSDProfileData, before: bool, now: int, ghost s: State)
      requires Valid() && pdata in profiles && Shows(s)
      modifies this, profiles
      ensures Valid() && Shows(Step(s, Event(pdata.index, before, now)))
    {
      if before {
        if pdata.lastCallStart == 0 {
          FirstCall(pdata, now, s);
        } else {
          pdata.recurseDepth := pdata.recurseDepth + 1;
          if pdata.recurseDepth > pdata.maxRecurseDepth {
            pdata.maxRecurseDepth := pdata.recurseDepth;
          }
        }
      } else if pdata.recurseDepth == 0 && pdata.lastCallStart != 0 {
        LastReturn(pdata, now, s);
      } else if pdata.recurseDepth != 0 {
        pdata.recurseDepth := pdata.recurseDepth - 1;
        pdata.callCount := pdata.callCount + 1;
      }
    }

    /** The call branch for a function that is not on the stack: its caller's clock stops. */
    method FirstCall(pdata: JSDProfileData, now: int, ghost s: State)
      requires Valid() && pdata in profiles && Shows(s) && pdata.lastCallStart == 0
      modifies this, pdata, callingFunctionPData
      ensures Valid() && Shows(OnCall(s, pdata.index, now))
    {
      ghost var f := pdata.index;
      assert profiles[f] == pdata && s.pd[f] == pdata.View() && s.pd[f].lastCallStart == 0;
      var callerpdata := callingFunctionPData;
      if callerpdata != null {
        ghost var c := s.calling.value;
        assert profiles[c] == callerpdata && s.pd[c].lastCallStart == callerpdata.lastCallStart;
        assert s.pd[c].runningTime == callerpdata.runningTime;
        hide JSDProfileData.View;
        callerpdata.StopClock(now, lastReturnTime);
      }
      hide JSDProfileData.View;
      pdata.Enter(callerpdata, now);
      callingFunctionPData := pdata;
      lastReturnTime := 0;
      ghost var s' := OnCall(s, f, now);
      forall i | 0 <= i < |profiles| ensures profiles[i].View() == s'.pd[i] {
        if i != f && profiles[i] != callerpdata { assert profiles[i].View() == s.pd[i]; }
      }
    }

    /** The return branch for the outermost activation: record the spans, hand over to the caller. */
    method LastReturn(pdata: JSDProfileData, now: int, ghost s: State)
      requires Valid() && pdata in profiles && Shows(s)
      requires pdata.recurseDepth == 0 && pdata.lastCallStart != 0
      modifies this, pdata
      ensures Valid() && Shows(OnReturn(s, pdata.index, now))
    {
      hide LowerMin, RaiseMax, OwnDelta;
      ghost var f := pdata.index;
      assert profiles[f] == pdata && s.pd[f] == pdata.View() && s.pd[f].lastCallStart != 0 && s.pd[f].recurseDepth == 0;
      ghost var s' := OnReturn(s, f, now);
      assert s'.calling == s.pd[f].caller && s'.lastReturnTime == now;
      assert s'.pd == s.pd[f := s'.pd[f]];
      assert s'.pd[f].caller == None && s'.pd[f].lastCallStart == 0 && s'.pd[f].callCount == s.pd[f].callCount + 1;
      hide OnReturn;
      pdata.Charge(now, lastReturnTime, s, f);
      callingFunctionPData := pdata.caller;
      pdata.Leave();
      lastReturnTime := now;
      assert pdata.View() == s'.pd[f];
      hide JSDProfileData.View;
      forall i | 0 <= i < |profiles| ensures profiles[i].View() == s'.pd[i] {
        if i != f { assert profiles[i].View() == s.pd[i]; }
      }
    }
  }
}
