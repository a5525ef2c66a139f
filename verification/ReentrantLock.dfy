/**
 * The reentrant lock of js/jsd/jsd_lock.c (the NSPR version) as atomic steps of any number of
 * threads. Every read or write of a shared field is a step of its own, the unsynchronised read of
 * owner included; PR_Lock and PR_Unlock are steps on a non-reentrant mutex.
 */
module ReentrantLock {
  import opened Options

  /**
   * Where a thread is. In jsd_Lock: about to compare the owner; to read and to write the count of a
   * lock it owns; in PR_Lock; to assert that there is no owner, and a zero count; to write the count,
   * and the owner. In jsd_Unlock: to compare the owner; to read and to write the count; to clear the
   * owner; in PR_Unlock. Failed: an assertion of jsd_Lock did not hold. (Without assertions jsd_Unlock
   * returns at once to a caller that is not the owner.)
   */
  datatype Pc =
    | Idle
    | LockOwner | LockRead | LockWrite | Acquire | AssertOwner | AssertCount | SetCount | SetOwner
    | UnlockOwner | UnlockRead | UnlockWrite | ClearOwner | Release
    | Failed

  /** depth counts the lock calls of the thread that have returned, less the unlock calls that took effect. */
  datatype Thread = Thread(pc: Pc, tmp: int, depth: nat)

  /** JSDStaticLock: 0 is no owner, and a mutex of 0 is free. */
  datatype State = State(owner: int, count: int, mutex: int, threads: map<int, Thread>)

  datatype Action = CallLock | CallUnlock | Go

  ghost function Initially(tids: set<int>): State {
    State(0, 0, 0, map t | t in tids :: Thread(Idle, 0, 0))
  }

  function With(s: State, t: int, th: Thread): State {
    s.(threads := s.threads[t := th])
  }

  /** One atomic step of thread t; None when t cannot take it: it is blocked, or it has nothing to do. */
  function Step(s: State, t: int, a: Action): (r: Option<State>)
    requires t in s.threads
    ensures r.Some? ==> r.value.threads.Keys == s.threads.Keys
  {
    var th := s.threads[t];
    match th.pc
    case Idle =>
      if a == CallLock then Some(With(s, t, th.(pc := LockOwner)))
      else if a == CallUnlock then Some(With(s, t, th.(pc := UnlockOwner)))
      else None
    case LockOwner => Some(With(s, t, th.(pc := if s.owner == t then LockRead else Acquire)))
    case LockRead => Some(With(s, t, th.(pc := LockWrite, tmp := s.count)))
    case LockWrite =>
      var s1 := s.(count := th.tmp + 1);
      Some(With(s1, t, if s1.count > 1 then th.(pc := Idle, depth := th.depth + 1) else th.(pc := Failed)))
    case Acquire => if s.mutex != 0 then None else Some(With(s.(mutex := t), t, th.(pc := AssertOwner)))
    case AssertOwner => Some(With(s, t, th.(pc := if s.owner == 0 then AssertCount else Failed)))
    case AssertCount => Some(With(s, t, th.(pc := if s.count == 0 then SetCount else Failed)))
    case SetCount => Some(With(s.(count := 1), t, th.(pc := SetOwner)))
    case SetOwner => Some(With(s.(owner := t), t, th.(pc := Idle, depth := th.depth + 1)))
    case UnlockOwner => Some(With(s, t, th.(pc := if s.owner == t then UnlockRead else Idle)))
    case UnlockRead => Some(With(s, t, th.(pc := UnlockWrite, tmp := s.count)))
    case UnlockWrite =>
      var s1 := s.(count := th.tmp - 1);
      if s1.count == 0 then Some(With(s1, t, th.(pc := ClearOwner)))
      else Some(With(s1, t, th.(pc := Idle, depth := if th.depth > 0 then th.depth - 1 else 0)))
    case ClearOwner => Some(With(s.(owner := 0), t, th.(pc := Release)))
    case Release => Some(With(s.(mutex := 0), t, th.(pc := Idle, depth := if th.depth > 0 then th.depth - 1 else 0)))
    case Failed => None
  }

  /** A schedule: which thread moves, and what an idle one calls. */
  ghost function Run(tids: set<int>, schedule: seq<(int, Action)>): (r: Option<State>)
    ensures r.Some? ==> r.value.threads.Keys == tids
  {
    if schedule == [] then Some(Initially(tids))
    else
      var last := |schedule| - 1;
      match Run(tids, schedule[..last])
      case None => None
      case Some(s) => if schedule[last].0 in s.threads then Step(s, schedule[last].0, schedule[last].1) else None
  }

  // ----- The invariant -----

  /** The thread is between PR_Lock and PR_Unlock. */
  predicate Inside(th: Thread) {
    th.depth > 0 || th.pc == AssertOwner || th.pc == AssertCount || th.pc == SetCount || th.pc == SetOwner
  }

  /** What the lock's fields are while thread t with state th is inside. */
  predicate HolderView(s: State, t: int, th: Thread) {
    match th.pc
    case AssertOwner => th.depth == 0 && s.owner == 0 && s.count == 0
    case AssertCount => th.depth == 0 && s.owner == 0 && s.count == 0
    case SetCount => th.depth == 0 && s.owner == 0 && s.count == 0
    case SetOwner => th.depth == 0 && s.owner == 0 && s.count == 1
    case ClearOwner => th.depth == 1 && s.owner == t && s.count == 0
    case Release => th.depth == 1 && s.owner == 0 && s.count == 0
    case LockWrite => s.owner == t && s.count == th.depth && th.tmp == s.count
    case UnlockWrite => s.owner == t && s.count == th.depth && th.tmp == s.count
    case Acquire => false
    case Failed => false
    case _ => s.owner == t && s.count == th.depth
  }

  /** What a thread may be doing while it is outside. */
  predicate OutsideView(th: Thread) {
    th.pc == Idle || th.pc == LockOwner || th.pc == Acquire || th.pc == UnlockOwner
  }

  ghost predicate Inv(s: State) {
    && 0 !in s.threads
    && (s.mutex == 0 ==> s.owner == 0 && s.count == 0)
    && (s.mutex != 0 ==> s.mutex in s.threads)
    && forall t :: t in s.threads ==>
         if s.mutex == t then Inside(s.threads[t]) && HolderView(s, t, s.threads[t])
         else !Inside(s.threads[t]) && OutsideView(s.threads[t])
  }

  lemma StepKeepsInv(s: State, t: int, a: Action)
    requires Inv(s) && t in s.threads && Step(s, t, a).Some?
    ensures Inv(Step(s, t, a).value)
  {
    var s' := Step(s, t, a).value;
    assert if s.mutex == t then HolderView(s, t, s.threads[t]) else OutsideView(s.threads[t]);
    forall u | u in s'.threads
      ensures if s'.mutex == u then Inside(s'.threads[u]) && HolderView(s', u, s'.threads[u])
              else !Inside(s'.threads[u]) && OutsideView(s'.threads[u])
    {
    }
  }

  lemma {:induction false} RunKeepsInv(tids: set<int>, schedule: seq<(int, Action)>)
    requires 0 !in tids && Run(tids, schedule).Some?
    ensures Inv(Run(tids, schedule).value)
  {
    if schedule != [] {
      var last := |schedule| - 1;
      RunKeepsInv(tids, schedule[..last]);
      StepKeepsInv(Run(tids, schedule[..last]).value, schedule[last].0, schedule[last].1);
    }
  }

  // ----- Over all interleavings -----

  /** At most one thread holds the lock, and it is the one the mutex belongs to. */
  lemma MutualExclusion(tids: set<int>, schedule: seq<(int, Action)>, t: int, u: int)
    requires 0 !in tids && Run(tids, schedule).Some? && t in tids && u in tids
    ensures var s := Run(tids, schedule).value;
            s.threads[t].depth > 0 && s.threads[u].depth > 0 ==> t == u == s.mutex
  {
    RunKeepsInv(tids, schedule);
  }

  /** No assertion in jsd_Lock ever fails, although owner is read without holding the mutex; count is never negative. */
  lemma AssertionsHold(tids: set<int>, schedule: seq<(int, Action)>, t: int)
    requires 0 !in tids && Run(tids, schedule).Some? && t in tids
    ensures Run(tids, schedule).value.threads[t].pc != Failed
    ensures Run(tids, schedule).value.count >= 0
  {
    RunKeepsInv(tids, schedule);
  }

  /**
   * For a thread between calls or about to compare the owner: the unsynchronised test owner == me says
   * exactly whether it holds the lock, count is then its nesting depth, and the mutex is its own exactly
   * while the depth is not zero.
   */
  lemma DepthIsCounted(tids: set<int>, schedule: seq<(int, Action)>, t: int)
    requires 0 !in tids && Run(tids, schedule).Some? && t in tids
    requires var pc := Run(tids, schedule).value.threads[t].pc; pc == Idle || pc == LockOwner || pc == UnlockOwner
    ensures var s := Run(tids, schedule).value;
            && (s.owner == t <==> s.threads[t].depth > 0)
            && (s.mutex == t <==> s.threads[t].depth > 0)
            && (s.threads[t].depth > 0 ==> s.count == s.threads[t].depth)
  {
    RunKeepsInv(tids, schedule);
  }

  /**
   * A thread that cannot move is waiting for another thread, which is inside and either running
   * client code or able to move: a holder never waits for itself.
   */
  lemma OnlyWaitsForHolder(tids: set<int>, schedule: seq<(int, Action)>, t: int)
    requires 0 !in tids && Run(tids, schedule).Some? && t in tids
    requires var s := Run(tids, schedule).value; s.threads[t].pc != Idle && Step(s, t, Go) == None
    ensures var s := Run(tids, schedule).value;
            && s.threads[t].depth == 0 && s.mutex in tids && s.mutex != t
            && (s.threads[s.mutex].pc == Idle || Step(s, s.mutex, Go).Some?)
  {
    RunKeepsInv(tids, schedule);
  }

  // ----- The atomic lock it implements -----

  /** A reentrant lock whose calls are indivisible: who holds it, 0 for nobody, and how deep. */
  datatype Atomic = Atomic(holder: int, depth: nat)

  /** What the shared fields and the threads' positions mean. */
  ghost function Meaning(s: State): Atomic {
    if s.mutex in s.threads && s.threads[s.mutex].depth > 0 then Atomic(s.mutex, s.threads[s.mutex].depth)
    else Atomic(0, 0)
  }

  /** A lock call of t returns: nobody else holds the lock, and t holds it one deeper. */
  ghost predicate Locks(before: Atomic, after: Atomic, t: int) {
    (before.holder == 0 || before.holder == t) && after == Atomic(t, before.depth + 1)
  }

  /** An unlock call of the holder takes effect; the lock is free exactly when the depth was one. */
  ghost predicate Unlocks(before: Atomic, after: Atomic, t: int) {
    before.holder == t && before.depth > 0
    && after == if before.depth == 1 then Atomic(0, 0) else Atomic(t, before.depth - 1)
  }

  /**
   * Every step of every reachable state is one indivisible lock or unlock, or changes nothing that
   * matters: a lock call exactly when the step returns from jsd_Lock, an unlock exactly when it
   * returns from jsd_Unlock past the owner test.
   */
  lemma StepIsAtomic(tids: set<int>, schedule: seq<(int, Action)>, t: int, a: Action)
    requires 0 !in tids && Run(tids, schedule).Some? && t in tids
    requires Step(Run(tids, schedule).value, t, a).Some?
    ensures var s := Run(tids, schedule).value;
            var s' := Step(s, t, a).value;
            var pc := s.threads[t].pc;
            if pc == LockWrite || pc == SetOwner then Locks(Meaning(s), Meaning(s'), t)
            else if (pc == UnlockWrite && s'.threads[t].pc == Idle) || pc == Release
            then Unlocks(Meaning(s), Meaning(s'), t)
            else Meaning(s') == Meaning(s)
  {
    RunKeepsInv(tids, schedule);
    var s := Run(tids, schedule).value;
    StepKeepsInv(s, t, a);
    assert if s.mutex == t then HolderView(s, t, s.threads[t]) else OutsideView(s.threads[t]);
  }

  /** The mutex is given back by, and only by, an unlock call of a thread whose depth was one. */
  lemma ReleasedAtDepthZero(tids: set<int>, schedule: seq<(int, Action)>, t: int, a: Action)
    requires 0 !in tids && Run(tids, schedule).Some? && t in tids
    requires Step(Run(tids, schedule).value, t, a).Some?
    ensures var s := Run(tids, schedule).value;
            var s' := Step(s, t, a).value;
            s.mutex != 0 && s'.mutex != s.mutex <==> s.threads[t].depth == 1 && s'.threads[t].depth == 0
  {
    RunKeepsInv(tids, schedule);
    var s := Run(tids, schedule).value;
    StepKeepsInv(s, t, a);
    assert if s.mutex == t then HolderView(s, t, s.threads[t]) else OutsideView(s.threads[t]);
  }
}
