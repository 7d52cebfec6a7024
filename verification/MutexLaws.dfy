/**
 Mutual exclusion over every run: who has been told that it holds a mutex, compared with the owner
 that the mutex table records.
 */
module MutexLaws {
  import opened Wrappers
  import opened ThreadState
  import opened SchedulerPass
  import opened SchedulerSteps

  /** `(thread, mutex)`: the thread's lock call or wait has returned and it has not unlocked since. */
  type Holding = (nat, nat)

  /** The first lock of a free mutex, or the mutex a scheduled thread was waiting for. */
  ghost function Granted(s: System, e: Event): set<Holding> {
    match e
    case Do(MutexAction(Lock(m))) => if m in s.mutexes && s.mutexes[m].locked.None? then {(s.current, m)} else {}
    case Schedule(clocks) =>
      if s.Valid() && |clocks| == |s.threads| then
        var r := ScanFrom(s, clocks, 0, None);
        if r.Scheduled? && r.t < |s.threads| && AwaitedMutex(s, r.t).Some? then {(r.t, AwaitedMutex(s, r.t).value)}
            else {}
      else {}
    case _ => {}
  }

  /** The mutex an action unlocks first, if any. */
  function UnlockedBy(action: Action): Option<nat> {
    match action
    case MutexAction(Unlock(m)) => Some(m)
    case CondAction(WaitCond(_, m, _)) => Some(m)
    case _ => None
  }

  /** An unlock that is told it released the mutex. */
  ghost function GivenUp(s: System, e: Event): set<Holding> {
    match e
    case Do(action) =>
      if UnlockedBy(action).Some? then
        var m := UnlockedBy(action).value;
        var r := UnlockMutex(s, m);
        if r.Returned? && r.value == 0 then {(s.current, m)} else {}
      else {}
    case _ => {}
  }

  ghost function HoldingsAfter(s: System, e: Event, holdings: set<Holding>): set<Holding> {
    (holdings - GivenUp(s, e)) + Granted(s, e)
  }

  predicate Owns(s: System, t: nat, m: nat) {
    m in s.mutexes && s.mutexes[m].locked.Some? && s.mutexes[m].locked.value.0 == t
  }

  /** Exactly the recorded owner believes to hold `m`; so no two threads do. */
  ghost predicate Exclusive(s: System, holdings: set<Holding>, m: nat) {
    && (m in s.mutexes && s.mutexes[m].locked.Some? ==>
          s.mutexes[m].locked.value.1 >= 1 && (!s.mutexes[m].kind.Recursive? ==> s.mutexes[m].locked.value.1 == 1))
    && forall t: nat :: (t, m) in holdings <==> Owns(s, t, m)
  }

  /** A thread unlocks a normal mutex that another thread owns, which the source allows. */
  ghost predicate ForeignUnlock(s: System, e: Event, m: nat) {
    && e.Do? && UnlockedBy(e.action) == Some(m)
    && m in s.mutexes && s.mutexes[m].kind.Normal? && s.mutexes[m].locked.Some? && !Owns(s, s.current, m)
  }

  lemma LockExcludes(s: System, k: nat, holdings: set<Holding>, m: nat)
    requires s.Valid() && !LockMutex(s, k).Panicked? && Exclusive(s, holdings, m)
    ensures Exclusive(After(LockMutex(s, k)), HoldingsAfter(s, Do(MutexAction(Lock(k))), holdings), m)
  {
    var s', holdings' := After(LockMutex(s, k)), HoldingsAfter(s, Do(MutexAction(Lock(k))), holdings);
    if s.mutexes[k].locked.None? {
      assert holdings' == holdings + {(s.current, k)};
      assert s'.mutexes == s.mutexes[k := s.mutexes[k].(locked := Some((s.current, 1)))];
    } else {
      assert holdings' == holdings;
      LockKeepsOwner(s, k, m);
    }
  }

  lemma LockKeepsOwner(s: System, k: nat, m: nat)
    requires s.Valid() && k in s.mutexes && s.mutexes[k].locked.Some?
    ensures var s' := After(LockMutex(s, k));
            && (m in s'.mutexes <==> m in s.mutexes)
            && (m in s.mutexes ==>
                  && s'.mutexes[m].kind == s.mutexes[m].kind && s'.mutexes[m].locked.Some? == s.mutexes[m].locked.Some?
                  && (s.mutexes[m].locked.Some? ==>
                        && s'.mutexes[m].locked.value.0 == s.mutexes[m].locked.value.0
                        && s'.mutexes[m].locked.value.1 >= s.mutexes[m].locked.value.1
                        && (!s.mutexes[m].kind.Recursive? ==> s'.mutexes[m].locked == s.mutexes[m].locked)))
  {
  }

  lemma UnlockExcludes(s: System, k: nat, holdings: set<Holding>, m: nat)
    requires s.Valid() && !UnlockMutex(s, k).Panicked? && Exclusive(s, holdings, m)
    ensures var e := Do(MutexAction(Unlock(k)));
            Exclusive(After(UnlockMutex(s, k)), HoldingsAfter(s, e, holdings), m) <==> !ForeignUnlock(s, e, m)
  {
    var e, s' := Do(MutexAction(Unlock(k))), After(UnlockMutex(s, k));
    if ForeignUnlock(s, e, m) {
      var owner := s.mutexes[m].locked.value.0;
      assert (owner, m) in HoldingsAfter(s, e, holdings) && !Owns(s', owner, m);
    }
  }

  lemma MutexCallsExclude(s: System, call: MutexCall, holdings: set<Holding>, m: nat)
    requires s.Valid() && !DoMutexCall(s, call).Panicked? && Exclusive(s, holdings, m)
    ensures var e := Do(MutexAction(call));
            Exclusive(After(DoMutexCall(s, call)), HoldingsAfter(s, e, holdings), m) <==> !ForeignUnlock(s, e, m)
  {
    match call
    case Lock(k) => LockExcludes(s, k, holdings, m);
    case Unlock(k) => UnlockExcludes(s, k, holdings, m);
    case _ =>
      var s' := After(DoMutexCall(s, call));
      assert HoldingsAfter(s, Do(MutexAction(call)), holdings) == holdings;
      assert forall t: nat :: Owns(s', t, m) == Owns(s, t, m);
  }

  lemma ConditionWaitExcludes(s: System, c: nat, m': nat, deadline: Option<int>, holdings: set<Holding>, m: nat)
    requires s.Valid() && !CondWait(s, c, m', deadline).Panicked? && Exclusive(s, holdings, m)
    ensures var e := Do(CondAction(WaitCond(c, m', deadline)));
            Exclusive(After(CondWait(s, c, m', deadline)), HoldingsAfter(s, e, holdings), m) <==>
                !ForeignUnlock(s, e, m)
  {
    var e, s' := Do(CondAction(WaitCond(c, m', deadline))), After(CondWait(s, c, m', deadline));
    MutexCallsExclude(s, Unlock(m'), holdings, m);
    var unlock := Do(MutexAction(Unlock(m')));
    assert HoldingsAfter(s, e, holdings) == HoldingsAfter(s, unlock, holdings);
    assert s'.mutexes == UnlockMutex(s, m').s.mutexes;
    assert forall t: nat :: Owns(s', t, m) == Owns(UnlockMutex(s, m').s, t, m);
  }

  lemma OtherActionsKeepMutexes(s: System, action: Action)
    requires s.Valid() && !Act(s, action).Panicked? && !action.MutexAction? && UnlockedBy(action).None?
    ensures After(Act(s, action)).mutexes == s.mutexes
  {
    match action
    case SemAction(call) => SemCallsKeepMutexes(s, call);
    case CondAction(call) =>
    case Suspend(t) =>
    case Resume(t) =>
    case _ =>
  }

  lemma SemCallsKeepMutexes(s: System, call: SemCall)
    requires s.Valid() && !DoSemCall(s, call).Panicked?
    ensures After(DoSemCall(s, call)).mutexes == s.mutexes
  {
  }

  lemma ActionsExclude(s: System, action: Action, holdings: set<Holding>, m: nat)
    requires s.Valid() && !Act(s, action).Panicked? && Exclusive(s, holdings, m)
    ensures Exclusive(After(Act(s, action)), HoldingsAfter(s, Do(action), holdings), m) <==>
            !ForeignUnlock(s, Do(action), m)
  {
    if action.MutexAction? {
      MutexCallsExclude(s, action.call, holdings, m);
    } else if UnlockedBy(action).Some? {
      ConditionWaitExcludes(s, action.condCall.c, action.condCall.m, action.condCall.deadline, holdings, m);
    } else {
      OtherActionsKeepMutexes(s, action);
      assert HoldingsAfter(s, Do(action), holdings) == holdings;
      assert forall t: nat :: Owns(After(Act(s, action)), t, m) == Owns(s, t, m);
    }
  }

  lemma ScheduleExcludes(s: System, clocks: seq<Clock>, holdings: set<Holding>, m: nat)
    requires Step(s, Schedule(clocks)).Some? && Exclusive(s, holdings, m)
    ensures Exclusive(Step(s, Schedule(clocks)).value, HoldingsAfter(s, Schedule(clocks), holdings), m)
  {
    var s' := Step(s, Schedule(clocks)).value;
    var mid := ScheduleStep(s, clocks);
    if s'.running && AwaitedMutex(s, s'.current).Some? {
      var taken := AwaitedMutex(s, s'.current).value;
      assert HoldingsAfter(s, Schedule(clocks), holdings) == holdings + {(s'.current, taken)};
      assert TakesItsMutex(s, mid, s'.current);
      assert forall t: nat :: Owns(s', t, m) == if m == taken then t == s'.current else Owns(s, t, m);
    } else {
      assert HoldingsAfter(s, Schedule(clocks), holdings) == holdings;
      assert s'.mutexes == s.mutexes;
      assert forall t: nat :: Owns(s', t, m) == Owns(s, t, m);
    }
  }

  /** Nobody holds anything at first. */
  lemma InitiallyExclusive(host: nat, cpu: nat, m: nat)
    ensures Exclusive(InitialState(host, cpu), {}, m)
  {
    assert forall t: nat :: !Owns(InitialState(host, cpu), t, m);
  }

  /** A step keeps mutual exclusion on `m` exactly when it is not a foreign unlock of `m`. */
  lemma StepKeepsExclusion(s: System, e: Event, holdings: set<Holding>, m: nat)
    requires Step(s, e).Some? && Exclusive(s, holdings, m)
    ensures Exclusive(Step(s, e).value, HoldingsAfter(s, e, holdings), m) <==> !ForeignUnlock(s, e, m)
  {
    match e
    case Do(action) => ActionsExclude(s, action, holdings, m);
    case Schedule(clocks) => ScheduleExcludes(s, clocks, holdings, m);
  }

  /** Who holds what at the end of a run. */
  ghost function HoldingsAtEnd(states: seq<System>, events: seq<Event>, holdings: set<Holding>): set<Holding>
    requires |states| == |events| + 1
    decreases |events|
  {
    if events == [] then holdings else
      var n := |events| - 1;
      HoldingsAfter(states[n], events[n], HoldingsAtEnd(states[..n + 1], events[..n], holdings))
  }

  /**
   Mutual exclusion over every run without foreign unlocks of `m` (none is possible while `m` is an
   error-checking or recursive mutex): exactly the recorded owner holds `m`.
   */
  lemma {:induction false} MutualExclusion(states: seq<System>, events: seq<Event>, holdings: set<Holding>, m: nat)
    requires IsRun(states, events) && Exclusive(states[0], holdings, m)
    requires forall i :: 0 <= i < |events| ==> !ForeignUnlock(states[i], events[i], m)
    ensures Exclusive(states[|events|], HoldingsAtEnd(states, events, holdings), m)
    decreases |events|
  {
    if events != [] {
      var n := |events| - 1;
      RunPrefix(states, events, n);
      MutualExclusion(states[..n + 1], events[..n], holdings, m);
      assert !ForeignUnlock(states[n], events[n], m);
      StepKeepsExclusion(states[n], events[n], HoldingsAtEnd(states[..n + 1], events[..n], holdings), m);
    }
  }

  /** So two threads never hold the same mutex. */
  lemma NoTwoHolders(s: System, holdings: set<Holding>, m: nat, t: nat, u: nat)
    requires Exclusive(s, holdings, m) && (t, m) in holdings && (u, m) in holdings
    ensures t == u
  {
    assert Owns(s, t, m) && Owns(s, u, m);
  }

  /** The main thread holds a normal mutex while a second thread runs. */
  function MainHolds(host: nat, cpu: nat, guest: nat, host1: nat, m: nat): System {
    System(1, true, Some(host1), guest,
           [Thread(true, NotBlocked, None, Plain, Some(cpu), Some(host)),
            Thread(true, NotBlocked, None, Plain, None, None)],
           map[m := Mutex(Normal, 0, Some((0, 1)))], map[], map[], map[])
  }

  lemma MainHoldsIsReachable(host: nat, cpu: nat, guest: nat, host1: nat, m: nat, clocks: seq<Clock>)
    returns (states: seq<System>, events: seq<Event>)
    requires |clocks| == 2
    ensures IsRun(states, events) && states[0] == InitialState(host, cpu)
    ensures states[|events|] == MainHolds(host, cpu, guest, host1, m)
  {
    events := [Do(Create(guest, host1)), Do(MutexAction(InitMutex(m, Normal))), Do(MutexAction(Lock(m))), Do(YieldTick),
               Schedule(clocks)];
    var s1 := Step(InitialState(host, cpu), events[0]).value;
    var s2 := Step(s1, events[1]).value;
    var s3 := Step(s2, events[2]).value;
    var s4 := Step(s3, events[3]).value;
    SwitchesToSecond(s4, clocks, guest, host1);
    assert s4.mutexes == map[m := Mutex(Normal, 0, Some((0, 1)))];
    assert Step(s4, events[4]).value.threads == MainHolds(host, cpu, guest, host1, m).threads;
    states := [InitialState(host, cpu), s1, s2, s3, s4, MainHolds(host, cpu, guest, host1, m)];
    assert StepAt(states, events, 0) && StepAt(states, events, 1) && StepAt(states, events, 2);
    assert StepAt(states, events, 3) && StepAt(states, events, 4);
  }

  /** The run that breaks it: from there, thread 1 unlocks thread 0's mutex and locks it itself. */
  lemma TwoHoldersOfNormalMutex(host: nat, cpu: nat, guest: nat, host1: nat, m: nat)
    ensures var s := MainHolds(host, cpu, guest, host1, m);
            var unlock, lock := Do(MutexAction(Unlock(m))), Do(MutexAction(Lock(m)));
            && Exclusive(s, {(0, m)}, m) && Step(s, unlock).Some? && Step(Step(s, unlock).value, lock).Some?
            && HoldingsAfter(Step(s, unlock).value, lock, HoldingsAfter(s, unlock, {(0, m)})) == {(0, m), (1, m)}
  {
  }
}
