/** What a wait for a condition variable returns, over every run. */
module ConditionOutcomes {
  import opened Wrappers
  import opened ThreadState
  import opened SchedulerChoice
  import opened SchedulerPass
  import opened SchedulerSteps
  import opened ConditionLaws
  import opened WaiterLaws

  // ---------- Timing out ----------

  /** The thread has been signalled, and may have its mutex back. */
  predicate Woken(s: System, t: nat, c: nat) {
    && c in s.conds && s.conds[c].mutex.Some? && !IsLocked(s, s.conds[c].mutex.value)
    && s.conds[c].waking != [] && s.conds[c].waking[0] == t
  }

  /** The thread's deadline has come without that. */
  predicate Expired(s: System, t: nat, c: nat, now: Clock) {
    && t < |s.threads| && s.threads[t].active && s.threads[t].block.OnCondition? && s.threads[t].block.cond == c
    && s.threads[t].block.deadline.Some? && s.threads[t].block.deadline.value <= now.unix && !Woken(s, t, c)
  }

  /** The pass comes to the thread, whose deadline has come. */
  ghost predicate TimesOut(s: System, clocks: seq<Clock>, t: nat, c: nat) {
    && s.Valid() && |clocks| == |s.threads| && t < |s.threads|
    && (PlaceOf(s, t); Expired(s, t, c, clocks[Place(s, t)]))
    && var r := ScanFrom(s, clocks, 0, None);
       r.Scheduled? && r.t < |s.threads| ==> Place(s, t) <= Place(s, r.t)
  }

  ghost predicate TimesOutIn(s: System, e: Event, t: nat, c: nat) {
    e.Schedule? && TimesOut(s, e.clocks, t, c)
  }

  /** Before the `i`th candidate, exactly the expired waiters before it have been recorded. */
  ghost predicate Recorded(s: System, s1: System, clocks: seq<Clock>, i: nat, c: nat)
    requires s.Valid() && |clocks| == |s.threads| && c in s.conds && c in s1.conds
  {
    forall t: nat :: t in s1.conds[c].timedOut <==> t in s.conds[c].timedOut || ExpiredBefore(s, clocks, i, t, c)
  }

  ghost predicate ExpiredBefore(s: System, clocks: seq<Clock>, i: nat, t: nat, c: nat)
    requires s.Valid() && |clocks| == |s.threads|
  {
    t < |s.threads| && (PlaceOf(s, t); Place(s, t) < i && Expired(s, t, c, clocks[Place(s, t)]))
  }

  /** A visit records at most the visited thread, exactly if its deadline has come. */
  lemma VisitRecords(s: System, u: nat, now: Clock, c: nat)
    requires u < |s.threads| && !VisitThread(s, u, now).VisitPanicked? && c in s.conds
    ensures var s' := VisitThread(s, u, now).s;
            c in s'.conds && s'.conds[c].timedOut == s.conds[c].timedOut + (if Expired(s, u, c, now) then {u} else {})
  {
    if s.threads[u].active && s.threads[u].block.OnCondition? {
      VisitConditionRecords(s, u, s.threads[u].block.cond, s.threads[u].block.deadline, now, c);
    } else {
      ElsewhereFrame(s, u, now);
    }
  }

  lemma VisitConditionRecords(s: System, u: nat, k: nat, deadline: Option<int>, now: Clock, c: nat)
    requires u < |s.threads| && s.threads[u].active && s.threads[u].block == OnCondition(k, deadline) && c in s.conds
    requires !VisitCondition(s, u, k, deadline, now).VisitPanicked?
    ensures var s' := VisitCondition(s, u, k, deadline, now).s;
            c in s'.conds && s'.conds[c].timedOut == s.conds[c].timedOut + (if Expired(s, u, c, now) then {u} else {})
  {
  }

  /** What a waiter finds at its visit is what it would have found before the pass. */
  lemma ExpiredAtVisit(s: System, s1: System, i: nat, c: nat, now: Clock)
    requires s.Valid() && i < |s.threads| && PassedTo(s, s1, i) && ChangedLocked(s, s1, c)
    ensures Expired(s1, Candidate(s, i), c, now) == Expired(s, Candidate(s, i), c, now)
  {
    UnvisitedKept(s, s1, i);
    assert c in s.conds ==> s1.conds[c].mutex == s.conds[c].mutex;
  }

  lemma OneMoreRecorded(s: System, s1: System, clocks: seq<Clock>, i: nat, c: nat)
    requires s.Valid() && |clocks| == |s.threads| && i < |s.threads| && PassedTo(s, s1, i) && ChangedLocked(s, s1, c)
    requires c in s.conds && Recorded(s, s1, clocks, i, c)
    requires !VisitThread(s1, Candidate(s, i), clocks[i]).VisitPanicked?
    ensures var s2 := VisitThread(s1, Candidate(s, i), clocks[i]).s; c in s2.conds && Recorded(s, s2, clocks, i + 1, c)
  {
    var u := Candidate(s, i);
    VisitRecords(s1, u, clocks[i], c);
    ExpiredAtVisit(s, s1, i, c, clocks[i]);
    PlaceOfCandidate(s, i);
    forall t: nat ensures ExpiredBefore(s, clocks, i + 1, t, c) <==>
                          ExpiredBefore(s, clocks, i, t, c) || (t == u && Expired(s, u, c, clocks[i]))
    {
      if t < |s.threads| {
        PlaceOf(s, t);
      }
    }
  }

  /** The whole pass records exactly the waiters that time out. */
  lemma {:induction false} PassRecords(s: System, s1: System, clocks: seq<Clock>, i: nat, earlier: Option<int>, c: nat)
    requires s.Valid() && |clocks| == |s.threads| && i <= |s.threads| && PassedTo(s, s1, i) && ChangedLocked(s, s1, c)
    requires c in s.conds && Recorded(s, s1, clocks, i, c) && !ScanFrom(s1, clocks, i, earlier).ScanPanicked?
    ensures var r := ScanFrom(s1, clocks, i, earlier);
            && c in r.s.conds && (r.Scheduled? ==> r.t < |s.threads|)
            && Recorded(s, r.s, clocks, if r.Scheduled? then Place(s, r.t) + 1 else |s.threads|, c)
    decreases |s.threads| - i
  {
    if i < |s.threads| {
      var u := Candidate(s, i);
      assert u == Candidate(s1, i);
      OneMoreRecorded(s, s1, clocks, i, c);
      PlaceOfCandidate(s, i);
      match VisitThread(s1, u, clocks[i])
      case PassedOver(s2, awakening) =>
        PassOver(s, s1, i, clocks[i]);
        PassedOverChangesLocked(s1, u, clocks[i], c);
        PassRecords(s, s2, clocks, i + 1, Earlier(earlier, awakening), c);
      case _ =>
    }
  }

  // ---------- Steps ----------

  /** The condition variable is made anew or goes away. */
  predicate Renews(e: Event, c: nat) {
    e == Do(CondAction(InitCond(c))) || e == Do(CondAction(DestroyCond(c)))
  }

  predicate Finishes(s: System, e: Event, t: nat) {
    e == Do(CondAction(FinishWait)) && s.current == t
  }

  lemma ScheduleRecords(s: System, clocks: seq<Clock>, t: nat, c: nat)
    requires Step(s, Schedule(clocks)).Some? && c in s.conds
    ensures var s' := Step(s, Schedule(clocks)).value;
            c in s'.conds && (t in s'.conds[c].timedOut <==> t in s.conds[c].timedOut || TimesOut(s, clocks, t, c))
  {
    var mid := ScheduleStep(s, clocks);
    PassRecords(s, s, clocks, 0, None, c);
    var r := ScanFrom(s, clocks, 0, None);
    var i := if r.Scheduled? then Place(s, r.t) + 1 else |s.threads|;
    assert ExpiredBefore(s, clocks, i, t, c) == TimesOut(s, clocks, t, c) by {
      if t < |s.threads| {
        PlaceOf(s, t);
      }
    }
  }

  lemma ActRecords(s: System, action: Action, t: nat, c: nat)
    requires MayDo(s, action) && !Act(s, action).Panicked? && c in s.conds
    requires !Renews(Do(action), c) && !Finishes(s, Do(action), t)
    ensures var s' := After(Act(s, action));
            c in s'.conds && (t in s'.conds[c].timedOut <==> t in s.conds[c].timedOut)
  {
    if action.CondAction? {
      CondCallRecords(s, action.condCall, t, c);
    } else {
      OtherActsKeepConditions(s, action);
    }
  }

  lemma CondCallRecords(s: System, call: CondCall, t: nat, c: nat)
    requires MayDo(s, CondAction(call)) && !DoCondCall(s, call).Panicked? && c in s.conds
    requires !Renews(Do(CondAction(call)), c) && !Finishes(s, Do(CondAction(call)), t)
    ensures var s' := After(DoCondCall(s, call));
            c in s'.conds && (t in s'.conds[c].timedOut <==> t in s.conds[c].timedOut)
  {
    if call.WaitCond? {
      WaitShape(s, call.c, call.m, call.deadline);
    }
  }

  // ---------- Runs ----------

  /** Up to step `n`, the thread does not finish its wait and the condition variable is not renewed. */
  ghost predicate SameWait(states: seq<System>, events: seq<Event>, t: nat, c: nat, n: nat)
    requires |states| == |events| + 1 && n <= |events|
  {
    forall i :: 0 <= i < n ==> !Renews(events[i], c) && !Finishes(states[i], events[i], t)
  }

  ghost predicate TimedOutBy(states: seq<System>, events: seq<Event>, t: nat, c: nat, n: nat)
    requires |states| == |events| + 1 && n <= |events|
  {
    exists i :: 0 <= i < n && TimesOutIn(states[i], events[i], t, c)
  }

  lemma {:induction false} RecordedOverRun(states: seq<System>, events: seq<Event>, t: nat, c: nat, n: nat)
    requires IsRun(states, events) && n <= |events| && SameWait(states, events, t, c, n)
    requires c in states[0].conds && t !in states[0].conds[c].timedOut
    ensures c in states[n].conds && (t in states[n].conds[c].timedOut <==> TimedOutBy(states, events, t, c, n))
  {
    if n > 0 {
      RecordedOverRun(states, events, t, c, n - 1);
      assert StepAt(states, events, n - 1);
      match events[n - 1]
      case Do(action) => ActRecords(states[n - 1], action, t, c);
      case Schedule(clocks) => ScheduleRecords(states[n - 1], clocks, t, c);
    }
  }

  /**
   A wait on a condition variable that is neither destroyed nor initialised again meanwhile returns
   `ETIMEDOUT` exactly if its deadline came, at some scheduling pass, before it was signalled and its
   mutex was free.
   */
  lemma WaitReturns(states: seq<System>, events: seq<Event>, t: nat, c: nat, n: nat)
    requires IsRun(states, events) && n <= |events| && SameWait(states, events, t, c, n)
    requires Consistent(states[0], c) && WaitsOn(states[0], t, c)
    requires states[n].Valid() && states[n].current == t && InWaitOn(states[n], t, c)
    ensures CondFinish(states[n]).Returned?
    ensures CondFinish(states[n]).value == if TimedOutBy(states, events, t, c, n) then ETIMEDOUT else 0
  {
    assert Queued(states[0], t, c);
    RecordedOverRun(states, events, t, c, n);
  }

  // ---------- Waits without a deadline ----------

  /** The thread is inside its wait, on the condition variable with that deadline or past it. */
  predicate StillInWait(s: System, t: nat, c: nat, deadline: Option<int>) {
    && InWaitOn(s, t, c)
    && (Underlying(s.threads[t].block) == OnCondition(c, deadline) || !Underlying(s.threads[t].block).OnCondition?)
  }

  lemma CondCallKeepsWait(s: System, call: CondCall, t: nat, c: nat)
    requires MayDo(s, CondAction(call)) && !DoCondCall(s, call).Panicked? && InWaitOn(s, t, c) && t != s.current
    ensures InWaitOn(After(DoCondCall(s, call)), t, c)
  {
    if call.WaitCond? {
      WaitShape(s, call.c, call.m, call.deadline);
    }
  }

  lemma ActKeepsWait(s: System, action: Action, t: nat, c: nat, deadline: Option<int>)
    requires Sound(s) && MayDo(s, action) && !Act(s, action).Panicked? && StillInWait(s, t, c, deadline)
    requires !Finishes(s, Do(action), t)
    ensures StillInWait(After(Act(s, action)), t, c, deadline)
  {
    assert t != s.current;
    ActBlocks(s, action);
    UnderlyingUnaffected(s.threads[t].block);
    if action.CondAction? {
      CondCallKeepsWait(s, action.condCall, t, c);
    } else {
      OtherActsKeepConditions(s, action);
    }
  }

  lemma ScheduleKeepsWait(s: System, clocks: seq<Clock>, t: nat, c: nat, deadline: Option<int>)
    requires Step(s, Schedule(clocks)).Some? && StillInWait(s, t, c, deadline)
    ensures StillInWait(Step(s, Schedule(clocks)).value, t, c, deadline)
  {
    var s' := Step(s, Schedule(clocks)).value;
    var mid := ScheduleStep(s, clocks);
    assert !(s'.running && t == s'.current) ==> KeptOrTimedOut(s, mid, t);
  }

  /** `pthread_cond_wait` asserts that it has not timed out, which holds over every such run. */
  lemma {:induction false} PlainWaitNeverTimesOut(states: seq<System>, events: seq<Event>, t: nat, c: nat, n: nat)
    requires IsRun(states, events) && Sound(states[0]) && n <= |events| && SameWait(states, events, t, c, n)
    requires InWaitOn(states[0], t, c) && Underlying(states[0].threads[t].block) == OnCondition(c, None)
    ensures Sound(states[n]) && StillInWait(states[n], t, c, None) && !TimedOutBy(states, events, t, c, n)
  {
    if n > 0 {
      PlainWaitNeverTimesOut(states, events, t, c, n - 1);
      assert StepAt(states, events, n - 1);
      StepKeepsSound(states[n - 1], events[n - 1]);
      match events[n - 1]
      case Do(action) => ActKeepsWait(states[n - 1], action, t, c, None);
      case Schedule(clocks) => ScheduleKeepsWait(states[n - 1], clocks, t, c, None);
    }
  }

  // ---------- Inputs in which the condition variable goes away ----------

  /** From `MainTimedOut`: the condition variables as they then are, and the main thread running again. */
  function MainResumed(host: nat, cpu: nat, guest: nat, host1: nat, c: nat, m: nat, conds: map<nat, Condition>): System
  {
    System(0, true, Some(host), cpu,
           [Thread(true, NotBlocked, None, InConditionWait(c), None, None),
            Thread(true, NotBlocked, None, Plain, Some(guest), Some(host1))],
           map[m := Mutex(Normal, 0, Some((0, 1)))], map[], conds, map[])
  }

  lemma UnlocksAndYields(s: System, m: nat) returns (s': System)
    requires s.current == 1 && s.running && s.mutexes == map[m := Mutex(Normal, 0, Some((1, 1)))]
    requires |s.threads| == 2 && s.threads[1] == Thread(true, NotBlocked, None, Plain, None, None)
    ensures Runs(s, [Do(MutexAction(Unlock(m))), Do(YieldTick)], s')
    ensures s' == s.(running := false, mutexes := map[m := Mutex(Normal, 0, None)])
  {
    var s1 := s.(mutexes := map[m := Mutex(Normal, 0, None)]);
    assert Step(s, Do(MutexAction(Unlock(m)))).value.mutexes == s1.mutexes;
    s' := s1.(running := false);
    assert Step(s1, Do(YieldTick)).value.threads == s'.threads;
  }

  lemma MainResumes(host: nat, cpu: nat, guest: nat, host1: nat, c: nat, m: nat, conds: map<nat, Condition>,
                    clocks: seq<Clock>)
    returns (yielded: System)
    requires |clocks| == 2
    ensures Runs(MainTimedOut(host, cpu, guest, host1, c, m).(conds := conds),
                 [Do(MutexAction(Unlock(m))), Do(YieldTick)], yielded)
    ensures Step(yielded, Schedule(clocks)) == Some(MainResumed(host, cpu, guest, host1, c, m, conds))
  {
    yielded := UnlocksAndYields(MainTimedOut(host, cpu, guest, host1, c, m).(conds := conds), m);
    assert Candidate(yielded, 0) == 0;
    var v := VisitThread(yielded, 0, clocks[0]);
    assert v.Chosen? && v.s.mutexes == map[m := Mutex(Normal, 0, Some((0, 1)))];
    assert SwitchThread(v.s, 0).s.threads == MainResumed(host, cpu, guest, host1, c, m, conds).threads;
  }

  /**
   The second thread may destroy the condition variable, both its queues being empty, although the main
   thread has yet to return from its wait. When it does, the emulator panics.
   */
  lemma DestroyedBeforeReturn(host: nat, cpu: nat, guest: nat, host1: nat, c: nat, m: nat, clocks: seq<Clock>)
    returns (destroyed: System, yielded: System)
    requires |clocks| == 2
    ensures Step(MainTimedOut(host, cpu, guest, host1, c, m), Do(CondAction(DestroyCond(c)))) == Some(destroyed)
    ensures Runs(destroyed, [Do(MutexAction(Unlock(m))), Do(YieldTick)], yielded)
    ensures Step(yielded, Schedule(clocks)).Some?
    ensures MayDo(Step(yielded, Schedule(clocks)).value, CondAction(FinishWait))
    ensures Step(Step(yielded, Schedule(clocks)).value, Do(CondAction(FinishWait))).None?
  {
    destroyed := MainTimedOut(host, cpu, guest, host1, c, m).(conds := map[]);
    assert Step(MainTimedOut(host, cpu, guest, host1, c, m), Do(CondAction(DestroyCond(c)))).value.conds == map[];
    yielded := MainResumes(host, cpu, guest, host1, c, m, map[], clocks);
  }

  /** Or it may initialise it again, and the wait that timed out reports success. */
  lemma RenewedBeforeReturn(host: nat, cpu: nat, guest: nat, host1: nat, c: nat, m: nat, clocks: seq<Clock>)
    returns (renewed: System, yielded: System)
    requires |clocks| == 2
    ensures Step(MainTimedOut(host, cpu, guest, host1, c, m), Do(CondAction(InitCond(c)))) == Some(renewed)
    ensures Runs(renewed, [Do(MutexAction(Unlock(m))), Do(YieldTick)], yielded)
    ensures Step(yielded, Schedule(clocks)).Some?
    ensures var resumed := Step(yielded, Schedule(clocks)).value;
            && MayDo(resumed, CondAction(FinishWait)) && resumed.current == 0
            && CondFinish(resumed).Returned? && CondFinish(resumed).value == 0
  {
    var conds := map[c := Condition([], [], None, {})];
    renewed := MainTimedOut(host, cpu, guest, host1, c, m).(conds := conds);
    assert Step(MainTimedOut(host, cpu, guest, host1, c, m), Do(CondAction(InitCond(c)))).value.conds == conds;
    yielded := MainResumes(host, cpu, guest, host1, c, m, conds, clocks);
  }
}
