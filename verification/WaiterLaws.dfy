/**
 The waiters that a mutex counts, against the threads that really wait for it. Destroying a mutex relies
 on the count (`src/environment/mutex.rs:85-98`).
 */
module WaiterLaws {
  import opened Wrappers
  import opened ThreadState
  import opened SchedulerPass
  import opened SchedulerSteps
  import opened ConditionLaws

  /** The threads blocked on the mutex, suspended or not. */
  ghost function Blocked(s: System, m: nat): set<nat> {
    BlockedThreads(s, OnMutex(m))
  }

  function WaitingCount(s: System, m: nat): nat {
    if m in s.mutexes then s.mutexes[m].waitingCount else 0
  }

  /** The mutex counts exactly its waiters. */
  ghost predicate Counted(s: System, m: nat) {
    WaitingCount(s, m) == |Blocked(s, m)|
  }

  /** The pass times a waiter of a condition variable out onto the mutex, which is locked. */
  ghost predicate TimesOutOnto(s: System, clocks: seq<Clock>, t: nat, m: nat) {
    && s.Valid() && |clocks| == |s.threads| && t < |s.threads| && s.threads[t].block.OnCondition?
    && var r := ScanFrom(s, clocks, 0, None);
       !r.ScanPanicked? && |r.s.threads| == |s.threads| && r.s.threads[t].block == OnMutex(m)
  }

  /** The pass chooses a waiter of a condition variable, which takes the mutex. */
  ghost predicate RelocksFromCondition(s: System, clocks: seq<Clock>, m: nat) {
    && s.Valid() && |clocks| == |s.threads|
    && var r := ScanFrom(s, clocks, 0, None);
       r.Scheduled? && r.t < |s.threads| && s.threads[r.t].block.OnCondition? && AwaitedMutex(s, r.t) == Some(m)
  }

  /**
   What falsifies the count: a waiter that times out onto the mutex is not added to it, and one that takes
   the mutex is subtracted from it without ever having been added.
   */
  ghost predicate Miscounts(s: System, e: Event, m: nat) {
    e.Schedule? && ((exists t :: TimesOutOnto(s, e.clocks, t, m))
                    || (RelocksFromCondition(s, e.clocks, m) && WaitingCount(s, m) > 0))
  }

  // ---------- Actions ----------

  lemma MutexCallCounts(s: System, call: MutexCall, m: nat)
    requires s.Valid() && !DoMutexCall(s, call).Panicked?
    ensures WaitingCount(After(DoMutexCall(s, call)), m) ==
            WaitingCount(s, m) + if OwnBlock(s, MutexAction(call)) == OnMutex(m) then 1 else 0
  {
  }

  lemma OtherActionsCount(s: System, action: Action, m: nat)
    requires s.Valid() && !Act(s, action).Panicked? && !action.MutexAction?
    ensures WaitingCount(After(Act(s, action)), m) == WaitingCount(s, m) && OwnBlock(s, action) != OnMutex(m)
  {
    match action
    case SemAction(call) =>
    case CondAction(call) => CondCallCounts(s, call, m);
    case Suspend(t) =>
    case Resume(t) =>
    case _ =>
  }

  lemma CondCallCounts(s: System, call: CondCall, m: nat)
    requires s.Valid() && !DoCondCall(s, call).Panicked?
    ensures WaitingCount(After(DoCondCall(s, call)), m) == WaitingCount(s, m)
  {
  }

  lemma ActKeepsCount(s: System, action: Action, m: nat)
    requires Sound(s) && s.threads[s.current].block.NotBlocked? && !Act(s, action).Panicked? && Counted(s, m)
    ensures Counted(After(Act(s, action)), m)
  {
    BlockedAfterAct(s, action, OnMutex(m));
    assert s.current !in Blocked(s, m);
    if action.MutexAction? {
      MutexCallCounts(s, action.call, m);
    } else {
      OtherActionsCount(s, action, m);
    }
  }

  // ---------- The scheduler ----------

  /** The waiters of condition variables that the pass times out onto the mutex. */
  ghost function TimedOutOnto(s: System, clocks: seq<Clock>, m: nat): set<nat> {
    set t | 0 <= t < |s.threads| && TimesOutOnto(s, clocks, t, m)
  }

  /** The waiter of the mutex that the pass chooses. */
  ghost function Relieved(s: System, clocks: seq<Clock>, m: nat): set<nat>
    requires s.Valid() && |clocks| == |s.threads|
  {
    var r := ScanFrom(s, clocks, 0, None);
    if r.Scheduled? && r.t < |s.threads| && s.threads[r.t].block == OnMutex(m) then {r.t} else {}
  }

  lemma BlockedAfterSchedule(s: System, clocks: seq<Clock>, m: nat)
    requires Step(s, Schedule(clocks)).Some?
    ensures Blocked(Step(s, Schedule(clocks)).value, m) ==
            Blocked(s, m) - Relieved(s, clocks, m) + TimedOutOnto(s, clocks, m)
  {
    var s' := Step(s, Schedule(clocks)).value;
    var mid := ScheduleStep(s, clocks);
    assert ScanFrom(s, clocks, 0, None).s == mid;
    forall u | 0 <= u < |s.threads|
      ensures u in Blocked(s', m) <==>
              (u in Blocked(s, m) && u !in Relieved(s, clocks, m)) || u in TimedOutOnto(s, clocks, m)
    {
      assert !(s'.running && u == s'.current) ==> KeptOrTimedOut(s, mid, u);
    }
  }

  /** Nobody times out onto a mutex that is free. */
  lemma TimesOutOntoLocked(s: System, clocks: seq<Clock>, t: nat, m: nat)
    requires Step(s, Schedule(clocks)).Some? && TimesOutOnto(s, clocks, t, m)
    ensures IsLocked(s, m)
  {
    var mid := ScheduleStep(s, clocks);
    assert KeptOrTimedOut(s, mid, t);
  }

  lemma CountAfterSchedule(s: System, clocks: seq<Clock>, m: nat)
    requires Step(s, Schedule(clocks)).Some?
    ensures var taken := Relieved(s, clocks, m) != {} || RelocksFromCondition(s, clocks, m);
            && WaitingCount(Step(s, Schedule(clocks)).value, m) ==
               WaitingCount(s, m) - (if taken && WaitingCount(s, m) > 0 then 1 else 0)
            && (taken ==> m in s.mutexes && !IsLocked(s, m))
  {
    var mid := ScheduleStep(s, clocks);
  }

  lemma SizeAfter(blocked: set<nat>, relieved: set<nat>, timedOut: set<nat>)
    requires relieved <= blocked && timedOut !! blocked
    ensures |blocked - relieved + timedOut| == |blocked| - |relieved| + |timedOut|
  {
    assert |blocked - relieved| == |blocked| - |relieved|;
  }

  /** Who stops and who starts waiting: not both, since the mutex is either free or locked. */
  lemma PassAndMutex(s: System, clocks: seq<Clock>, m: nat)
    requires Step(s, Schedule(clocks)).Some?
    ensures var timedOut, relieved := TimedOutOnto(s, clocks, m), Relieved(s, clocks, m);
            && relieved <= Blocked(s, m) && timedOut !! Blocked(s, m) && |relieved| <= 1
            && (timedOut != {} ==> relieved == {} && !RelocksFromCondition(s, clocks, m))
            && (relieved != {} ==> !RelocksFromCondition(s, clocks, m))
            && (timedOut == {} <==> !exists t :: TimesOutOnto(s, clocks, t, m))
  {
    CountAfterSchedule(s, clocks, m);
    if t :| TimesOutOnto(s, clocks, t, m) {
      TimesOutOntoLocked(s, clocks, t, m);
      assert t in TimedOutOnto(s, clocks, m);
    }
  }

  lemma ScheduleKeepsCount(s: System, clocks: seq<Clock>, m: nat)
    requires Step(s, Schedule(clocks)).Some? && Counted(s, m)
    ensures Counted(Step(s, Schedule(clocks)).value, m) <==> !Miscounts(s, Schedule(clocks), m)
  {
    BlockedAfterSchedule(s, clocks, m);
    CountAfterSchedule(s, clocks, m);
    PassAndMutex(s, clocks, m);
    SizeAfter(Blocked(s, m), Relieved(s, clocks, m), TimedOutOnto(s, clocks, m));
  }

  // ---------- Runs ----------

  lemma InitiallyCounted(host: nat, cpu: nat, m: nat)
    ensures Counted(InitialState(host, cpu), m)
  {
    assert Blocked(InitialState(host, cpu), m) == {};
  }

  /** A step keeps the count exact exactly when it is none of those two. */
  lemma StepKeepsCount(s: System, e: Event, m: nat)
    requires Sound(s) && Step(s, e).Some? && Counted(s, m)
    ensures Counted(Step(s, e).value, m) <==> !Miscounts(s, e, m)
  {
    match e
    case Do(action) => ActKeepsCount(s, action, m);
    case Schedule(clocks) => ScheduleKeepsCount(s, clocks, m);
  }

  /** Over every run without them, the mutex counts exactly its waiters. */
  lemma {:induction false} CountOverRun(states: seq<System>, events: seq<Event>, m: nat)
    requires IsRun(states, events) && Sound(states[0]) && Counted(states[0], m)
    requires forall i :: 0 <= i < |events| ==> !Miscounts(states[i], events[i], m)
    ensures Sound(states[|events|]) && Counted(states[|events|], m)
    decreases |events|
  {
    if events != [] {
      var n := |events| - 1;
      RunPrefix(states, events, n);
      CountOverRun(states[..n + 1], events[..n], m);
      assert !Miscounts(states[n], events[n], m);
      StepKeepsSound(states[n], events[n]);
      StepKeepsCount(states[n], events[n], m);
    }
  }

  /** While the count is exact, a mutex is destroyed only without waiters, and none of them can lose it. */
  lemma CountProtectsWaiters(s: System, m: nat)
    requires Counted(s, m)
    ensures DestroyMutex(s, m).Returned? && DestroyMutex(s, m).value == 0 ==> Blocked(s, m) == {}
    ensures forall t, now: Clock :: 0 <= t < |s.threads| && s.threads[t].block == OnMutex(m) ==>
              !VisitThread(s, t, now).VisitPanicked?
  {
    forall t | 0 <= t < |s.threads| && s.threads[t].block == OnMutex(m) ensures m in s.mutexes {
      assert t in Blocked(s, m);
    }
  }

  // ---------- What the count is for ----------

  /** The main thread has timed out onto the mutex, which the second thread holds. */
  function MainTimedOut(host: nat, cpu: nat, guest: nat, host1: nat, c: nat, m: nat): System {
    System(1, true, Some(host1), guest,
           [Thread(true, OnMutex(m), None, InConditionWait(c), Some(cpu), Some(host)),
            Thread(true, NotBlocked, None, Plain, None, None)],
           map[m := Mutex(Normal, 0, Some((1, 1)))], map[], map[c := Condition([], [], Some(m), {0})], map[])
  }

  /** Two steps lead from one state to the other. */
  predicate Runs(s: System, events: seq<Event>, s': System)
    requires |events| == 2
  {
    Step(s, events[0]).Some? && Step(Step(s, events[0]).value, events[1]) == Some(s')
  }

  /** The second thread locks the mutex while the main one waits for it with a deadline. */
  lemma MainTimesOut(host: nat, cpu: nat, guest: nat, host1: nat, c: nat, m: nat, deadline: int, clocks: seq<Clock>)
    returns (waiting: System)
    requires |clocks| == 2 && deadline <= clocks[0].unix
    ensures Runs(MainWaits(host, cpu, guest, host1, c, m, Some(deadline)),
                 [Do(MutexAction(Lock(m))), Do(YieldTick)], waiting)
    ensures Counted(waiting, m) && Miscounts(waiting, Schedule(clocks), m)
    ensures Step(waiting, Schedule(clocks)) == Some(MainTimedOut(host, cpu, guest, host1, c, m))
  {
    waiting := LocksAndYields(MainWaits(host, cpu, guest, host1, c, m, Some(deadline)), m);
    assert Blocked(waiting, m) == {};
    TimesOutUncounted(waiting, c, m, deadline, clocks);
  }

  lemma LocksAndYields(s: System, m: nat) returns (s': System)
    requires s.current == 1 && s.running && s.mutexes == map[m := Mutex(Normal, 0, None)]
    requires |s.threads| == 2 && s.threads[1] == Thread(true, NotBlocked, None, Plain, None, None)
    ensures Runs(s, [Do(MutexAction(Lock(m))), Do(YieldTick)], s')
    ensures s' == s.(running := false, mutexes := map[m := Mutex(Normal, 0, Some((1, 1)))])
  {
    var s1 := s.(mutexes := map[m := Mutex(Normal, 0, Some((1, 1)))]);
    assert Step(s, Do(MutexAction(Lock(m)))).value.mutexes == s1.mutexes;
    s' := s1.(running := false);
    assert Step(s1, Do(YieldTick)).value.threads == s'.threads;
  }

  lemma TimesOutUncounted(s: System, c: nat, m: nat, deadline: int, clocks: seq<Clock>)
    requires s.current == 1 && !s.running && |s.threads| == |clocks| == 2 && deadline <= clocks[0].unix
    requires s.threads[0].active && s.threads[0].block == OnCondition(c, Some(deadline))
    requires s.threads[1] == Thread(true, NotBlocked, None, Plain, None, None)
    requires s.mutexes == map[m := Mutex(Normal, 0, Some((1, 1)))]
    requires s.conds == map[c := Condition([0], [], Some(m), {})]
    ensures TimesOutOnto(s, clocks, 0, m)
    ensures Step(s, Schedule(clocks)) ==
            Some(s.(running := true, threads := [s.threads[0].(block := OnMutex(m)), s.threads[1]],
                    conds := map[c := Condition([], [], Some(m), {0})]))
  {
    assert Candidate(s, 0) == 0 && Candidate(s, 1) == 1;
    var v := VisitThread(s, 0, clocks[0]);
    assert Without([0], 0) == [];
    assert v.PassedOver? && v.s.conds[c] == Condition([], [], Some(m), {0});
    assert v.s.conds == map[c := Condition([], [], Some(m), {0})];
    assert v.s.threads == [s.threads[0].(block := OnMutex(m)), s.threads[1]];
    assert ScanFrom(v.s, clocks, 1, None) == Scheduled(1, v.s);
  }

  /**
   An input: after this the waiter is not counted, so that the second thread may destroy the mutex once it
   has unlocked it, and the next scheduling step panics.
   */
  lemma DestroyedUnderWaiter(host: nat, cpu: nat, guest: nat, host1: nat, c: nat, m: nat, clocks: seq<Clock>)
    returns (unlocked: System, destroyed: System)
    requires |clocks| == 2
    ensures Step(MainTimedOut(host, cpu, guest, host1, c, m), Do(MutexAction(Unlock(m)))) == Some(unlocked)
    ensures Blocked(unlocked, m) == {0} && m in unlocked.mutexes && WaitingCount(unlocked, m) == 0
    ensures Runs(unlocked, [Do(MutexAction(Destroy(m))), Do(YieldTick)], destroyed)
    ensures m !in destroyed.mutexes && Step(destroyed, Schedule(clocks)).None?
  {
    unlocked := Step(MainTimedOut(host, cpu, guest, host1, c, m), Do(MutexAction(Unlock(m)))).value;
    assert unlocked.mutexes[m] == Mutex(Normal, 0, None);
    var s' := Step(unlocked, Do(MutexAction(Destroy(m)))).value;
    destroyed := Step(s', Do(YieldTick)).value;
    assert Candidate(destroyed, 0) == 0;
  }
}
