/** Which thread the scheduler chooses, said without visiting any: the first that may run when its turn comes. */
module SchedulerChoice {
  import opened Wrappers
  import opened ThreadState
  import opened SchedulerPass

  /** The condition variable hands the thread on, once its mutex is free. */
  predicate Signalled(s: System, t: nat, c: nat) {
    c in s.conds && s.conds[c].waking != [] && s.conds[c].waking[0] == t
  }

  predicate DeadlineCame(deadline: Option<int>, now: Clock) {
    deadline.Some? && deadline.value <= now.unix
  }

  /** What the thread waits for has come. */
  predicate Runnable(s: System, t: nat, now: Clock)
    requires t < |s.threads|
  {
    s.threads[t].active &&
    match s.threads[t].block
    case NotBlocked => true
    case Sleeping(until) => until <= now.instant
    case OnMutex(m) => !IsLocked(s, m)
    case OnSemaphore(sem) => sem !in s.sems || s.sems[sem].value > 0
    case OnCondition(c, deadline) =>
      && c in s.conds && s.conds[c].mutex.Some? && !IsLocked(s, s.conds[c].mutex.value)
      && (Signalled(s, t, c) || DeadlineCame(deadline, now))
    case Joining(joinee, _) => joinee < |s.threads| && !s.threads[joinee].active
    case WaitingForDebugger => false
    case Suspended(_, _) => false
  }

  /** What the thread waits for cannot be: the scheduler panics. */
  predicate Faulty(s: System, t: nat, now: Clock)
    requires t < |s.threads|
  {
    s.threads[t].active &&
    match s.threads[t].block
    case OnMutex(m) => m !in s.mutexes
    case OnCondition(c, deadline) => FaultyWait(s, t, c, deadline, now)
    case Joining(joinee, ptr) =>
      joinee >= |s.threads|
      || (!s.threads[joinee].active && ptr != 0 && s.threads[joinee].returnValue.None?)
    case WaitingForDebugger => true
    case Suspended(count, _) => count == 0
    case _ => false
  }

  /** The variable or its mutex is gone, or the waiter has timed out before. */
  predicate FaultyWait(s: System, t: nat, c: nat, deadline: Option<int>, now: Clock) {
    c !in s.conds || s.conds[c].mutex.None? ||
    var m := s.conds[c].mutex.value;
    if Signalled(s, t, c) && !IsLocked(s, m) then m !in s.mutexes
    else DeadlineCame(deadline, now) && (t in s.conds[c].timedOut || m !in s.mutexes)
  }

  /** A visit chooses exactly the threads that may run, and panics exactly at the faulty ones. */
  lemma VisitDecides(s: System, t: nat, now: Clock)
    requires t < |s.threads|
    ensures VisitThread(s, t, now).VisitPanicked? <==> Faulty(s, t, now)
    ensures !Faulty(s, t, now) ==> (VisitThread(s, t, now).Chosen? <==> Runnable(s, t, now))
  {
    if s.threads[t].active && s.threads[t].block.OnCondition? {
      var OnCondition(c, deadline) := s.threads[t].block;
      VisitConditionDecides(s, t, c, deadline, now);
    }
  }

  lemma VisitConditionDecides(s: System, t: nat, c: nat, deadline: Option<int>, now: Clock)
    requires t < |s.threads| && s.threads[t].active && s.threads[t].block == OnCondition(c, deadline)
    ensures VisitCondition(s, t, c, deadline, now).VisitPanicked? <==> FaultyWait(s, t, c, deadline, now)
    ensures !FaultyWait(s, t, c, deadline, now) ==>
              (VisitCondition(s, t, c, deadline, now).Chosen? <==> Runnable(s, t, now))
  {
  }

  /** So a sleeping thread is chosen once its time has come, and before that it asks to be woken then. */
  lemma SleeperRunsWhenDue(s: System, t: nat, until: int, now: Clock)
    requires t < |s.threads| && s.threads[t].active && s.threads[t].block == Sleeping(until)
    ensures VisitThread(s, t, now).Chosen? <==> until <= now.instant
    ensures until > now.instant ==> VisitThread(s, t, now) == PassedOver(s, Some(until))
  {
    VisitDecides(s, t, now);
  }

  // ---------- A pass ----------

  /** A condition variable changes during a pass only while its mutex is locked. */
  ghost predicate ChangedLocked(s: System, s1: System, c: nat) {
    (c in s.conds <==> c in s1.conds)
    && (c in s.conds && s1.conds[c] != s.conds[c] ==>
        s.conds[c].mutex.Some? && IsLocked(s, s.conds[c].mutex.value))
  }

  ghost predicate OnlyLockedChanged(s: System, s1: System) {
    forall c: nat :: ChangedLocked(s, s1, c)
  }

  lemma PassedOverChangesLocked(s: System, u: nat, now: Clock, c: nat)
    requires u < |s.threads| && VisitThread(s, u, now).PassedOver?
    ensures ChangedLocked(s, VisitThread(s, u, now).s, c)
  {
  }

  /** A thread may run at its turn exactly if it may run, by the clock at its turn, as the pass begins. */
  lemma RunnableAtTurn(s: System, s1: System, i: nat, now: Clock)
    requires s.Valid() && i < |s.threads| && PassedTo(s, s1, i) && OnlyLockedChanged(s, s1)
    ensures Runnable(s1, Candidate(s, i), now) == Runnable(s, Candidate(s, i), now)
  {
    var t := Candidate(s, i);
    UnvisitedKept(s, s1, i);
    match s.threads[t].block
    case OnCondition(c, _) => assert ChangedLocked(s, s1, c);
    case Joining(joinee, _) => assert joinee < |s.threads| ==> KeptOrTimedOut(s, s1, joinee);
    case _ =>
  }

  predicate RunnableInTurn(s: System, clocks: seq<Clock>, u: nat)
    requires s.Valid() && |clocks| == |s.threads| && u < |s.threads|
  {
    PlaceOf(s, u);
    Runnable(s, u, clocks[Place(s, u)])
  }

  /** The thread may run, by the clock at its turn, and none before it may. */
  ghost predicate FirstRunnable(s: System, clocks: seq<Clock>, t: nat)
    requires s.Valid() && |clocks| == |s.threads|
  {
    && t < |s.threads| && RunnableInTurn(s, clocks, t)
    && forall u: nat :: u < |s.threads| && Place(s, u) < Place(s, t) ==> !RunnableInTurn(s, clocks, u)
  }

  ghost predicate NoneRunnable(s: System, clocks: seq<Clock>)
    requires s.Valid() && |clocks| == |s.threads|
  {
    forall u: nat :: u < |s.threads| ==> !RunnableInTurn(s, clocks, u)
  }

  ghost predicate NoneRunnableBefore(s: System, clocks: seq<Clock>, i: nat)
    requires s.Valid() && |clocks| == |s.threads|
  {
    forall u: nat :: u < |s.threads| && Place(s, u) < i ==> !RunnableInTurn(s, clocks, u)
  }

  lemma OneMorePassedOver(s: System, clocks: seq<Clock>, i: nat)
    requires s.Valid() && |clocks| == |s.threads| && i < |s.threads|
    requires NoneRunnableBefore(s, clocks, i) && !Runnable(s, Candidate(s, i), clocks[i])
    ensures NoneRunnableBefore(s, clocks, i + 1)
  {
    forall u: nat | u < |s.threads| && Place(s, u) < i + 1 ensures !RunnableInTurn(s, clocks, u) {
      PlaceOf(s, u);
    }
  }

  lemma {:induction false} PassChooses(s: System, s1: System, clocks: seq<Clock>, i: nat, earlier: Option<int>)
    requires s.Valid() && |clocks| == |s.threads| && i <= |s.threads|
    requires PassedTo(s, s1, i) && OnlyLockedChanged(s, s1) && NoneRunnableBefore(s, clocks, i)
    ensures var r := ScanFrom(s1, clocks, i, earlier);
            && (r.Scheduled? ==> FirstRunnable(s, clocks, r.t))
            && (r.AllBlocked? ==> NoneRunnable(s, clocks) && OnlyLockedChanged(s, r.s))
    decreases |s.threads| - i
  {
    if i == |s.threads| {
      forall u: nat | u < |s.threads| ensures !RunnableInTurn(s, clocks, u) {
        PlaceOf(s, u);
      }
    } else {
      var t := Candidate(s, i);
      assert t == Candidate(s1, i);
      VisitDecides(s1, t, clocks[i]);
      RunnableAtTurn(s, s1, i, clocks[i]);
      PlaceOfCandidate(s, i);
      match VisitThread(s1, t, clocks[i])
      case PassedOver(s2, awakening) =>
        PassOver(s, s1, i, clocks[i]);
        forall c: nat ensures ChangedLocked(s, s2, c) {
          PassedOverChangesLocked(s1, t, clocks[i], c);
          assert ChangedLocked(s, s1, c);
        }
        OneMorePassedOver(s, clocks, i);
        PassChooses(s, s2, clocks, i + 1, Earlier(earlier, awakening));
      case _ =>
    }
  }

  /** A pass chooses the first thread that may run, and none exactly if there is none. */
  lemma PassChoosesFirst(s: System, clocks: seq<Clock>)
    requires s.Valid() && |clocks| == |s.threads|
    ensures var r := ScanFrom(s, clocks, 0, None);
            && (r.Scheduled? ==> FirstRunnable(s, clocks, r.t))
            && (r.AllBlocked? ==> NoneRunnable(s, clocks))
  {
    PassChooses(s, s, clocks, 0, None);
  }

  // ---------- Several passes ----------

  /** Nobody took anything: threads wait as they did, or have timed out into waiting for a mutex. */
  ghost predicate StillWaiting(s: System, s': System) {
    && SameShape(s, s') && s'.mutexes == s.mutexes && s'.sems == s.sems && s'.joinResults == s.joinResults
    && forall u :: 0 <= u < |s.threads| ==> KeptOrTimedOut(s, s', u)
  }

  /** After `k` readings of the clocks at which nobody could run, `t` is the first that can. */
  ghost predicate RunsAfter(s: System, readings: seq<seq<Clock>>, k: nat, t: nat)
    requires s.Valid() && forall i :: 0 <= i < |readings| ==> |readings[i]| == |s.threads|
    decreases k
  {
    && k < |readings|
    && (if k == 0 then FirstRunnable(s, readings[0], t)
        else NoneRunnable(s, readings[0])
             && exists s' :: StillWaiting(s, s') && RunsAfter(s', readings[1..], k - 1, t))
  }

  lemma {:induction false} ScheduleChooses(s: System, readings: seq<seq<Clock>>, grace: nat) returns (k: nat)
    requires s.Valid() && forall i :: 0 <= i < |readings| ==> |readings[i]| == |s.threads|
    requires ScheduleFrom(s, readings, grace).Chose?
    ensures RunsAfter(s, readings, k, ScheduleFrom(s, readings, grace).t)
    decreases |readings|
  {
    ScanKeepsShape(s, readings[0], 0, None);
    PassChoosesFirst(s, readings[0]);
    k := 0;
    match ScanFrom(s, readings[0], 0, None)
    case AllBlocked(s', when) =>
      var _, _ := ScanTrace(s, s, readings[0], 0, None);
      k := ScheduleChooses(s', readings[1..], if when.Some? then grace else grace + 1);
      assert StillWaiting(s, s') && RunsAfter(s', readings[1..], k, ScheduleFrom(s, readings, grace).t);
      k := k + 1;
    case _ =>
  }

  /** A sleeping thread is chosen only at a reading of the clocks that has reached its time. */
  lemma {:induction false} SleeperIsLeftAlone(s: System, readings: seq<seq<Clock>>, k: nat, t: nat, until: int)
    requires s.Valid() && forall i :: 0 <= i < |readings| ==> |readings[i]| == |s.threads|
    requires RunsAfter(s, readings, k, t) && t < |s.threads| && s.threads[t].block == Sleeping(until)
    ensures Place(s, t) < |s.threads| && k < |readings| && until <= readings[k][Place(s, t)].instant
    decreases k
  {
    PlaceOf(s, t);
    if k > 0 {
      var s' :| StillWaiting(s, s') && RunsAfter(s', readings[1..], k - 1, t);
      assert KeptOrTimedOut(s, s', t);
      SleeperIsLeftAlone(s', readings[1..], k - 1, t, until);
    }
  }
}
