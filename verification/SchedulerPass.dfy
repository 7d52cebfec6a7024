/** What one pass of the scheduler does to the threads it visits and to those it passes over. */
module SchedulerPass {
  import opened Wrappers
  import opened ThreadState

  /** The state in which the `i`th candidate is visited, in a pass that began in `s`. */
  ghost predicate PassedTo(s: System, s': System, i: nat)
    requires s.Valid()
  {
    && SameShape(s, s')
    && s'.mutexes == s.mutexes && s'.sems == s.sems && s'.joinResults == s.joinResults
    && s'.conds.Keys == s.conds.Keys
    && (forall c :: c in s.conds ==> s'.conds[c].mutex == s.conds[c].mutex)
    && (forall u :: 0 <= u < |s.threads| ==> KeptOrTimedOut(s, s', u))
    && (forall u :: 0 <= u < |s.threads| && s'.threads[u] != s.threads[u] ==> Visited(s, u, i))
  }

  /** A passed-over thread keeps its state, or has timed out while the condition's mutex is locked. */
  ghost predicate KeptOrTimedOut(s: System, s': System, u: nat)
    requires u < |s.threads| && |s.threads| == |s'.threads|
  {
    s'.threads[u] == s.threads[u] ||
    (s.threads[u].block.OnCondition?
     && var c := s.threads[u].block.cond;
        c in s.conds && s.conds[c].mutex.Some?
        && IsLocked(s, s.conds[c].mutex.value)
        && s'.threads[u] == s.threads[u].(block := OnMutex(s.conds[c].mutex.value)))
  }

  ghost predicate Visited(s: System, u: nat, i: nat)
    requires s.Valid()
  {
    exists j: nat :: j < i && Candidate(s, j) == u
  }

  /** The candidates in closed form: the threads after the current one, wrapping around. */
  lemma CandidateValue(s: System, i: nat)
    requires s.Valid() && i < |s.threads|
    ensures var x := s.current + 1 + i;
            Candidate(s, i) == if x < |s.threads| then x else x - |s.threads|
  {
    ModuloOnce(s.current + 1 + i, |s.threads|);
  }

  lemma ModuloOnce(x: nat, n: nat)
    requires n > 0 && x < 2 * n
    ensures x % n == if x < n then x else x - n
  {
    if x >= n {
      assert x == n * 1 + (x - n);
      assert x / n == 1;
    }
  }

  lemma CandidatesDiffer(s: System, i: nat, j: nat)
    requires s.Valid() && i < j < |s.threads|
    ensures Candidate(s, i) != Candidate(s, j)
  {
    CandidateValue(s, i);
    CandidateValue(s, j);
  }

  lemma UnvisitedKept(s: System, s': System, i: nat)
    requires s.Valid() && PassedTo(s, s', i) && i < |s.threads|
    ensures s'.threads[Candidate(s, i)] == s.threads[Candidate(s, i)]
  {
    if Visited(s, Candidate(s, i), i) {
      var j: nat :| j < i && Candidate(s, j) == Candidate(s, i);
      CandidatesDiffer(s, j, i);
    }
  }

  /** Passing over a candidate. */
  lemma PassOver(s: System, s1: System, i: nat, now: Clock)
    requires s.Valid() && PassedTo(s, s1, i) && i < |s.threads|
    requires VisitThread(s1, Candidate(s, i), now).PassedOver?
    ensures PassedTo(s, VisitThread(s1, Candidate(s, i), now).s, i + 1)
  {
    var t := Candidate(s, i);
    var s2 := VisitThread(s1, t, now).s;
    UnvisitedKept(s, s1, i);
    PassOverFrame(s1, t, now);
    forall u | 0 <= u < |s.threads| && s2.threads[u] != s.threads[u] ensures Visited(s, u, i + 1) {
      if u != t {
        var j: nat :| j < i && Candidate(s, j) == u;
      }
    }
    forall u | 0 <= u < |s.threads| ensures KeptOrTimedOut(s, s2, u) {
      assert KeptOrTimedOut(s, s1, u);
    }
  }

  /** Being passed over changes at most a timed-out thread's block and its condition's queues. */
  lemma PassOverFrame(s: System, t: nat, now: Clock)
    requires t < |s.threads| && VisitThread(s, t, now).PassedOver?
    ensures var s' := VisitThread(s, t, now).s;
            && SameShape(s, s') && s'.mutexes == s.mutexes && s'.sems == s.sems && s'.joinResults == s.joinResults
            && s'.conds.Keys == s.conds.Keys && (forall c :: c in s.conds ==> s'.conds[c].mutex == s.conds[c].mutex)
            && (forall u :: 0 <= u < |s.threads| && u != t ==> s'.threads[u] == s.threads[u])
            && KeptOrTimedOut(s, s', t)
  {
    if s.threads[t].block.OnCondition? {
    }
  }

  /** A pass either schedules the first candidate that can run, or passes over all of them. */
  lemma {:induction false} ScanTrace(s: System, s1: System, clocks: seq<Clock>, i: nat, nextAwakening: Option<int>)
    returns (s2: System, j: nat)
    requires s.Valid() && |clocks| == |s.threads| && i <= |s.threads| && PassedTo(s, s1, i)
    ensures var r := ScanFrom(s1, clocks, i, nextAwakening);
            && (r.Scheduled? ==> && j < |s.threads| && PassedTo(s, s2, j)
                                 && r.t == Candidate(s, j) && VisitThread(s2, r.t, clocks[j]) == Chosen(r.s))
            && (r.AllBlocked? ==> PassedTo(s, r.s, |s.threads|))
    decreases |s.threads| - i
  {
    s2, j := s1, i;
    if i < |s.threads| {
      var t := Candidate(s1, i);
      assert t == Candidate(s, i);
      match VisitThread(s1, t, clocks[i])
      case PassedOver(s', awakening) =>
        PassOver(s, s1, i, clocks[i]);
        s2, j := ScanTrace(s, s', clocks, i + 1, Earlier(nextAwakening, awakening));
      case _ =>
    }
  }

  /** The mutex a blocked thread will hold when it runs again, if any. */
  function AwaitedMutex(s: System, t: nat): Option<nat>
    requires t < |s.threads|
  {
    match s.threads[t].block
    case OnMutex(m) => Some(m)
    case OnCondition(c, _) => if c in s.conds then s.conds[c].mutex else None
    case _ => None
  }

  /** The semaphores once `t` has been chosen. */
  function SemsAfter(s: System, t: nat): map<nat, Semaphore>
    requires t < |s.threads|
  {
    match s.threads[t].block
    case OnSemaphore(sem) =>
      if sem in s.sems then s.sems[sem := Semaphore(s.sems[sem].value - 1, s.sems[sem].waiting - {t})] else s.sems
    case _ => s.sems
  }

  /** The mutexes once `t` has been chosen: it holds the one it waited for, which nobody held before. */
  ghost predicate TakesItsMutex(s: System, s': System, t: nat)
    requires t < |s.threads|
  {
    match AwaitedMutex(s, t)
    case Some(m) => m in s.mutexes && !IsLocked(s, m) && s'.mutexes == s.mutexes[m := Relocked(s.mutexes[m], t)]
    case None => s'.mutexes == s.mutexes
  }

  ghost predicate ChosenFrom(s: System, s': System, t: nat)
    requires t < |s.threads|
  {
    && SameShape(s, s') && s.threads[t].active && !s.threads[t].block.Suspended?
    && s'.threads[t] == s.threads[t].(block := NotBlocked)
    && TakesItsMutex(s, s', t)
    && s'.sems == SemsAfter(s, t)
    && (s.threads[t].block.OnSemaphore? && s.threads[t].block.sem in s.sems ==>
        s.sems[s.threads[t].block.sem].value > 0)
  }

  /**
   A thread scheduled after blocking on a mutex or a condition variable owns that mutex, which nobody
   held before; no other mutex changes, and any other thread keeps its state or has timed out into
   waiting for its condition's mutex.
   */
  lemma ScheduledThreadOwnsItsMutex(s: System, clocks: seq<Clock>)
    requires s.Valid() && |clocks| == |s.threads| && ScanFrom(s, clocks, 0, None).Scheduled?
    ensures var (t, s') := (ScanFrom(s, clocks, 0, None).t, ScanFrom(s, clocks, 0, None).s);
            && t < |s.threads| && ChosenFrom(s, s', t)
            && (forall u :: 0 <= u < |s.threads| && u != t ==> KeptOrTimedOut(s, s', u))
  {
    var s2, j := ScanTrace(s, s, clocks, 0, None);
    var r := ScanFrom(s, clocks, 0, None);
    UnvisitedKept(s, s2, j);
    ChosenFrame(s2, r.t, clocks[j]);
    forall u | 0 <= u < |s.threads| && u != r.t ensures KeptOrTimedOut(s, r.s, u) {
      assert KeptOrTimedOut(s, s2, u);
    }
  }

  lemma ChosenFrame(s: System, t: nat, now: Clock)
    requires t < |s.threads| && VisitThread(s, t, now).Chosen?
    ensures ChosenFrom(s, VisitThread(s, t, now).s, t)
    ensures VisitThread(s, t, now).s.threads == s.threads[t := s.threads[t].(block := NotBlocked)]
  {
    assert SameShape(s, VisitThread(s, t, now).s) by {
      VisitKeepsShape(s, t, now);
    }
    match s.threads[t].block
    case OnCondition(c, deadline) => ChosenConditionFrame(s, t, c, deadline, now);
    case OnSemaphore(_) => ChosenSemaphoreFrame(s, t, now);
    case OnMutex(_) => ChosenMutexFrame(s, t, now);
    case _ => ChosenOtherwiseFrame(s, t, now);
  }

  lemma ChosenOtherwiseFrame(s: System, t: nat, now: Clock)
    requires t < |s.threads| && VisitThread(s, t, now).Chosen?
    requires !s.threads[t].block.OnMutex? && !s.threads[t].block.OnSemaphore? && !s.threads[t].block.OnCondition?
    ensures var s' := VisitThread(s, t, now).s;
            && s.threads[t].active && !s.threads[t].block.Suspended? && s'.mutexes == s.mutexes && s'.sems == s.sems
            && s'.threads == s.threads[t := s.threads[t].(block := NotBlocked)]
  {
  }

  lemma ChosenMutexFrame(s: System, t: nat, now: Clock)
    requires t < |s.threads| && s.threads[t].block.OnMutex? && VisitThread(s, t, now).Chosen?
    ensures var s', m := VisitThread(s, t, now).s, s.threads[t].block.mutex;
            && s.threads[t].active && s'.sems == s.sems
            && s'.threads == s.threads[t := s.threads[t].(block := NotBlocked)]
            && m in s.mutexes && !IsLocked(s, m) && s'.mutexes == s.mutexes[m := Relocked(s.mutexes[m], t)]
  {
  }

  lemma ChosenSemaphoreFrame(s: System, t: nat, now: Clock)
    requires t < |s.threads| && s.threads[t].block.OnSemaphore? && VisitThread(s, t, now).Chosen?
    ensures var s', sem := VisitThread(s, t, now).s, s.threads[t].block.sem;
            && s.threads[t].active && s'.mutexes == s.mutexes && s'.sems == SemsAfter(s, t)
            && s'.threads == s.threads[t := s.threads[t].(block := NotBlocked)]
            && (sem in s.sems ==> s.sems[sem].value > 0)
  {
  }

  lemma ChosenConditionFrame(s: System, t: nat, c: nat, deadline: Option<int>, now: Clock)
    requires t < |s.threads| && VisitCondition(s, t, c, deadline, now).Chosen?
    ensures var s' := VisitCondition(s, t, c, deadline, now).s;
            && c in s.conds && s.conds[c].mutex.Some? && s'.sems == s.sems
            && s'.threads == s.threads[t := s.threads[t].(block := NotBlocked)]
            && var m := s.conds[c].mutex.value;
               m in s.mutexes && !IsLocked(s, m) && s'.mutexes == s.mutexes[m := Relocked(s.mutexes[m], t)]
  {
  }

  // ---------- When the pass finds nobody ----------

  /** When time alone makes the thread worth looking at again, if ever. */
  function WakesAt(thread: Thread, now: Clock): Option<int> {
    if !thread.active then None else
      match thread.block
      case Sleeping(until) => if until <= now.instant then None else Some(until)
      case OnCondition(_, Some(deadline)) =>
        if deadline <= now.unix then None else Some(now.instant + (deadline - now.unix))
      case _ => None
  }

  /** The time at which the `j`th candidate wakes. */
  function CandidateWakesAt(s: System, clocks: seq<Clock>, j: nat): Option<int>
    requires s.Valid() && |clocks| == |s.threads| && j < |s.threads|
  {
    WakesAt(s.threads[Candidate(s, j)], clocks[j])
  }

  predicate NoLater(a: Option<int>, b: Option<int>) {
    b.Some? ==> a.Some? && a.value <= b.value
  }

  /** `next` is the earliest of `earlier` and the times of the candidates from `i` on. */
  ghost predicate EarliestFrom(s: System, clocks: seq<Clock>, i: nat, earlier: Option<int>, next: Option<int>)
    requires s.Valid() && |clocks| == |s.threads| && i <= |s.threads|
  {
    && NoLater(next, earlier)
    && (forall j: nat :: i <= j < |s.threads| ==> NoLater(next, CandidateWakesAt(s, clocks, j)))
    && (next == earlier || exists j: nat :: i <= j < |s.threads| && next == CandidateWakesAt(s, clocks, j))
  }

  lemma PassedOverWakesAt(s: System, t: nat, now: Clock)
    requires t < |s.threads| && VisitThread(s, t, now).PassedOver?
    ensures VisitThread(s, t, now).awakening == WakesAt(s.threads[t], now)
  {
  }

  lemma EarliestOfOneMore(s: System, clocks: seq<Clock>, i: nat, earlier: Option<int>, next: Option<int>)
    requires s.Valid() && |clocks| == |s.threads| && i < |s.threads|
    requires EarliestFrom(s, clocks, i + 1, Earlier(earlier, CandidateWakesAt(s, clocks, i)), next)
    ensures EarliestFrom(s, clocks, i, earlier, next)
  {
    var here := CandidateWakesAt(s, clocks, i);
    assert NoLater(Earlier(earlier, here), earlier) && NoLater(Earlier(earlier, here), here);
    if next == Earlier(earlier, here) {
      assert next == earlier || next == CandidateWakesAt(s, clocks, i);
    } else {
      var j: nat :| i + 1 <= j < |s.threads| && next == CandidateWakesAt(s, clocks, j);
    }
  }

  /**
   A pass that finds nobody asks to be woken at exactly the earliest time at which a thread's sleep or
   wait ends, and at no time only if no such time exists.
   */
  lemma {:induction false} AwakensAtEarliest(s: System, s1: System, clocks: seq<Clock>, i: nat, earlier: Option<int>)
    requires s.Valid() && |clocks| == |s.threads| && i <= |s.threads| && PassedTo(s, s1, i)
    requires ScanFrom(s1, clocks, i, earlier).AllBlocked?
    ensures EarliestFrom(s, clocks, i, earlier, ScanFrom(s1, clocks, i, earlier).nextAwakening)
    decreases |s.threads| - i
  {
    if i < |s.threads| {
      var t := Candidate(s, i);
      assert t == Candidate(s1, i);
      UnvisitedKept(s, s1, i);
      var v := VisitThread(s1, t, clocks[i]);
      PassedOverWakesAt(s1, t, clocks[i]);
      PassOver(s, s1, i, clocks[i]);
      AwakensAtEarliest(s, v.s, clocks, i + 1, Earlier(earlier, v.awakening));
      EarliestOfOneMore(s, clocks, i, earlier, ScanFrom(s1, clocks, i, earlier).nextAwakening);
    }
  }

  /** The place in the pass at which a thread is the candidate. */
  function Place(s: System, u: nat): nat
    requires s.Valid() && u < |s.threads|
  {
    if u > s.current then u - s.current - 1 else u + |s.threads| - s.current - 1
  }

  lemma PlaceOf(s: System, u: nat)
    requires s.Valid() && u < |s.threads|
    ensures Place(s, u) < |s.threads| && Candidate(s, Place(s, u)) == u
  {
    CandidateValue(s, Place(s, u));
  }

  lemma PlaceOfCandidate(s: System, i: nat)
    requires s.Valid() && i < |s.threads|
    ensures Place(s, Candidate(s, i)) == i
  {
    CandidateValue(s, i);
  }

  // ---------- When the emulator gives up ----------

  /** Neither time nor any visit of the scheduler can make the thread ready. */
  predicate IsStuck(s: System, u: nat)
    requires u < |s.threads|
  {
    s.threads[u].active ==>
      match s.threads[u].block
      case OnMutex(m) => IsLocked(s, m)
      case OnSemaphore(sem) => sem in s.sems && s.sems[sem].value <= 0
      case OnCondition(c, deadline) =>
        && deadline.None? && c in s.conds && s.conds[c].mutex.Some?
        && (s.conds[c].waking != [] && s.conds[c].waking[0] == u ==> IsLocked(s, s.conds[c].mutex.value))
      case Joining(joinee, _) => joinee < |s.threads| && s.threads[joinee].active
      case Suspended(count, _) => count > 0
      case _ => false
  }

  ghost predicate AllStuck(s: System) {
    forall u :: 0 <= u < |s.threads| ==> IsStuck(s, u)
  }

  /** Which is to say that the scheduler passes it over at any time, and changes nothing. */
  lemma StuckIsPassedOver(s: System, u: nat)
    requires u < |s.threads|
    ensures IsStuck(s, u) <==> forall now: Clock :: VisitThread(s, u, now) == PassedOver(s, None)
  {
    if IsStuck(s, u) {
      forall now: Clock ensures VisitThread(s, u, now) == PassedOver(s, None) {}
    } else {
      MovableAtSomeTime(s, u);
    }
  }

  lemma MovableAtSomeTime(s: System, u: nat)
    requires u < |s.threads| && !IsStuck(s, u)
    ensures exists now: Clock :: VisitThread(s, u, now) != PassedOver(s, None)
  {
    var now := match s.threads[u].block
      case Sleeping(until) => Clock(until, 0)
      case OnCondition(_, Some(deadline)) => Clock(0, deadline - 1)
      case _ => Clock(0, 0);
    assert VisitThread(s, u, now) != PassedOver(s, None);
  }

  /** Whoever is passed over without a time to wake at is stuck, perhaps after timing out. */
  lemma PassedOverIsStuck(s: System, t: nat, now: Clock)
    requires t < |s.threads| && VisitThread(s, t, now).PassedOver? && VisitThread(s, t, now).awakening.None?
    ensures |VisitThread(s, t, now).s.threads| == |s.threads| && IsStuck(VisitThread(s, t, now).s, t)
  {
  }

  /** Passing over another thread keeps it so: a queue only moves on while its mutex is locked. */
  lemma StuckStays(s: System, u: nat, t: nat, now: Clock)
    requires u < |s.threads| && t < |s.threads| && u != t && IsStuck(s, u) && VisitThread(s, t, now).PassedOver?
    ensures |VisitThread(s, t, now).s.threads| == |s.threads| && IsStuck(VisitThread(s, t, now).s, u)
  {
    PassOverFrame(s, t, now);
    if s.threads[t].active && s.threads[t].block.OnCondition? {
      var OnCondition(c, deadline) := s.threads[t].block;
      PassedOverQueue(s, t, c, deadline, now);
    }
  }

  lemma PassedOverQueue(s: System, t: nat, c: nat, deadline: Option<int>, now: Clock)
    requires t < |s.threads| && VisitCondition(s, t, c, deadline, now).PassedOver?
    ensures var s' := VisitCondition(s, t, c, deadline, now).s;
            && c in s.conds && s.conds[c].mutex.Some? && s'.mutexes == s.mutexes
            && (forall k :: k in s.conds && k != c ==> k in s'.conds && s'.conds[k] == s.conds[k])
            && c in s'.conds && s'.conds[c].mutex == s.conds[c].mutex
            && (s'.conds[c].waking != s.conds[c].waking ==> IsLocked(s, s.conds[c].mutex.value))
  {
  }

  /** The candidates before the `i`th are stuck. */
  ghost predicate StuckUpTo(s: System, s1: System, i: nat)
    requires s.Valid() && |s1.threads| == |s.threads|
  {
    forall j: nat :: j < i ==> IsStuck(s1, Candidate(s, j))
  }

  lemma OneMoreStuck(s: System, s1: System, i: nat, now: Clock)
    requires s.Valid() && |s1.threads| == |s.threads| && i < |s.threads| && StuckUpTo(s, s1, i)
    requires var v := VisitThread(s1, Candidate(s, i), now); v.PassedOver? && v.awakening.None?
    ensures var s2 := VisitThread(s1, Candidate(s, i), now).s; |s2.threads| == |s.threads| && StuckUpTo(s, s2, i + 1)
  {
    var t := Candidate(s, i);
    PassedOverIsStuck(s1, t, now);
    forall j: nat | j < i + 1 ensures IsStuck(VisitThread(s1, t, now).s, Candidate(s, j)) {
      if j < i {
        CandidatesDiffer(s, j, i);
        StuckStays(s1, Candidate(s, j), t, now);
      }
    }
  }

  lemma {:induction false} PassWithoutTimers(s: System, s1: System, clocks: seq<Clock>, i: nat, earlier: Option<int>)
    requires s.Valid() && |clocks| == |s.threads| && i <= |s.threads| && PassedTo(s, s1, i)
    requires ScanFrom(s1, clocks, i, earlier).AllBlocked? && ScanFrom(s1, clocks, i, earlier).nextAwakening.None?
    requires StuckUpTo(s, s1, i)
    ensures var s' := ScanFrom(s1, clocks, i, earlier).s; |s'.threads| == |s.threads| && StuckUpTo(s, s', |s.threads|)
    decreases |s.threads| - i
  {
    ScanKeepsShape(s1, clocks, i, earlier);
    if i < |s.threads| {
      var t := Candidate(s, i);
      assert t == Candidate(s1, i);
      var v := VisitThread(s1, t, clocks[i]);
      UnvisitedKept(s, s1, i);
      PassedOverWakesAt(s1, t, clocks[i]);
      AwakensAtEarliest(s, s1, clocks, i, earlier);
      assert CandidateWakesAt(s, clocks, i).None?;
      PassOver(s, s1, i, clocks[i]);
      OneMoreStuck(s, s1, i, clocks[i]);
      PassWithoutTimers(s, v.s, clocks, i + 1, Earlier(earlier, v.awakening));
    }
  }

  /** After a pass that finds neither a thread nor a time to wake at, everybody is stuck. */
  lemma FruitlessPass(s: System, clocks: seq<Clock>)
    requires s.Valid() && |clocks| == |s.threads|
    requires ScanFrom(s, clocks, 0, None).AllBlocked? && ScanFrom(s, clocks, 0, None).nextAwakening.None?
    ensures AllStuck(ScanFrom(s, clocks, 0, None).s)
  {
    var s' := ScanFrom(s, clocks, 0, None).s;
    ScanKeepsShape(s, clocks, 0, None);
    PassWithoutTimers(s, s, clocks, 0, None);
    forall u | 0 <= u < |s'.threads| ensures IsStuck(s', u) {
      PlaceOf(s, u);
    }
  }

  /** And every further pass, whatever the clocks say, finds the same. */
  lemma {:induction false} StuckForEver(s: System, clocks: seq<Clock>, i: nat, earlier: Option<int>)
    requires s.Valid() && |clocks| == |s.threads| && i <= |s.threads| && AllStuck(s)
    ensures ScanFrom(s, clocks, i, earlier) == AllBlocked(s, earlier)
    decreases |s.threads| - i
  {
    if i < |s.threads| {
      StuckIsPassedOver(s, Candidate(s, i));
      assert VisitThread(s, Candidate(s, i), clocks[i]) == PassedOver(s, None);
      assert Earlier(earlier, None) == earlier;
      StuckForEver(s, clocks, i + 1, earlier);
    }
  }

  /**
   The emulator gives up only when no visit at any time could choose anybody: every thread is passed
   over, without a change and without a time to wake at.
   */
  lemma {:induction false} DeadlockMeansStuck(s: System, readings: seq<seq<Clock>>, grace: nat)
    requires s.Valid() && forall i :: 0 <= i < |readings| ==> |readings[i]| == |s.threads|
    requires ScheduleFrom(s, readings, grace).Deadlocked?
    ensures var s' := ScheduleFrom(s, readings, grace).s;
            forall u, now: Clock :: 0 <= u < |s'.threads| ==> VisitThread(s', u, now) == PassedOver(s', None)
    decreases |readings|
  {
    ScanKeepsShape(s, readings[0], 0, None);
    match ScanFrom(s, readings[0], 0, None)
    case AllBlocked(s', Some(_)) => DeadlockMeansStuck(s', readings[1..], grace);
    case AllBlocked(s', None) =>
      if grace >= DEADLOCK_GRACE {
        FruitlessPass(s, readings[0]);
        forall u, now: Clock | 0 <= u < |s'.threads| ensures VisitThread(s', u, now) == PassedOver(s', None) {
          StuckIsPassedOver(s', u);
        }
      } else {
        DeadlockMeansStuck(s', readings[1..], grace + 1);
      }
    case _ =>
  }

  lemma {:induction false} StuckUsesUpGrace(s: System, readings: seq<seq<Clock>>, grace: nat)
    requires s.Valid() && forall i :: 0 <= i < |readings| ==> |readings[i]| == |s.threads|
    requires AllStuck(s)
    ensures ScheduleFrom(s, readings, grace) ==
            if readings != [] && grace + |readings| > DEADLOCK_GRACE then Deadlocked(s)
            else Waiting(s, grace + |readings|)
    decreases |readings|
  {
    if readings != [] {
      StuckForEver(s, readings[0], 0, None);
      if grace < DEADLOCK_GRACE {
        StuckUsesUpGrace(s, readings[1..], grace + 1);
      }
    }
  }

  /**
   The passes that the grace lets through are futile: once one pass has found neither a thread nor a
   time to wake at, as many follow as there is grace left, and then the emulator gives up.
   */
  lemma GraceIsFutile(s: System, readings: seq<seq<Clock>>, grace: nat)
    requires s.Valid() && forall i :: 0 <= i < |readings| ==> |readings[i]| == |s.threads|
    requires readings != []
    requires ScanFrom(s, readings[0], 0, None).AllBlocked? && ScanFrom(s, readings[0], 0, None).nextAwakening.None?
    ensures var s' := ScanFrom(s, readings[0], 0, None).s;
            ScheduleFrom(s, readings, grace) ==
            if |readings| - 1 >= DEADLOCK_GRACE - grace then Deadlocked(s') else Waiting(s', grace + |readings|)
  {
    ScanKeepsShape(s, readings[0], 0, None);
    FruitlessPass(s, readings[0]);
    if grace < DEADLOCK_GRACE {
      StuckUsesUpGrace(ScanFrom(s, readings[0], 0, None).s, readings[1..], grace + 1);
    }
  }

  /** So a choice never costs any grace, and every call starts with the grace of the first. */
  lemma {:induction false} ChoiceKeepsGrace(s: System, readings: seq<seq<Clock>>, grace: nat)
    requires s.Valid() && forall i :: 0 <= i < |readings| ==> |readings[i]| == |s.threads|
    requires ScheduleFrom(s, readings, grace).Chose?
    ensures ScheduleFrom(s, readings, grace).grace == grace
    decreases |readings|
  {
    ScanKeepsShape(s, readings[0], 0, None);
    match ScanFrom(s, readings[0], 0, None)
    case AllBlocked(s', Some(_)) => ChoiceKeepsGrace(s', readings[1..], grace);
    case AllBlocked(_, None) => GraceIsFutile(s, readings, grace);
    case _ =>
  }
}
