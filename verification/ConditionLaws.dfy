/** The queues of a condition variable and the threads blocked on it, over every run. */
module ConditionLaws {
  import opened Wrappers
  import opened ThreadState
  import opened SchedulerPass
  import opened SchedulerSteps

  function Queue(cond: Condition): seq<nat> {
    cond.waking + cond.waiting
  }

  ghost predicate Distinct(q: seq<nat>) {
    forall i, j :: 0 <= i < j < |q| ==> q[i] != q[j]
  }

  predicate BlockedOn(block: ThreadBlock, c: nat) {
    Underlying(block).OnCondition? && Underlying(block).cond == c
  }

  /** The thread, suspended or not, is blocked on the condition variable. */
  predicate WaitsOn(s: System, t: nat, c: nat) {
    t < |s.threads| && BlockedOn(s.threads[t].block, c)
  }

  predicate InWaitOn(s: System, t: nat, c: nat) {
    t < |s.threads| && s.threads[t].continuation == InConditionWait(c)
  }

  predicate Queued(s: System, t: nat, c: nat) {
    c in s.conds && t in Queue(s.conds[c])
  }

  /** A thread that timed out is inside its wait but in neither queue. */
  ghost predicate TimedOutApart(s: System, c: nat) {
    c in s.conds ==> forall t :: t in s.conds[c].timedOut ==> InWaitOn(s, t, c) && !WaitsOn(s, t, c)
  }

  /**
   The queues hold each waiting thread exactly once and nobody else, they have a mutex, and timed-out
   threads are apart from them.
   */
  ghost predicate Consistent(s: System, c: nat) {
    && (forall t: nat :: WaitsOn(s, t, c) <==> Queued(s, t, c))
    && (forall t: nat :: WaitsOn(s, t, c) ==> InWaitOn(s, t, c))
    && (c in s.conds ==> Distinct(Queue(s.conds[c])) && (Queue(s.conds[c]) != [] ==> s.conds[c].mutex.Some?))
    && TimedOutApart(s, c)
  }

  /** Re-initialising a condition variable that has waiters, which the source allows, forgets them. */
  ghost predicate ForgetsWaiters(s: System, e: Event, c: nat) {
    e == Do(CondAction(InitCond(c))) && c in s.conds && Queue(s.conds[c]) != []
  }

  // ---------- Queue lemmas ----------

  lemma {:induction false} WithoutMembers(q: seq<nat>, t: nat)
    ensures forall u :: u in Without(q, t) <==> u in q && u != t
  {
    if q != [] {
      WithoutMembers(q[1..], t);
      assert q == [q[0]] + q[1..];
    }
  }

  lemma {:induction false} WithoutDistinct(q: seq<nat>, t: nat)
    requires Distinct(q)
    ensures Distinct(Without(q, t))
  {
    if q != [] {
      assert forall i, j :: 0 <= i < j < |q[1..]| ==> q[1..][i] == q[i + 1] != q[j + 1] == q[1..][j];
      WithoutDistinct(q[1..], t);
      WithoutMembers(q[1..], t);
      assert forall i :: 0 <= i < |q[1..]| ==> q[1..][i] == q[i + 1];
      assert q[0] !in Without(q[1..], t);
    }
  }

  lemma {:induction false} WithoutConcat(p: seq<nat>, q: seq<nat>, t: nat)
    ensures Without(p + q, t) == Without(p, t) + Without(q, t)
  {
    if p == [] {
      assert p + q == q;
    } else {
      assert (p + q)[1..] == p[1..] + q;
      WithoutConcat(p[1..], q, t);
    }
  }

  lemma WithoutQueue(cond: Condition, t: nat)
    requires Distinct(Queue(cond))
    ensures var q := Without(cond.waking, t) + Without(cond.waiting, t);
            Distinct(q) && forall u :: u in q <==> u in Queue(cond) && u != t
  {
    WithoutConcat(cond.waking, cond.waiting, t);
    WithoutDistinct(Queue(cond), t);
    WithoutMembers(Queue(cond), t);
  }

  lemma PoppedQueue(cond: Condition)
    requires Distinct(Queue(cond)) && cond.waking != []
    ensures var q := cond.waking[1..] + cond.waiting;
            Distinct(q) && forall u :: u in q <==> u in Queue(cond) && u != cond.waking[0]
  {
    var q := cond.waking[1..] + cond.waiting;
    assert Queue(cond) == [cond.waking[0]] + q;
    assert forall i :: 0 <= i < |q| ==> q[i] == Queue(cond)[i + 1];
    forall u ensures u in q <==> u in Queue(cond) && u != cond.waking[0] {
      if u in q {
        var i :| 0 <= i < |q| && q[i] == u;
        assert Queue(cond)[i + 1] == u && Queue(cond)[0] == cond.waking[0];
      }
    }
  }

  // ---------- The scheduler ----------

  /** A thread leaves the queues as it stops waiting, perhaps by timing out. */
  ghost predicate LeavesQueue(s: System, s': System, t: nat, c: nat) {
    && c in s.conds && c in s'.conds
    && |s'.threads| == |s.threads|
    && (forall u: nat :: WaitsOn(s', u, c) <==> WaitsOn(s, u, c) && u != t)
    && (forall u: nat :: InWaitOn(s', u, c) == InWaitOn(s, u, c))
    && Distinct(Queue(s'.conds[c])) && (forall u :: u in Queue(s'.conds[c]) <==> u in Queue(s.conds[c]) && u != t)
    && s'.conds[c].mutex == s.conds[c].mutex
    && s'.conds[c].timedOut <= s.conds[c].timedOut + {t}
  }

  lemma LeavingKeepsConsistent(s: System, s': System, t: nat, c: nat)
    requires Consistent(s, c) && WaitsOn(s, t, c) && LeavesQueue(s, s', t, c)
    ensures Consistent(s', c)
  {
    assert InWaitOn(s, t, c) && Queued(s, t, c);
    forall u: nat ensures WaitsOn(s', u, c) <==> Queued(s', u, c) {
      assert WaitsOn(s, u, c) <==> Queued(s, u, c);
    }
  }

  lemma VisitConditionKeepsConsistent(s: System, t: nat, deadline: Option<int>, now: Clock, c: nat)
    requires t < |s.threads| && s.threads[t].block == OnCondition(c, deadline) && Consistent(s, c)
    requires !VisitCondition(s, t, c, deadline, now).VisitPanicked?
    ensures Consistent(VisitCondition(s, t, c, deadline, now).s, c)
  {
    var s', cond := VisitCondition(s, t, c, deadline, now).s, s.conds[c];
    assert WaitsOn(s, t, c) && Queued(s, t, c);
    if s' != s {
      assert s'.threads == s.threads[t := s'.threads[t]] && s'.threads[t].continuation == s.threads[t].continuation;
      if s'.conds[c].timedOut == cond.timedOut {
        PoppedQueue(cond);
        RemovalLeavesQueue(s, s', t, c);
      } else {
        WithoutQueue(cond, t);
        RemovalLeavesQueue(s, s', t, c);
      }
      LeavingKeepsConsistent(s, s', t, c);
    }
  }

  lemma RemovalLeavesQueue(s: System, s': System, t: nat, c: nat)
    requires Consistent(s, c) && c in s.conds && c in s'.conds && t < |s.threads| == |s'.threads|
    requires s'.threads == s.threads[t := s'.threads[t]] && s'.threads[t].continuation == s.threads[t].continuation
    requires !BlockedOn(s'.threads[t].block, c)
    requires Distinct(Queue(s'.conds[c])) && (forall u :: u in Queue(s'.conds[c]) <==> u in Queue(s.conds[c]) && u != t)
    requires s'.conds[c].mutex == s.conds[c].mutex && s'.conds[c].timedOut <= s.conds[c].timedOut + {t}
    ensures LeavesQueue(s, s', t, c)
  {
  }

  /** A visit to a waiter of another condition variable. */
  lemma VisitOtherConditionKeepsConsistent(s: System, t: nat, c': nat, deadline: Option<int>, now: Clock, c: nat)
    requires t < |s.threads| && s.threads[t].block == OnCondition(c', deadline) && Consistent(s, c) && c != c'
    requires !VisitCondition(s, t, c', deadline, now).VisitPanicked?
    ensures Consistent(VisitCondition(s, t, c', deadline, now).s, c)
  {
    OtherConditionFrame(s, t, c', deadline, now, c);
    UnrelatedKeepsConsistent(s, VisitCondition(s, t, c', deadline, now).s, c);
  }

  lemma OtherConditionFrame(s: System, t: nat, c': nat, deadline: Option<int>, now: Clock, c: nat)
    requires t < |s.threads| && s.threads[t].block == OnCondition(c', deadline) && c != c'
    requires !VisitCondition(s, t, c', deadline, now).VisitPanicked?
    ensures var s' := VisitCondition(s, t, c', deadline, now).s;
            && (c in s.conds <==> c in s'.conds) && (c in s.conds ==> s'.conds[c] == s.conds[c])
            && |s'.threads| == |s.threads| && s'.threads == s.threads[t := s.threads[t].(block := s'.threads[t].block)]
            && (s'.threads[t].block == s.threads[t].block || s'.threads[t].block.NotBlocked?
                || s'.threads[t].block.OnMutex?)
  {
  }

  lemma VisitKeepsConsistent(s: System, t: nat, now: Clock, c: nat)
    requires t < |s.threads| && Consistent(s, c) && !VisitThread(s, t, now).VisitPanicked?
    requires s.threads[t].block.OnCondition? ==> Consistent(s, s.threads[t].block.cond)
    ensures Consistent(VisitThread(s, t, now).s, c)
  {
    if s.threads[t].active && s.threads[t].block.OnCondition? {
      var OnCondition(c', deadline) := s.threads[t].block;
      if c' == c {
        VisitConditionKeepsConsistent(s, t, deadline, now, c);
      } else {
        VisitOtherConditionKeepsConsistent(s, t, c', deadline, now, c);
      }
    } else {
      VisitElsewhere(s, t, now, c);
    }
  }

  lemma VisitElsewhere(s: System, t: nat, now: Clock, c: nat)
    requires t < |s.threads| && Consistent(s, c) && !VisitThread(s, t, now).VisitPanicked?
    requires !(s.threads[t].active && s.threads[t].block.OnCondition?)
    ensures Consistent(VisitThread(s, t, now).s, c)
  {
    ElsewhereFrame(s, t, now);
    UnrelatedKeepsConsistent(s, VisitThread(s, t, now).s, c);
  }

  lemma ElsewhereFrame(s: System, t: nat, now: Clock)
    requires t < |s.threads| && !VisitThread(s, t, now).VisitPanicked?
    requires !(s.threads[t].active && s.threads[t].block.OnCondition?)
    ensures var s' := VisitThread(s, t, now).s;
            && s'.conds == s.conds
            && (s'.threads == s.threads
                || (!s.threads[t].block.Suspended? && !s.threads[t].block.OnCondition?
                    && s'.threads == s.threads[t := s.threads[t].(block := NotBlocked)]))
  {
  }

  lemma {:induction false} ScanKeepsConsistent(s: System, clocks: seq<Clock>, i: nat, nextAwakening: Option<int>,
                                               c: nat)
    requires s.Valid() && |clocks| == |s.threads| && i <= |s.threads|
    requires forall k :: Consistent(s, k)
    requires !ScanFrom(s, clocks, i, nextAwakening).ScanPanicked?
    ensures Consistent(ScanFrom(s, clocks, i, nextAwakening).s, c)
    decreases |s.threads| - i
  {
    if i < |s.threads| {
      var t := Candidate(s, i);
      forall k ensures Consistent(VisitThread(s, t, clocks[i]).s, k) {
        VisitKeepsConsistent(s, t, clocks[i], k);
      }
      match VisitThread(s, t, clocks[i])
      case PassedOver(s', awakening) =>
        VisitKeepsShape(s, t, clocks[i]);
        ScanKeepsConsistent(s', clocks, i + 1, Earlier(nextAwakening, awakening), c);
      case _ =>
    }
  }

  /**
   In a consistent state the scheduler's own assertions about a condition waiter never fail: the
   visit can only panic because the condition's mutex has been destroyed.
   */
  lemma VisitConditionPanicsOnlyWithoutMutex(s: System, t: nat, c: nat, deadline: Option<int>, now: Clock)
    requires t < |s.threads| && s.threads[t].block == OnCondition(c, deadline) && Consistent(s, c)
    ensures c in s.conds && s.conds[c].mutex.Some?
    ensures VisitCondition(s, t, c, deadline, now).VisitPanicked? ==> s.conds[c].mutex.value !in s.mutexes
  {
    assert WaitsOn(s, t, c) && Queued(s, t, c);
  }

  /**
   A waiter whose deadline has passed leaves both queues; it owns the mutex if that was free, and
   otherwise blocks on it.
   */
  lemma TimeoutOutcome(s: System, t: nat, c: nat, deadline: int, now: Clock)
    requires t < |s.threads| && s.threads[t].active && s.threads[t].block == OnCondition(c, Some(deadline))
    requires Consistent(s, c) && deadline <= now.unix && c in s.conds && s.conds[c].mutex.Some?
    requires var cond := s.conds[c]; !(cond.waking != [] && cond.waking[0] == t && !IsLocked(s, cond.mutex.value))
    requires s.conds[c].mutex.value in s.mutexes
    ensures var (v, m) := (VisitThread(s, t, now), s.conds[c].mutex.value);
            && !v.VisitPanicked? && t in v.s.conds[c].timedOut && t !in Queue(v.s.conds[c])
            && (if IsLocked(s, m) then v.PassedOver? && v.s.threads[t].block == OnMutex(m) && v.s.mutexes == s.mutexes
                else v.Chosen? && v.s.threads[t].block == NotBlocked && v.s.mutexes[m].locked == Some((t, 1)))
  {
    assert WaitsOn(s, t, c) && Queued(s, t, c) && InWaitOn(s, t, c);
    WithoutMembers(s.conds[c].waking, t);
    WithoutMembers(s.conds[c].waiting, t);
  }

  // ---------- The calls ----------

  /** Steps that leave the condition and everybody's relation to it alone. */
  lemma UnrelatedKeepsConsistent(s: System, s': System, c: nat)
    requires Consistent(s, c)
    requires (c in s.conds <==> c in s'.conds) && (c in s.conds ==> s'.conds[c] == s.conds[c])
    requires forall t: nat :: WaitsOn(s', t, c) == WaitsOn(s, t, c) && (InWaitOn(s, t, c) ==> InWaitOn(s', t, c))
    ensures Consistent(s', c)
  {
    assert forall t: nat :: Queued(s', t, c) == Queued(s, t, c);
  }

  lemma WaitJoinsQueue(s: System, c: nat, m: nat, deadline: Option<int>, k: nat)
    requires s.Valid() && Consistent(s, k) && s.threads[s.current].block.NotBlocked?
    requires s.threads[s.current].continuation == Plain && !CondWait(s, c, m, deadline).Panicked?
    ensures Consistent(After(CondWait(s, c, m, deadline)), k)
  {
    var s' := After(CondWait(s, c, m, deadline));
    WaitShape(s, c, m, deadline);
    assert !WaitsOn(s, s.current, k) && !InWaitOn(s, s.current, k);
    if CondWait(s, c, m, deadline).Yielded? && c == k {
      JoiningKeepsConsistent(s, s', c);
    } else {
      UnrelatedKeepsConsistent(s, s', k);
    }
  }

  /** What a condition wait changes in the threads and the condition variables. */
  lemma WaitShape(s: System, c: nat, m: nat, deadline: Option<int>)
    requires s.Valid() && !CondWait(s, c, m, deadline).Panicked?
    ensures var s' := After(CondWait(s, c, m, deadline));
            if CondWait(s, c, m, deadline).Yielded? then
              && c in s.conds
              && s'.threads == s.threads[s.current := s.threads[s.current].(continuation := InConditionWait(c),
                      block := OnCondition(c, deadline))]
              && s'.conds == s.conds[c := s.conds[c].(mutex := Some(m), waiting := s.conds[c].waiting + [s.current])]
            else s'.threads == s.threads && s'.conds == s.conds
  {
    assert UnlockMutex(s, m).Returned? ==>
        UnlockMutex(s, m).s.threads == s.threads && UnlockMutex(s, m).s.conds == s.conds;
  }

  lemma JoiningKeepsConsistent(s: System, s': System, c: nat)
    requires s.Valid() && Consistent(s, c) && c in s.conds && c in s'.conds && |s'.threads| == |s.threads|
    requires !WaitsOn(s, s.current, c) && !InWaitOn(s, s.current, c)
    requires s'.threads == s.threads[s.current := s'.threads[s.current]]
    requires WaitsOn(s', s.current, c) && InWaitOn(s', s.current, c)
    requires Queue(s'.conds[c]) == Queue(s.conds[c]) + [s.current]
    requires s'.conds[c].mutex.Some? && s'.conds[c].timedOut == s.conds[c].timedOut
    ensures Consistent(s', c)
  {
    assert !Queued(s, s.current, c);
    forall t: nat ensures (WaitsOn(s', t, c) <==> Queued(s', t, c)) && (WaitsOn(s', t, c) ==> InWaitOn(s', t, c)) {
      assert WaitsOn(s, t, c) <==> Queued(s, t, c);
      if t != s.current {
        assert WaitsOn(s', t, c) == WaitsOn(s, t, c) && InWaitOn(s', t, c) == InWaitOn(s, t, c);
      }
    }
    forall t | t in s'.conds[c].timedOut ensures InWaitOn(s', t, c) && !WaitsOn(s', t, c) {
      assert InWaitOn(s, t, c);
    }
  }

  lemma FinishLeavesWait(s: System, k: nat)
    requires s.Valid() && Consistent(s, k) && s.threads[s.current].block.NotBlocked?
    requires s.threads[s.current].continuation.InConditionWait? && !CondFinish(s).Panicked?
    ensures Consistent(CondFinish(s).s, k)
  {
    var s', c := CondFinish(s).s, s.threads[s.current].continuation.cond;
    assert !WaitsOn(s, s.current, k);
    forall t: nat ensures WaitsOn(s', t, k) == WaitsOn(s, t, k) && Queued(s', t, k) == Queued(s, t, k)
                          && (t != s.current ==> InWaitOn(s', t, k) == InWaitOn(s, t, k)) {}
    if k in s'.conds {
      forall t | t in s'.conds[k].timedOut ensures InWaitOn(s', t, k) && !WaitsOn(s', t, k) {
        assert InWaitOn(s, t, k);
      }
    }
  }

  lemma SignalMovesWaiter(s: System, call: CondCall, k: nat)
    requires s.Valid() && Consistent(s, k) && (call.Signal? || call.Broadcast?) && !DoCondCall(s, call).Panicked?
    ensures Consistent(DoCondCall(s, call).s, k)
  {
    var s' := DoCondCall(s, call).s;
    SignalFrame(s, call, k);
    forall t: nat ensures WaitsOn(s', t, k) == WaitsOn(s, t, k) && InWaitOn(s', t, k) == InWaitOn(s, t, k)
                          && Queued(s', t, k) == Queued(s, t, k) {}
  }

  lemma SignalFrame(s: System, call: CondCall, k: nat)
    requires s.Valid() && (call.Signal? || call.Broadcast?) && !DoCondCall(s, call).Panicked?
    ensures var s' := DoCondCall(s, call).s;
            && s'.threads == s.threads && (k in s'.conds <==> k in s.conds)
            && (k in s.conds ==> Queue(s'.conds[k]) == Queue(s.conds[k]) && s'.conds[k].mutex == s.conds[k].mutex
                                 && s'.conds[k].timedOut == s.conds[k].timedOut)
  {
    if call.c == k {
      SignalQueue(s.conds[k]);
    }
  }

  lemma SignalQueue(cond: Condition)
    ensures cond.waiting != [] ==> cond.waking + [cond.waiting[0]] + cond.waiting[1..] == Queue(cond)
    ensures cond.waking + cond.waiting + [] == Queue(cond)
  {
  }

  /** Condition calls keep the queues consistent, except for the one that forgets its waiters. */
  lemma CondCallsKeepConsistent(s: System, call: CondCall, k: nat)
    requires s.Valid() && Consistent(s, k) && s.threads[s.current].block.NotBlocked? && !DoCondCall(s, call).Panicked?
    requires s.threads[s.current].continuation.InConditionWait? <==> call == FinishWait
    ensures Consistent(After(DoCondCall(s, call)), k) <==> !ForgetsWaiters(s, Do(CondAction(call)), k)
  {
    var s' := After(DoCondCall(s, call));
    match call
    case WaitCond(c, m, deadline) => WaitJoinsQueue(s, c, m, deadline, k);
    case FinishWait => FinishLeavesWait(s, k);
    case Signal(c) => SignalMovesWaiter(s, call, k);
    case Broadcast(c) => SignalMovesWaiter(s, call, k);
    case InitCond(c) => InitForgets(s, c, k);
    case DestroyCond(c) =>
      forall t: nat ensures WaitsOn(s', t, k) == WaitsOn(s, t, k) && InWaitOn(s', t, k) == InWaitOn(s, t, k)
                            && Queued(s', t, k) == Queued(s, t, k) {}
  }

  lemma InitForgets(s: System, c: nat, k: nat)
    requires s.Valid() && Consistent(s, k)
    ensures Consistent(CondInit(s, c).s, k) <==> !ForgetsWaiters(s, Do(CondAction(InitCond(c))), k)
  {
    var s' := CondInit(s, c).s;
    assert forall t: nat :: WaitsOn(s', t, k) == WaitsOn(s, t, k) && InWaitOn(s', t, k) == InWaitOn(s, t, k);
    if c == k && k in s.conds && Queue(s.conds[k]) != [] {
      var t := Queue(s.conds[k])[0];
      assert Queued(s, t, k) && WaitsOn(s', t, k) && !Queued(s', t, k);
    } else {
      assert forall t: nat :: Queued(s', t, k) == Queued(s, t, k);
    }
  }

  // ---------- Runs ----------

  lemma ActKeepsConsistent(s: System, action: Action, c: nat)
    requires Sound(s) && MayDo(s, action) && !Act(s, action).Panicked? && Consistent(s, c)
    ensures Consistent(After(Act(s, action)), c) <==> !ForgetsWaiters(s, Do(action), c)
  {
    if action.CondAction? {
      CondCallsKeepConsistent(s, action.condCall, c);
    } else {
      OtherActsKeepWaits(s, action, c);
      UnrelatedKeepsConsistent(s, After(Act(s, action)), c);
    }
  }

  lemma OtherActsKeepWaits(s: System, action: Action, c: nat)
    requires Sound(s) && s.threads[s.current].block.NotBlocked? && !Act(s, action).Panicked? && !action.CondAction?
    ensures var s' := After(Act(s, action));
            s'.conds == s.conds
            && forall t: nat :: WaitsOn(s', t, c) == WaitsOn(s, t, c) && (InWaitOn(s, t, c) ==> InWaitOn(s', t, c))
  {
    var s' := After(Act(s, action));
    ActBlocks(s, action);
    OtherActsKeepConditions(s, action);
    forall t: nat ensures WaitsOn(s', t, c) == WaitsOn(s, t, c) {
      if t < |s.threads| && t != s.current {
        assert WellSuspended(s.threads[t].block);
      }
    }
  }

  lemma OtherActsKeepConditions(s: System, action: Action)
    requires s.Valid() && !action.CondAction? && !Act(s, action).Panicked?
    ensures KeepsConditions(s, After(Act(s, action)))
  {
    match action
    case MutexAction(call) => MutexCallKeepsConditions(s, call);
    case SemAction(call) => SemCallKeepsConditions(s, call);
    case Suspend(t) => SuspendKeepsConditions(s, t);
    case Resume(t) => ResumeKeepsConditions(s, t);
    case _ =>
  }

  lemma SuspendKeepsConditions(s: System, t: nat)
    requires s.Valid() && !SuspendThread(s, t).Panicked?
    ensures KeepsConditions(s, After(SuspendThread(s, t)))
  {
  }

  lemma ResumeKeepsConditions(s: System, t: nat)
    requires !ResumeThread(s, t).Panicked?
    ensures KeepsConditions(s, After(ResumeThread(s, t)))
  {
  }

  ghost predicate KeepsConditions(s: System, s': System) {
    s'.conds == s.conds && |s.threads| <= |s'.threads|
    && forall t :: 0 <= t < |s.threads| ==> s'.threads[t].continuation == s.threads[t].continuation
  }

  lemma LockKeepsConditions(s: System, m: nat)
    requires s.Valid() && !LockMutex(s, m).Panicked?
    ensures KeepsConditions(s, After(LockMutex(s, m)))
  {
  }

  lemma UnlockKeepsConditions(s: System, m: nat)
    requires !UnlockMutex(s, m).Panicked?
    ensures KeepsConditions(s, After(UnlockMutex(s, m)))
  {
  }

  lemma MutexCallKeepsConditions(s: System, call: MutexCall)
    requires s.Valid() && !DoMutexCall(s, call).Panicked?
    ensures KeepsConditions(s, After(DoMutexCall(s, call)))
  {
    match call
    case Lock(m) => LockKeepsConditions(s, m);
    case Unlock(m) => UnlockKeepsConditions(s, m);
    case _ =>
  }

  lemma SemCallKeepsConditions(s: System, call: SemCall)
    requires s.Valid() && !DoSemCall(s, call).Panicked?
    ensures KeepsConditions(s, After(DoSemCall(s, call)))
  {
  }

  lemma InitiallyConsistent(host: nat, cpu: nat, c: nat)
    ensures Consistent(InitialState(host, cpu), c)
  {
    assert forall t: nat :: !WaitsOn(InitialState(host, cpu), t, c);
  }

  /** A step keeps the queues consistent exactly when it is not a re-initialisation that forgets waiters. */
  lemma StepKeepsConsistent(s: System, e: Event, c: nat)
    requires Sound(s) && Step(s, e).Some? && forall k :: Consistent(s, k)
    ensures Consistent(Step(s, e).value, c) <==> !ForgetsWaiters(s, e, c)
  {
    match e
    case Do(action) => ActKeepsConsistent(s, action, c);
    case Schedule(clocks) =>
      var mid := ScheduleStep(s, clocks);
      ScanKeepsConsistent(s, clocks, 0, None, c);
      UnrelatedKeepsConsistent(mid, Step(s, e).value, c);
  }

  /**
   Over every run that never re-initialises a condition variable with waiters: each waiting thread is
   in exactly one queue, once; a timed-out thread is in neither queue.
   */
  lemma {:induction false} QueuesStayConsistent(states: seq<System>, events: seq<Event>)
    requires IsRun(states, events) && Sound(states[0]) && forall c :: Consistent(states[0], c)
    requires forall i, c :: 0 <= i < |events| ==> !ForgetsWaiters(states[i], events[i], c)
    ensures Sound(states[|events|]) && forall c :: Consistent(states[|events|], c)
    decreases |events|
  {
    if events != [] {
      var n := |events| - 1;
      RunPrefix(states, events, n);
      QueuesStayConsistent(states[..n + 1], events[..n]);
      StepKeepsSound(states[n], events[n]);
      var end := states[n + 1];
      forall c: nat ensures Consistent(end, c) {
        assert !ForgetsWaiters(states[n], events[n], c);
        StepKeepsConsistent(states[n], events[n], c);
      }
    }
  }

  lemma TimedOutThreadIsInNeitherQueue(s: System, c: nat, t: nat)
    requires Consistent(s, c) && c in s.conds && t in s.conds[c].timedOut
    ensures t !in s.conds[c].waiting && t !in s.conds[c].waking && !WaitsOn(s, t, c)
  {
    assert WaitsOn(s, t, c) <==> Queued(s, t, c);
  }

  /** The main thread waits on a condition variable while a second thread runs. */
  function MainWaits(host: nat, cpu: nat, guest: nat, host1: nat, c: nat, m: nat, deadline: Option<int>): System {
    System(1, true, Some(host1), guest,
           [Thread(true, OnCondition(c, deadline), None, InConditionWait(c), Some(cpu), Some(host)),
            Thread(true, NotBlocked, None, Plain, None, None)],
           map[m := Mutex(Normal, 0, None)], map[], map[c := Condition([0], [], Some(m), {})], map[])
  }

  /** The main thread is about to do so. */
  function BeforeWait(host: nat, cpu: nat, guest: nat, host1: nat, c: nat, m: nat): System {
    System(0, true, Some(host), cpu,
           [Thread(true, NotBlocked, None, Plain, None, None),
            Thread(true, NotBlocked, None, Plain, Some(guest), Some(host1))],
           map[m := Mutex(Normal, 0, Some((0, 1)))], map[], map[c := Condition([], [], None, {})], map[])
  }

  lemma ReachesWait(host: nat, cpu: nat, guest: nat, host1: nat, c: nat, m: nat)
    returns (s0: System, s1: System, s2: System, s3: System)
    ensures s0 == InitialState(host, cpu) && Step(s0, Do(Create(guest, host1))) == Some(s1)
    ensures Step(s1, Do(MutexAction(InitMutex(m, Normal)))) == Some(s2)
    ensures Step(s2, Do(MutexAction(Lock(m)))) == Some(s3)
    ensures Step(s3, Do(CondAction(InitCond(c)))) == Some(BeforeWait(host, cpu, guest, host1, c, m))
  {
    s0 := InitialState(host, cpu);
    s1 := Step(s0, Do(Create(guest, host1))).value;
    s2 := Step(s1, Do(MutexAction(InitMutex(m, Normal)))).value;
    s3 := Step(s2, Do(MutexAction(Lock(m)))).value;
    assert s3.mutexes == map[m := Mutex(Normal, 0, Some((0, 1)))];
    assert s3.threads == BeforeWait(host, cpu, guest, host1, c, m).threads;
  }

  lemma Waits(host: nat, cpu: nat, guest: nat, host1: nat, c: nat, m: nat, deadline: Option<int>, clocks: seq<Clock>)
    returns (s: System, s': System, s'': System)
    requires |clocks| == 2
    ensures s == BeforeWait(host, cpu, guest, host1, c, m) && s'' == MainWaits(host, cpu, guest, host1, c, m, deadline)
    ensures Step(s, Do(CondAction(WaitCond(c, m, deadline)))) == Some(s') && Step(s', Schedule(clocks)) == Some(s'')
  {
    s, s'' := BeforeWait(host, cpu, guest, host1, c, m), MainWaits(host, cpu, guest, host1, c, m, deadline);
    WaitReleasesMutex(s, c, m, deadline);
    s' := Step(s, Do(CondAction(WaitCond(c, m, deadline)))).value;
    SwitchesToSecond(s', clocks, guest, host1);
    assert Step(s', Schedule(clocks)).value.threads == s''.threads;
  }

  lemma MainWaitsIsReachable(host: nat, cpu: nat, guest: nat, host1: nat, c: nat, m: nat, deadline: Option<int>,
                             clocks: seq<Clock>)
    returns (states: seq<System>, events: seq<Event>)
    requires |clocks| == 2
    ensures IsRun(states, events) && states[0] == InitialState(host, cpu)
    ensures states[|events|] == MainWaits(host, cpu, guest, host1, c, m, deadline)
  {
    var s0, s1, s2, s3 := ReachesWait(host, cpu, guest, host1, c, m);
    var s4, s5, s6 := Waits(host, cpu, guest, host1, c, m, deadline, clocks);
    states, events := [s0], [];
    NoSteps(s0);
    states, events := Extended(states, events, Do(Create(guest, host1)), s1);
    states, events := Extended(states, events, Do(MutexAction(InitMutex(m, Normal))), s2);
    states, events := Extended(states, events, Do(MutexAction(Lock(m))), s3);
    states, events := Extended(states, events, Do(CondAction(InitCond(c))), s4);
    states, events := Extended(states, events, Do(CondAction(WaitCond(c, m, deadline))), s5);
    states, events := Extended(states, events, Schedule(clocks), s6);
  }

  lemma WaitReleasesMutex(s: System, c: nat, m: nat, deadline: Option<int>)
    requires s.current == 0 && MayDo(s, CondAction(WaitCond(c, m, deadline)))
    requires s.mutexes == map[m := Mutex(Normal, 0, Some((0, 1)))] && s.conds == map[c := Condition([], [], None, {})]
    ensures Step(s, Do(CondAction(WaitCond(c, m, deadline)))) ==
            Some(s.(running := false, mutexes := map[m := Mutex(Normal, 0, None)],
                    conds := map[c := Condition([0], [], Some(m), {})],
                    threads := s.threads[0 := s.threads[0].(continuation := InConditionWait(c),
                                                            block := OnCondition(c, deadline))]))
  {
    WaitShape(s, c, m, deadline);
    var s' := Step(s, Do(CondAction(WaitCond(c, m, deadline)))).value;
    assert s'.conds[c] == Condition([0], [], Some(m), {});
    assert s'.conds == map[c := s'.conds[c]] && s'.mutexes == map[m := Mutex(Normal, 0, None)];
  }

  /**
   An input: from there the second thread makes the condition variable anew. The waiter is forgotten,
   and the scheduler panics the next time it looks at it.
   */
  lemma ReinitialisingForgetsWaiter(host: nat, cpu: nat, guest: nat, host1: nat, c: nat, m: nat, clocks: seq<Clock>)
    requires |clocks| == 2
    ensures var s, init := MainWaits(host, cpu, guest, host1, c, m, None), Do(CondAction(InitCond(c)));
            && ForgetsWaiters(s, init, c) && Step(s, init).Some? && !Consistent(Step(s, init).value, c)
            && Step(Step(s, init).value, Do(YieldTick)).Some?
            && Step(Step(Step(s, init).value, Do(YieldTick)).value, Schedule(clocks)).None?
  {
    var s := MainWaits(host, cpu, guest, host1, c, m, None);
    var s1 := Step(s, Do(CondAction(InitCond(c)))).value;
    assert WaitsOn(s1, 0, c) && !Queued(s1, 0, c);
    var s2 := Step(s1, Do(YieldTick)).value;
    assert Candidate(s2, 0) == 0;
  }
}
