/**
 The order in which waiters of a condition variable get their turn (src/libc/pthread/cond.rs,
 src/environment.rs:2586-2662): nobody is woken before a thread that began to wait earlier.
 */
module ConditionQueues {
  import opened Wrappers
  import opened ThreadState
  import opened SchedulerPass
  import opened SchedulerSteps
  import opened ConditionLaws
  import opened ConditionOutcomes

  /** In the queue, `u` comes before `v`. */
  ghost predicate Ahead(q: seq<nat>, u: nat, v: nat) {
    exists i, j :: 0 <= i < j < |q| && q[i] == u && q[j] == v
  }

  /** `u` has been waiting on the condition variable for longer than `v`. */
  ghost predicate WaitsLonger(s: System, c: nat, u: nat, v: nat) {
    c in s.conds && Ahead(Queue(s.conds[c]), u, v)
  }

  ghost predicate TimedOut(s: System, c: nat, v: nat) {
    c in s.conds && v in s.conds[c].timedOut
  }

  /** `u` is still ahead of `v`, unless it is done waiting or `v` has timed out. */
  ghost predicate InOrder(s: System, c: nat, u: nat, v: nat) {
    c in s.conds && (WaitsLonger(s, c, u, v) || !Queued(s, u, c) || TimedOut(s, c, v))
  }

  // ---------- The calls ----------

  /** A signal hands on exactly the thread that has waited longest without one, and a broadcast hands on all. */
  lemma SignalInOrder(s: System, c: nat)
    requires s.Valid() && c in s.conds
    ensures var (signal, cond) := (DoCondCall(s, Signal(c)), s.conds[c]);
            && signal.Returned? && signal.value == 0 && signal.s.conds.Keys == s.conds.Keys
            && Queue(signal.s.conds[c]) == Queue(cond)
            && |signal.s.conds[c].waking| == |cond.waking| + if cond.waiting == [] then 0 else 1
    ensures var broadcast := DoCondCall(s, Broadcast(c));
            && broadcast.Returned? && broadcast.value == 0 && broadcast.s.conds.Keys == s.conds.Keys
            && Queue(broadcast.s.conds[c]) == Queue(s.conds[c]) == broadcast.s.conds[c].waking
  {
    SignalQueue(s.conds[c]);
  }

  /** A condition variable is destroyed exactly if nobody waits for it. */
  lemma DestroyNeedsNoWaiters(s: System, c: nat)
    requires s.Valid() && c in s.conds
    ensures var r := DoCondCall(s, DestroyCond(c));
            if Queue(s.conds[c]) == [] then r.Returned? && r.value == 0 && r.s.conds == s.conds - {c} else r.Panicked?
  {
  }

  /** Once it runs again, a waiter ends its wait, which says whether it timed out. */
  lemma FinishEndsWait(s: System, c: nat)
    requires s.Valid() && s.threads[s.current].continuation == InConditionWait(c) && c in s.conds
    ensures var r := DoCondCall(s, FinishWait);
            && r.Returned? && r.value == (if s.current in s.conds[c].timedOut then 60 else 0)
            && r.s.Valid() && r.s.threads[s.current].continuation == Plain
            && c in r.s.conds && s.current !in r.s.conds[c].timedOut && Queue(r.s.conds[c]) == Queue(s.conds[c])
  {
  }

  /** The mutex is unlocked, or another thread's and does not allow that thread to be ignored. */
  predicate NotHeld(s: System, m: nat)
    requires m in s.mutexes
  {
    var mutex := s.mutexes[m];
    mutex.locked.None? || (mutex.locked.value.0 != s.current && !mutex.kind.Normal?)
  }

  /**
   How a wait begins: it fails without any change if the mutex is not held. Otherwise it blocks, unless the lock
   count is impossible for the mutex, the variable is unknown, or others wait on it with a different mutex.
   */
  lemma HowWaitBegins(s: System, c: nat, m: nat, deadline: Option<int>)
    requires s.Valid() && m in s.mutexes
    ensures var r := DoCondCall(s, WaitCond(c, m, deadline));
            if NotHeld(s, m) then r == Returned(s, 1)
            else
              var count := s.mutexes[m].locked.value.1;
              if count != 1 && (count == 0 || !s.mutexes[m].kind.Recursive?) then r.Panicked?
              else if c !in s.conds || (Queue(s.conds[c]) != [] && s.conds[c].mutex != Some(m)) then r.Panicked?
              else r.Yielded?
  {
    assert UnlockMutex(s, m).Returned? ==> UnlockMutex(s, m).s.conds == s.conds;
  }

  /**
   A wait gives the mutex up by one lock, which the caller must hold (anyone may give up a NORMAL mutex), and
   queues up behind all other waiters.
   */
  lemma WaitQueuesLast(s: System, c: nat, m: nat, deadline: Option<int>)
    requires s.Valid() && CondWait(s, c, m, deadline).Yielded?
    ensures c in s.conds && m in s.mutexes && s.mutexes[m].locked.Some?
    ensures var (s', owner, count) := (CondWait(s, c, m, deadline).s, s.mutexes[m].locked.value.0,
                                       s.mutexes[m].locked.value.1);
            && (owner == s.current || s.mutexes[m].kind.Normal?)
            && s'.mutexes ==
               s.mutexes[m := s.mutexes[m].(locked := if count == 1 then None else Some((owner, count - 1)))]
            && c in s'.conds && s'.conds[c].mutex == Some(m) && Queue(s'.conds[c]) == Queue(s.conds[c]) + [s.current]
            && s'.conds[c].waking == s.conds[c].waking
            && s'.threads[s.current].block == OnCondition(c, deadline)
  {
    WaitShape(s, c, m, deadline);
    WaitUnlocks(s, c, m, deadline);
  }

  lemma WaitUnlocks(s: System, c: nat, m: nat, deadline: Option<int>)
    requires s.Valid() && CondWait(s, c, m, deadline).Yielded?
    ensures m in s.mutexes && s.mutexes[m].locked.Some?
    ensures var (owner, count) := (s.mutexes[m].locked.value.0, s.mutexes[m].locked.value.1);
            && (owner == s.current || s.mutexes[m].kind.Normal?) && count > 0
            && CondWait(s, c, m, deadline).s.mutexes
               == s.mutexes[m := s.mutexes[m].(locked := if count == 1 then None else Some((owner, count - 1)))]
  {
  }

  // ---------- Queues keep their order ----------

  lemma {:induction false} WithoutKeepsOrder(q: seq<nat>, t: nat, u: nat, v: nat)
    requires Ahead(q, u, v) && t != u && t != v
    ensures Ahead(Without(q, t), u, v)
  {
    var rest := Without(q[1..], t);
    if q[0] == u && v in q[1..] {
      WithoutMembers(q[1..], t);
      var j :| 0 <= j < |rest| && rest[j] == v;
      assert Without(q, t)[0] == u && Without(q, t)[j + 1] == v;
    } else {
      var i, j :| 0 <= i < j < |q| && q[i] == u && q[j] == v;
      assert q[1..][i - 1] == u && q[1..][j - 1] == v;
      WithoutKeepsOrder(q[1..], t, u, v);
      var k, l :| 0 <= k < l < |rest| && rest[k] == u && rest[l] == v;
      var n := if q[0] == t then 0 else 1;
      assert Without(q, t)[k + n] == u && Without(q, t)[l + n] == v;
    }
  }

  lemma TailKeepsOrder(q: seq<nat>, u: nat, v: nat)
    requires Ahead(q, u, v) && q[0] != u
    ensures Ahead(q[1..], u, v)
  {
    var i, j :| 0 <= i < j < |q| && q[i] == u && q[j] == v;
    assert q[1..][i - 1] == u && q[1..][j - 1] == v;
  }

  lemma LongerKeepsOrder(q: seq<nat>, more: seq<nat>, u: nat, v: nat)
    requires Ahead(q, u, v)
    ensures Ahead(q + more, u, v)
  {
    var i, j :| 0 <= i < j < |q| && q[i] == u && q[j] == v;
    assert (q + more)[i] == u && (q + more)[j] == v;
  }

  // ---------- A visit ----------

  /** The visited thread leaves the queue from wherever it is, or from the front if it was signalled. */
  lemma VisitedQueue(s: System, t: nat, c: nat, deadline: Option<int>, now: Clock)
    requires t < |s.threads| && !VisitCondition(s, t, c, deadline, now).VisitPanicked?
    ensures c in s.conds && c in VisitCondition(s, t, c, deadline, now).s.conds
    ensures var q, cond := Queue(s.conds[c]), VisitCondition(s, t, c, deadline, now).s.conds[c];
            || cond == s.conds[c]
            || (q != [] && q[0] == t && Queue(cond) == q[1..] && cond.timedOut == s.conds[c].timedOut)
            || (Queue(cond) == Without(q, t) && cond.timedOut == s.conds[c].timedOut + {t})
  {
    var cond := s.conds[c];
    WithoutConcat(cond.waking, cond.waiting, t);
    if cond.waking != [] {
      assert Queue(cond)[1..] == cond.waking[1..] + cond.waiting;
    }
  }

  lemma VisitKeepsOrder(s: System, t: nat, now: Clock, c: nat, u: nat, v: nat)
    requires t < |s.threads| && !VisitThread(s, t, now).VisitPanicked?
    requires c in s.conds && Distinct(Queue(s.conds[c])) && InOrder(s, c, u, v)
    ensures InOrder(VisitThread(s, t, now).s, c, u, v)
  {
    if s.threads[t].active && s.threads[t].block.OnCondition? {
      var OnCondition(k, deadline) := s.threads[t].block;
      if k == c {
        VisitedQueue(s, t, c, deadline, now);
        QueueKeepsOrder(s, VisitThread(s, t, now).s, t, c, u, v);
      } else {
        OtherConditionFrame(s, t, k, deadline, now, c);
      }
    } else {
      ElsewhereFrame(s, t, now);
    }
  }

  lemma QueueKeepsOrder(s: System, s': System, t: nat, c: nat, u: nat, v: nat)
    requires c in s.conds && c in s'.conds && Distinct(Queue(s.conds[c])) && InOrder(s, c, u, v)
    requires var q, cond := Queue(s.conds[c]), s'.conds[c];
             || cond == s.conds[c]
             || (q != [] && q[0] == t && Queue(cond) == q[1..] && cond.timedOut == s.conds[c].timedOut)
             || (Queue(cond) == Without(q, t) && cond.timedOut == s.conds[c].timedOut + {t})
    ensures InOrder(s', c, u, v)
  {
    var q := Queue(s.conds[c]);
    WithoutMembers(q, t);
    if s'.conds[c] != s.conds[c] && WaitsLonger(s, c, u, v) {
      if Queue(s'.conds[c]) == Without(q, t) && s'.conds[c].timedOut == s.conds[c].timedOut + {t} {
        if t != u && t != v {
          WithoutKeepsOrder(q, t, u, v);
        }
      } else if t != u {
        TailKeepsOrder(q, u, v);
      } else {
        assert forall i :: 0 <= i < |q[1..]| ==> q[1..][i] == q[i + 1] != q[0];
      }
    } else if s'.conds[c] != s.conds[c] && !Queued(s, u, c) {
      assert forall x :: x in Queue(s'.conds[c]) ==> x in q;
    }
  }

  // ---------- Steps and runs ----------

  lemma {:induction false} ScanKeepsOrder(s: System, clocks: seq<Clock>, i: nat, earlier: Option<int>, c: nat, u: nat,
                                          v: nat)
    requires s.Valid() && |clocks| == |s.threads| && i <= |s.threads| && forall k :: Consistent(s, k)
    requires !ScanFrom(s, clocks, i, earlier).ScanPanicked? && InOrder(s, c, u, v)
    ensures InOrder(ScanFrom(s, clocks, i, earlier).s, c, u, v)
    decreases |s.threads| - i
  {
    if i < |s.threads| {
      var t := Candidate(s, i);
      forall k ensures Consistent(VisitThread(s, t, clocks[i]).s, k) {
        VisitKeepsConsistent(s, t, clocks[i], k);
      }
      assert Consistent(s, c);
      VisitKeepsOrder(s, t, clocks[i], c, u, v);
      match VisitThread(s, t, clocks[i])
      case PassedOver(s', awakening) =>
        VisitKeepsShape(s, t, clocks[i]);
        ScanKeepsOrder(s', clocks, i + 1, Earlier(earlier, awakening), c, u, v);
      case _ =>
    }
  }

  lemma ActKeepsOrder(s: System, action: Action, c: nat, u: nat, v: nat)
    requires MayDo(s, action) && !Act(s, action).Panicked? && !Renews(Do(action), c)
    requires WaitsLonger(s, c, u, v)
    ensures WaitsLonger(After(Act(s, action)), c, u, v)
  {
    if action.CondAction? {
      match action.condCall
      case WaitCond(k, m, deadline) =>
        WaitShape(s, k, m, deadline);
        LongerKeepsOrder(Queue(s.conds[c]), [s.current], u, v);
        assert Queue(s.conds[c]) + [s.current] == s.conds[c].waking + (s.conds[c].waiting + [s.current]);
      case Signal(_) => SignalFrame(s, action.condCall, c);
      case Broadcast(_) => SignalFrame(s, action.condCall, c);
      case _ =>
    } else {
      OtherActsKeepConditions(s, action);
    }
  }

  /**
   Whatever happens, short of renewing the condition variable: as long as `u` waits, `v` stays behind it, unless
   `v` times out.
   */
  lemma StepKeepsOrder(s: System, e: Event, c: nat, u: nat, v: nat)
    requires Step(s, e).Some? && (forall k :: Consistent(s, k)) && !Renews(e, c) && WaitsLonger(s, c, u, v)
    ensures InOrder(Step(s, e).value, c, u, v)
  {
    match e
    case Do(action) => ActKeepsOrder(s, action, c, u, v);
    case Schedule(clocks) =>
      var mid := ScheduleStep(s, clocks);
      ScanKeepsOrder(s, clocks, 0, None, c, u, v);
  }

  /** `u` waits all the time up to step `n`, and `v` does not time out. */
  ghost predicate BothStay(states: seq<System>, events: seq<Event>, c: nat, u: nat, v: nat, n: nat)
    requires |states| == |events| + 1 && n <= |events|
  {
    && (forall i :: 0 <= i < n ==> !Renews(events[i], c))
    && (forall i :: 0 <= i <= n ==> Queued(states[i], u, c) && !TimedOut(states[i], c, v))
  }

  /**
   No overtaking, over every run: while `u` waits, a thread that began to wait on the same condition variable later
   is not woken, however often the variable is signalled. It can only time out.
   */
  lemma {:induction false} NoOvertaking(states: seq<System>, events: seq<Event>, c: nat, u: nat, v: nat, n: nat)
    requires IsRun(states, events) && n <= |events| && Sound(states[0]) && forall k :: Consistent(states[0], k)
    requires forall i, k :: 0 <= i < |events| ==> !ForgetsWaiters(states[i], events[i], k)
    requires WaitsLonger(states[0], c, u, v) && BothStay(states, events, c, u, v, n)
    ensures WaitsLonger(states[n], c, u, v)
  {
    if n > 0 {
      NoOvertaking(states, events, c, u, v, n - 1);
      assert StepAt(states, events, n - 1);
      ConsistentAt(states, events, n - 1);
      StepKeepsOrder(states[n - 1], events[n - 1], c, u, v);
    }
  }

  lemma ConsistentAt(states: seq<System>, events: seq<Event>, n: nat)
    requires IsRun(states, events) && n < |events| && Sound(states[0]) && forall k :: Consistent(states[0], k)
    requires forall i, k :: 0 <= i < |events| ==> !ForgetsWaiters(states[i], events[i], k)
    ensures forall k :: Consistent(states[n], k)
  {
    RunPrefix(states, events, n);
    QueuesStayConsistent(states[..n + 1], events[..n]);
  }
}
