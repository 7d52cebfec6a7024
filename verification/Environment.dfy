/**
 The environment's thread operations as they run, updating its fields in place
 (`src/environment.rs`, `src/environment/mutex.rs`). Each is tied to its function in `ThreadState`, so
 that the laws about runs hold of it, and says what it means for its caller: which fields change, who
 owns what afterwards, and which invariants it keeps.
 */
module ThreadEnvironment {
  import opened Wrappers
  import opened ThreadState
  import opened SchedulerChoice
  import opened SchedulerPass
  import opened SchedulerSteps
  import opened SemaphoreLaws
  import opened MutexLaws
  import opened ConditionLaws
  import opened SchedulingLaws

  datatype Outcome = Value(value: int) | Blocked | Panic

  datatype PassOutcome = Next(t: nat) | SleepOn(nextAwakening: Option<int>) | PassPanic

  datatype ScheduleOutcome = Run(t: nat) | Asleep | Deadlock | SchedulePanic

  // ---------- What undoes what ----------

  /** Waiting right after a post takes the posted unit back, unless the post wrapped around. */
  lemma PostThenWait(s: System, sem: nat, waitOnLock: bool)
    requires s.Valid() && sem in s.sems && 0 <= s.sems[sem].value < 0x8000_0000
    ensures SemDecrement(SemIncrement(s, sem).s, sem, waitOnLock) == Returned(s, TRUE) <==>
            s.sems[sem].value < 0x7FFF_FFFF
  {
    var s1 := SemIncrement(s, sem).s;
    if s.sems[sem].value < 0x7FFF_FFFF {
      assert SemDecrement(s1, sem, waitOnLock).s.sems == s.sems;
    }
  }

  /** Unlocking right after a successful lock restores the environment. */
  lemma LockThenUnlock(s: System, m: nat)
    requires s.Valid() && LockMutex(s, m).Returned? && LockMutex(s, m).value > 0
    requires IsLocked(s, m) ==> s.mutexes[m].locked.value.1 >= 1
    ensures UnlockMutex(LockMutex(s, m).s, m).Returned? && UnlockMutex(LockMutex(s, m).s, m).s == s
  {
    assert UnlockMutex(LockMutex(s, m).s, m).s.mutexes == s.mutexes;
  }

  /**
   Resuming a thread right after suspending it restores the state. A running thread that suspends itself
   gives up the CPU, so that another one has to resume it; that makes it ready, but leaves the CPU free.
   */
  lemma SuspendThenResume(s: System, t: nat)
    requires s.Valid() && t < |s.threads|
    ensures var suspended := SuspendThread(s, t);
            && !suspended.Panicked?
            && (suspended.Yielded? <==> t == s.current && !s.threads[t].block.Suspended?)
            && (WellSuspended(s.threads[t].block) ==>
                  ResumeThread(suspended.s, t) ==
                  Returned(if suspended.Yielded? then s.(running := false) else s, 0))
  {
    SuspendsOnce(s, t);
    if WellSuspended(s.threads[t].block) {
      ResumesOnce(SuspendThread(s, t).s, t);
      assert s.threads[t := s.threads[t].(block := s.threads[t].block)] == s.threads;
    }
  }

  lemma SuspendsOnce(s: System, t: nat)
    requires s.Valid() && t < |s.threads|
    ensures var s' := s.WithBlock(t, SuspendedOnce(s.threads[t].block));
            SuspendThread(s, t) == if t == s.current && !s.threads[t].block.Suspended?
                                   then Yielded(s'.(running := false)) else Returned(s', 0)
  {
  }

  lemma ResumesOnce(s: System, t: nat)
    requires t < |s.threads| && WellSuspended(s.threads[t].block)
    ensures ResumeThread(s, t) == Returned(s.WithBlock(t, ResumedOnce(s.threads[t].block)), 0)
  {
    if !s.threads[t].block.Suspended? {
      assert s.WithBlock(t, s.threads[t].block).threads == s.threads;
    }
  }

  // ---------- The environment ----------

  /** Every thread but `t` is as it was. */
  ghost predicate OthersKept(threads: seq<Thread>, threads': seq<Thread>, t: nat) {
    |threads'| == |threads| && forall u :: 0 <= u < |threads| && u != t ==> threads'[u] == threads[u]
  }

  /** Every entry but that of `k` is as it was. */
  ghost predicate OnlyEntry<V(!new)>(table: map<nat, V>, table': map<nat, V>, k: nat) {
    table'.Keys == table.Keys && forall j :: j in table && j != k ==> table'[j] == table[j]
  }

  /** However the books stood, they stand `posts` and `acquired` higher. */
  ghost predicate BooksKept(s: System, s': System, sem: nat, posts: nat, acquired: nat) {
    forall initial: int, p: nat, a: nat :: Balanced(s, sem, initial, p, a) ==>
      Balanced(s', sem, initial, p + posts, a + acquired)
  }

  lemma SemCallKeepsEveryBook(s: System, call: SemCall, sem: nat)
    requires s.Valid() && call != DestroySem(sem)
    ensures Sound(s) && s.running ==>
              var e := Do(SemAction(call));
              BooksKept(s, After(DoSemCall(s, call)), sem, PostsIn(e, sem), AcquiresIn(s, e, sem))
  {
    if Sound(s) && s.running {
      forall initial: int, p: nat, a: nat | Balanced(s, sem, initial, p, a)
        ensures var e := Do(SemAction(call));
                Balanced(After(DoSemCall(s, call)), sem, initial, p + PostsIn(e, sem), a + AcquiresIn(s, e, sem))
      {
        SemCallKeepsBooks(s, call, sem, initial, p, a);
      }
    }
  }

  /**
   From `s` to `s'` the condition arm looked at `t`: a chosen thread owns the condition's mutex, which
   was free; otherwise mutexes are left alone and `t` at most waits for that mutex, which is locked.
   */
  ghost predicate ConditionArmDone(s: System, s': System, t: nat, c: nat, chosen: bool)
    requires t < |s.threads|
  {
    && c in s.conds && s.conds[c].mutex.Some? && OnlyEntry(s.conds, s'.conds, c) && OthersKept(s.threads, s'.threads, t)
    && var m := s.conds[c].mutex.value;
       if chosen then
         && !IsLocked(s, m) && Owns(s', t, m) && OnlyEntry(s.mutexes, s'.mutexes, m)
         && s'.threads[t] == s.threads[t].(block := NotBlocked)
       else
         && s'.mutexes == s.mutexes
         && (s'.threads == s.threads || (s'.threads[t] == s.threads[t].(block := OnMutex(m)) && IsLocked(s', m)))
  }

  lemma VisitConditionOutcome(s: System, t: nat, c: nat, deadline: Option<int>, now: Clock)
    requires t < |s.threads|
    ensures var v := VisitCondition(s, t, c, deadline, now);
            !v.VisitPanicked? ==> ConditionArmDone(s, v.s, t, c, v.Chosen?)
  {
    match VisitCondition(s, t, c, deadline, now)
    case Chosen(_) => ConditionWaiterChosen(s, t, c, deadline, now);
    case PassedOver(_, _) => ConditionWaiterPassedOver(s, t, c, deadline, now);
    case VisitPanicked =>
  }

  lemma ConditionWaiterChosen(s: System, t: nat, c: nat, deadline: Option<int>, now: Clock)
    requires t < |s.threads| && VisitCondition(s, t, c, deadline, now).Chosen?
    ensures ConditionArmDone(s, VisitCondition(s, t, c, deadline, now).s, t, c, true)
  {
  }

  lemma ConditionWaiterPassedOver(s: System, t: nat, c: nat, deadline: Option<int>, now: Clock)
    requires t < |s.threads| && VisitCondition(s, t, c, deadline, now).PassedOver?
    ensures ConditionArmDone(s, VisitCondition(s, t, c, deadline, now).s, t, c, false)
  {
  }

  ghost predicate QueuesKept(s: System, s': System, c: nat) {
    forall k: nat :: Consistent(s, c) && Consistent(s, k) ==> Consistent(s', k)
  }

  /** The condition arm keeps the queues of every condition variable consistent. */
  lemma VisitConditionKeepsQueues(s: System, t: nat, c: nat, deadline: Option<int>, now: Clock)
    requires t < |s.threads|
    ensures var v := VisitCondition(s, t, c, deadline, now);
            !v.VisitPanicked? && s.threads[t].block == OnCondition(c, deadline) ==> QueuesKept(s, v.s, c)
  {
    var v := VisitCondition(s, t, c, deadline, now);
    if !v.VisitPanicked? && s.threads[t].block == OnCondition(c, deadline) {
      forall k: nat | Consistent(s, c) && Consistent(s, k) ensures Consistent(v.s, k) {
        if k == c {
          VisitConditionKeepsConsistent(s, t, deadline, now, c);
        } else {
          VisitOtherConditionKeepsConsistent(s, t, c, deadline, now, k);
        }
      }
    }
  }

  /** What a visit to `t` leads to: a chosen thread took what it waited for, a passed-over one took nothing. */
  ghost predicate VisitDone(s: System, s': System, t: nat, chosen: bool)
    requires t < |s.threads|
  {
    && OthersKept(s.threads, s'.threads, t)
    && (if chosen then
          ChosenFrom(s, s', t)
        else
          && s'.mutexes == s.mutexes && s'.sems == s.sems && s'.joinResults == s.joinResults
          && KeptOrTimedOut(s, s', t))
  }

  lemma VisitOutcome(s: System, t: nat, now: Clock)
    requires t < |s.threads|
    ensures var v := VisitThread(s, t, now);
            !v.VisitPanicked? ==> VisitDone(s, v.s, t, v.Chosen?)
  {
    match VisitThread(s, t, now)
    case Chosen(_) => ChosenFrame(s, t, now);
    case PassedOver(_, _) => PassOverFrame(s, t, now);
    case VisitPanicked =>
  }

  lemma PassOutcomes(s: System, clocks: seq<Clock>)
    requires s.Valid() && |clocks| == |s.threads|
    ensures var r := ScanFrom(s, clocks, 0, None);
            && (r.Scheduled? ==>
                  && r.t < |s.threads| == |r.s.threads| && ChosenFrom(s, r.s, r.t)
                  && forall u :: 0 <= u < |s.threads| && u != r.t ==> KeptOrTimedOut(s, r.s, u))
            && (r.Scheduled? ==> FirstRunnable(s, clocks, r.t))
            && (r.AllBlocked? ==> NoneRunnable(s, clocks))
            && (r.AllBlocked? ==> EarliestFrom(s, clocks, 0, None, r.nextAwakening))
            && (r.AllBlocked? ==>
                  && |r.s.threads| == |s.threads| && r.s.mutexes == s.mutexes && r.s.sems == s.sems
                  && forall u :: 0 <= u < |s.threads| ==> KeptOrTimedOut(s, r.s, u))
            && (forall u: nat :: Ready(s, u) ==>
                  r.ScanPanicked? || (r.Scheduled? && r.t < |s.threads| && Distance(s, r.t) <= Distance(s, u)))
  {
    var r := ScanFrom(s, clocks, 0, None);
    PassChoosesFirst(s, clocks);
    if r.Scheduled? {
      ScheduledThreadOwnsItsMutex(s, clocks);
    }
    var _, _ := ScanTrace(s, s, clocks, 0, None);
    if r.AllBlocked? {
      AwakensAtEarliest(s, s, clocks, 0, None);
    }
    forall u: nat | Ready(s, u)
      ensures r.ScanPanicked? || (r.Scheduled? && r.t < |s.threads| && Distance(s, r.t) <= Distance(s, u))
    {
      PassFindsReady(s, clocks, 0, None, u);
    }
  }

  lemma {:induction false} ScheduledIsReady(s: System, readings: seq<seq<Clock>>, grace: nat)
    requires s.Valid() && forall i :: 0 <= i < |readings| ==> |readings[i]| == |s.threads|
    requires ScheduleFrom(s, readings, grace).Chose?
    ensures Ready(ScheduleFrom(s, readings, grace).s, ScheduleFrom(s, readings, grace).t)
    decreases |readings|
  {
    ScanKeepsShape(s, readings[0], 0, None);
    match ScanFrom(s, readings[0], 0, None)
    case Scheduled(_, _) => ScheduledThreadOwnsItsMutex(s, readings[0]);
    case AllBlocked(s', Some(_)) => ScheduledIsReady(s', readings[1..], grace);
    case AllBlocked(s', None) => ScheduledIsReady(s', readings[1..], grace + 1);
    case _ =>
  }

  /** Whenever the scheduler looks at a thread, it passes it over, and nothing changes. */
  ghost predicate NeverChosen(s: System) {
    forall u, now: Clock :: 0 <= u < |s.threads| ==> VisitThread(s, u, now) == PassedOver(s, None)
  }

  lemma ScheduleOutcomes(s: System, readings: seq<seq<Clock>>, grace: nat)
    requires s.Valid() && forall i :: 0 <= i < |readings| ==> |readings[i]| == |s.threads|
    ensures var r := ScheduleFrom(s, readings, grace);
            && (r.Deadlocked? ==> NeverChosen(r.s)) && (r.Chose? ==> Ready(r.s, r.t) && r.grace == grace)
            && (r.Chose? ==> exists k :: RunsAfter(s, readings, k, r.t))
  {
    match ScheduleFrom(s, readings, grace)
    case Deadlocked(_) => DeadlockMeansStuck(s, readings, grace);
    case Chose(_, _, _) =>
      var _ := ScheduleChooses(s, readings, grace);
      ScheduledIsReady(s, readings, grace);
      ChoiceKeepsGrace(s, readings, grace);
    case _ =>
  }

  /** `t` is current now, nothing but contexts has moved, and saved contexts keep everybody's registers. */
  ghost predicate Switched(s: System, s': System, t: nat) {
    && s'.current == t < |s.threads| && OnlyContextsDiffer(s, s')
    && (ContextsSaved(s) ==> forall u :: 0 <= u < |s.threads| ==> RegisterView(s', u) == RegisterView(s, u))
  }

  lemma SwitchOutcome(s: System, t: nat)
    requires s.Valid()
    ensures var r := ThreadState.SwitchThread(s, t);
            && (r.Returned? ==> r.value == 0 && Switched(s, r.s, t))
            && (ContextsSaved(s) && t < |s.threads| && t != s.current && s.threads[t].active ==>
                  r.Returned? && ContextsSaved(r.s))
  {
    if ThreadState.SwitchThread(s, t).Returned? {
      SwitchMovesContexts(s, t);
    }
    if ContextsSaved(s) && t < |s.threads| && t != s.current && s.threads[t].active {
      SwitchKeepsViews(s, t);
    }
  }

  class Environment {
    var currentThread: nat
    var running: bool
    var executor: Option<nat>
    var cpu: nat
    var threads: seq<Thread>
    var mutexes: map<nat, Mutex>
    var sems: map<nat, Semaphore>
    var conds: map<nat, Condition>
    var joinResults: map<nat, nat>

    constructor (mainHostContext: nat, cpu: nat)
      ensures State() == InitialState(mainHostContext, cpu)
      ensures Sound(State()) && ContextsSaved(State())
      ensures forall k: nat :: Consistent(State(), k) && Exclusive(State(), {}, k)
    {
      currentThread, running, executor, this.cpu := 0, true, Some(mainHostContext), cpu;
      threads := [Thread(true, NotBlocked, None, Plain, None, None)];
      mutexes, sems, conds, joinResults := map[], map[], map[], map[];
      new;
      forall k: nat ensures Consistent(State(), k) && Exclusive(State(), {}, k) {
        InitiallyConsistent(mainHostContext, cpu, k);
        InitiallyExclusive(mainHostContext, cpu, k);
      }
    }

    ghost function State(): System
      reads this
    {
      System(currentThread, running, executor, cpu, threads, mutexes, sems, conds, joinResults)
    }

    /** The fields and the outcome are what the specification says; after a panic nothing is claimed. */
    ghost predicate Agrees(spec: CallResult, outcome: Outcome)
      reads this
    {
      match spec
      case Returned(s, value) => State() == s && outcome == Value(value)
      case Yielded(s) => State() == s && outcome == Blocked
      case Panicked => outcome == Panic
    }

    /** Hands over to the executor: only the current thread's block changes, and contexts stay saved. */
    method YieldThread(block: ThreadBlock)
      requires State().Valid()
      modifies `threads, `running
      ensures State() == Yield(old(State()), block)
      ensures !running && threads[currentThread].block == block && OthersKept(old(threads), threads, currentThread)
      ensures old(ContextsSaved(State())) ==> ContextsSaved(State())
    {
      threads := threads[currentThread := threads[currentThread].(block := block)];
      running := false;
    }

    /**
     Takes a unit, or blocks, or neither. The books stay balanced: a unit is taken exactly if the
     outcome is `TRUE`, and the waiting set gains exactly the thread that now blocks.
     */
    method SemDecrement(sem: nat, waitOnLock: bool) returns (outcome: Outcome)
      requires State().Valid()
      modifies `threads, `running, `sems
      ensures Agrees(ThreadState.SemDecrement(old(State()), sem, waitOnLock), outcome)
      ensures outcome == Value(TRUE) <==> sem in old(sems) && old(sems)[sem].value > 0
      ensures outcome == Value(TRUE) ==>
                && threads == old(threads) && running == old(running) && OnlyEntry(old(sems), sems, sem)
                && sems[sem].value == old(sems)[sem].value - 1 && sems[sem].waiting == old(sems)[sem].waiting
      ensures outcome == Blocked <==> sem in old(sems) && old(sems)[sem].value <= 0 && waitOnLock
      ensures outcome == Blocked ==>
                && !running && threads[currentThread].block == OnSemaphore(sem)
                && OthersKept(old(threads), threads, currentThread) && OnlyEntry(old(sems), sems, sem)
                && sems[sem].value == old(sems)[sem].value
                && sems[sem].waiting == old(sems)[sem].waiting + {currentThread}
      ensures outcome.Value? && outcome.value != TRUE ==> outcome == Value(FALSE) && State() == old(State())
      ensures outcome != Panic
      ensures old(Sound(State()) && running) ==>
                BooksKept(old(State()), State(), sem, 0, if outcome == Value(TRUE) then 1 else 0)
    {
      SemCallKeepsEveryBook(State(), Wait(sem, waitOnLock), sem);
      if sem !in sems {
        return Value(FALSE);
      }
      var hostSem := sems[sem];
      if hostSem.value > 0 {
        sems := sems[sem := hostSem.(value := hostSem.value - 1)];
        return Value(TRUE);
      }
      if !waitOnLock {
        return Value(FALSE);
      }
      sems := sems[sem := hostSem.(waiting := hostSem.waiting + {currentThread})];
      YieldThread(OnSemaphore(sem));
      return Blocked;
    }

    /** Adds a unit without waking anybody; only at the largest value does the value fall. */
    method SemIncrement(sem: nat) returns (outcome: Outcome)
      requires State().Valid()
      modifies `sems
      ensures Agrees(ThreadState.SemIncrement(old(State()), sem), outcome)
      ensures outcome == Value(if sem in old(sems) then TRUE else FALSE)
      ensures sem !in old(sems) ==> sems == old(sems)
      ensures sem in old(sems) ==> OnlyEntry(old(sems), sems, sem) && sems[sem].waiting == old(sems)[sem].waiting
      ensures sem in old(sems) && -0x8000_0000 <= old(sems)[sem].value < 0x7FFF_FFFF ==>
                sems[sem].value == old(sems)[sem].value + 1
      ensures sem in old(sems) && old(sems)[sem].value == 0x7FFF_FFFF ==> sems[sem].value == -0x8000_0000
      ensures old(Sound(State()) && running) ==>
                BooksKept(old(State()), State(), sem, 1, 0)
    {
      SemCallKeepsEveryBook(State(), Post(sem), sem);
      if sem !in sems {
        return Value(FALSE);
      }
      sems := sems[sem := sems[sem].(value := WrapI32(sems[sem].value + 1))];
      return Value(TRUE);
    }

    /**
     One suspension more for `t`, whose own reason to block is kept underneath; the caller stops running
     exactly if it suspends itself for the first time.
     */
    method SuspendThread(t: nat) returns (outcome: Outcome)
      requires State().Valid()
      modifies `threads, `running
      ensures Agrees(ThreadState.SuspendThread(old(State()), t), outcome)
      ensures outcome == Panic <==> t >= |old(threads)|
      ensures outcome != Panic ==>
                && OthersKept(old(threads), threads, t)
                && threads[t] == old(threads)[t].(block := SuspendedOnce(old(threads)[t].block))
                && Underlying(threads[t].block) == Underlying(old(threads)[t].block)
      ensures outcome == Blocked <==> t == currentThread && !old(threads)[t].block.Suspended?
      ensures running == (old(running) && outcome != Blocked)
    {
      if t >= |threads| {
        return Panic;
      }
      match threads[t].block {
        case Suspended(count, previous) =>
          threads := threads[t := threads[t].(block := Suspended(count + 1, previous))];
        case _ =>
          var suspended := Suspended(1, threads[t].block);
          if t == currentThread {
            YieldThread(suspended);
            return Blocked;
          }
          threads := threads[t := threads[t].(block := suspended)];
      }
      return Value(0);
    }

    /** One suspension less for `t`, which `SuspendThenResume` shows to undo one more. */
    method ResumeThread(t: nat) returns (outcome: Outcome)
      modifies `threads
      ensures Agrees(ThreadState.ResumeThread(old(State()), t), outcome)
      ensures t < |old(threads)| && WellSuspended(old(threads)[t].block) ==> outcome == Value(0)
      ensures outcome == Value(0) ==>
                && t < |old(threads)| && OthersKept(old(threads), threads, t)
                && threads[t] == old(threads)[t].(block := ResumedOnce(old(threads)[t].block))
                && Underlying(threads[t].block) == Underlying(old(threads)[t].block)
      ensures outcome == Value(0) || (outcome == Panic && threads == old(threads))
    {
      if t >= |threads| {
        return Panic;
      }
      match threads[t].block {
        case Suspended(count, previous) =>
          if count == 0 {
            return Panic;
          } else if count > 1 {
            threads := threads[t := threads[t].(block := Suspended(count - 1, previous))];
          } else {
            threads := threads[t := threads[t].(block := previous)];
          }
        case _ =>
      }
      return Value(0);
    }

    /**
     A positive outcome means that the current thread owns the mutex, with that many locks. Otherwise
     the owner stays who it was: the caller itself, or another thread that the caller now waits for.
     Mutual exclusion is kept, with the caller as a holder exactly if the mutex was free.
     */
    method LockMutex(m: nat) returns (outcome: Outcome)
      requires State().Valid()
      modifies `threads, `running, `mutexes
      ensures Agrees(ThreadState.LockMutex(old(State()), m), outcome)
      ensures outcome == Panic <==> m !in old(mutexes)
      ensures outcome != Panic ==> OnlyEntry(old(mutexes), mutexes, m)
      ensures outcome.Value? ==> threads == old(threads) && running == old(running)
      ensures outcome.Value? && outcome.value > 0 ==>
                && mutexes[m].locked == Some((currentThread, outcome.value))
                && (old(mutexes)[m].locked.None? || Owns(old(State()), currentThread, m))
      ensures outcome.Value? && outcome.value <= 0 ==>
                && outcome.value == -EDEADLK && mutexes == old(mutexes)
                && Owns(State(), currentThread, m) && !mutexes[m].kind.Recursive?
      ensures outcome == Blocked <==>
                IsLocked(old(State()), m) && !Owns(old(State()), currentThread, m)
      ensures outcome == Blocked ==>
                && !running && threads[currentThread].block == OnMutex(m)
                && OthersKept(old(threads), threads, currentThread)
                && mutexes[m] == old(mutexes)[m].(waitingCount := old(mutexes)[m].waitingCount + 1)
      ensures outcome != Panic ==> forall holdings: set<Holding>, k: nat :: Exclusive(old(State()), holdings, k) ==>
                Exclusive(State(), holdings + (if old(mutexes)[m].locked.None? then {(currentThread, m)} else {}), k)
    {
      if m in mutexes {
        var granted := if mutexes[m].locked.None? then {(currentThread, m)} else {};
        forall holdings: set<Holding>, k: nat | Exclusive(State(), holdings, k)
          ensures Exclusive(After(ThreadState.LockMutex(State(), m)), holdings + granted, k)
        {
          LockExcludes(State(), m, holdings, k);
          assert HoldingsAfter(State(), Do(MutexAction(Lock(m))), holdings) == holdings + granted;
        }
      }
      if m !in mutexes {
        return Panic;
      }
      var mutex := mutexes[m];
      if mutex.locked.None? {
        mutexes := mutexes[m := mutex.(locked := Some((currentThread, 1)))];
        return Value(1);
      }
      var (owner, count) := mutex.locked.value;
      if owner == currentThread {
        if !mutex.kind.Recursive? {
          return Value(-EDEADLK);
        }
        mutexes := mutexes[m := mutex.(locked := Some((owner, count + 1)))];
        return Value(count + 1);
      }
      mutexes := mutexes[m := mutex.(waitingCount := mutex.waitingCount + 1)];
      YieldThread(OnMutex(m));
      return Blocked;
    }

    /**
     Releases one lock. The mutex is free afterwards exactly if the outcome is 0 or it was free before,
     and it is never taken by anybody else here. Mutual exclusion is kept exactly unless the caller
     unlocks another thread's normal mutex.
     */
    method UnlockMutex(m: nat) returns (outcome: Outcome)
      requires State().Valid()
      modifies `mutexes
      ensures Agrees(ThreadState.UnlockMutex(old(State()), m), outcome)
      ensures outcome.Value? ==> m in old(mutexes) && OnlyEntry(old(mutexes), mutexes, m)
      ensures outcome == Value(0) ==> IsLocked(old(State()), m) && !IsLocked(State(), m)
      ensures outcome.Value? && outcome.value > 0 ==>
                && Owns(old(State()), currentThread, m) && mutexes[m].kind.Recursive?
                && mutexes[m].locked == Some((currentThread, outcome.value))
      ensures outcome.Value? && outcome.value < 0 ==>
                outcome == Value(-EPERM) && mutexes == old(mutexes) && !Owns(State(), currentThread, m)
      ensures Owns(old(State()), currentThread, m) && old(mutexes)[m].locked.value.1 == 1 ==> outcome == Value(0)
      ensures outcome.Value? ==> forall holdings: set<Holding>, k: nat :: Exclusive(old(State()), holdings, k) ==>
                (Exclusive(State(), if outcome == Value(0) then holdings - {(currentThread, m)} else holdings, k) <==>
                 !ForeignUnlock(old(State()), Do(MutexAction(Unlock(m))), k))
    {
      if !ThreadState.UnlockMutex(State(), m).Panicked? {
        forall holdings: set<Holding>, k: nat | Exclusive(State(), holdings, k)
          ensures Exclusive(After(ThreadState.UnlockMutex(State(), m)),
                            HoldingsAfter(State(), Do(MutexAction(Unlock(m))), holdings), k)
                  <==> !ForeignUnlock(State(), Do(MutexAction(Unlock(m))), k)
          ensures HoldingsAfter(State(), Do(MutexAction(Unlock(m))), holdings) ==
                  if ThreadState.UnlockMutex(State(), m).value == 0 then holdings - {(currentThread, m)} else holdings
        {
          UnlockExcludes(State(), m, holdings, k);
        }
      }
      if m !in mutexes {
        return Panic;
      }
      var mutex := mutexes[m];
      if mutex.locked.None? {
        return Value(-EPERM);
      }
      var (owner, count) := mutex.locked.value;
      if owner != currentThread && !mutex.kind.Normal? {
        return Value(-EPERM);
      }
      if count == 1 {
        mutexes := mutexes[m := mutex.(locked := None)];
        return Value(0);
      }
      if !mutex.kind.Recursive? || count == 0 {
        return Panic;
      }
      mutexes := mutexes[m := mutex.(locked := Some((owner, count - 1)))];
      return Value(count - 1);
    }

    /**
     `relock_unblocked_mutex_for_thread`, after the thread has been unblocked: `t` alone becomes ready,
     owning `m` with a single lock.
     */
    method UnblockHoldingMutex(t: nat, m: nat) returns (ok: bool)
      requires t < |threads|
      modifies `threads, `mutexes
      ensures match UnblockWithMutex(old(State()), t, m)
              case Chosen(s) => ok && State() == s
              case _ => !ok
      ensures ok <==> m in old(mutexes)
      ensures ok ==>
                && Owns(State(), t, m) && mutexes[m].locked.value.1 == 1 && OnlyEntry(old(mutexes), mutexes, m)
                && threads[t] == old(threads)[t].(block := NotBlocked) && OthersKept(old(threads), threads, t)
      ensures !ok ==> State() == old(State())
    {
      if m !in mutexes {
        return false;
      }
      threads := threads[t := threads[t].(block := NotBlocked)];
      var mutex := mutexes[m];
      mutexes := mutexes[m := Relocked(mutex, t)];
      return true;
    }

    ghost predicate VisitAgrees(spec: Visit, t: nat, chosen: bool, awakening: Option<int>, panicked: bool)
      reads this
    {
      match spec
      case Chosen(s) => chosen && !panicked && State() == s
      case PassedOver(s, when) => !chosen && !panicked && State() == s && awakening == when
      case VisitPanicked => panicked
    }

    /**
     The `Condition` arm of the scheduler (src/environment.rs:2586-2660). A waiter that becomes ready
     owns the condition's mutex, which was free; one that is passed over leaves every mutex alone and
     at most moves on to waiting for that locked mutex. The queues stay consistent either way.
     */
    method LookAtCondition(t: nat, c: nat, deadline: Option<int>, now: Clock)
      returns (chosen: bool, awakening: Option<int>, panicked: bool)
      requires t < |threads|
      modifies `threads, `mutexes, `conds
      ensures VisitAgrees(VisitCondition(old(State()), t, c, deadline, now), t, chosen, awakening, panicked)
      ensures !panicked ==> ConditionArmDone(old(State()), State(), t, c, chosen)
      ensures !panicked && old(threads)[t].block == OnCondition(c, deadline) ==> QueuesKept(old(State()), State(), c)
    {
      chosen, awakening, panicked := RunConditionArm(t, c, deadline, now);
      VisitConditionOutcome(old(State()), t, c, deadline, now);
      VisitConditionKeepsQueues(old(State()), t, c, deadline, now);
    }

    method RunConditionArm(t: nat, c: nat, deadline: Option<int>, now: Clock)
      returns (chosen: bool, awakening: Option<int>, panicked: bool)
      requires t < |threads|
      modifies `threads, `mutexes, `conds
      ensures VisitAgrees(VisitCondition(old(State()), t, c, deadline, now), t, chosen, awakening, panicked)
    {
      if c !in conds || conds[c].mutex.None? {
        return false, None, true;
      }
      var cond, m := conds[c], conds[c].mutex.value;
      var locked := m in mutexes && mutexes[m].locked.Some?;
      if cond.waking != [] && cond.waking[0] == t && !locked {
        conds := conds[c := cond.(waking := cond.waking[1..])];
        var ok := UnblockHoldingMutex(t, m);
        return ok, None, !ok;
      }
      if deadline.None? {
        return false, None, false;
      }
      if deadline.value > now.unix {
        return false, Some(now.instant + (deadline.value - now.unix)), false;
      }
      if t in cond.timedOut {
        return false, None, true;
      }
      conds := conds[c := cond.(timedOut := cond.timedOut + {t}, waking := Without(cond.waking, t),
                                waiting := Without(cond.waiting, t))];
      if locked {
        threads := threads[t := threads[t].(block := OnMutex(m))];
        return false, None, false;
      }
      var ok := UnblockHoldingMutex(t, m);
      return ok, None, !ok;
    }

    /** The `Joining` arm: a joiner is ready once the joined thread has ended, with its value stored. */
    method LookAtJoinee(t: nat, joinee: nat, ptr: nat) returns (chosen: bool, panicked: bool)
      requires t < |threads| && threads[t].active && threads[t].block == Joining(joinee, ptr)
      modifies `threads, `joinResults
      ensures forall now: Clock :: VisitAgrees(VisitThread(old(State()), t, now), t, chosen, None, panicked)
      ensures !panicked ==> joinee < |threads| && (chosen <==> !old(threads)[joinee].active)
      ensures chosen && !panicked && ptr != 0 ==>
                joinee < |threads| && ptr in joinResults && old(threads)[joinee].returnValue == Some(joinResults[ptr])
    {
      if joinee >= |threads| {
        return false, true;
      }
      if threads[joinee].active {
        return false, false;
      }
      if ptr != 0 {
        if threads[joinee].returnValue.None? {
          return false, true;
        }
        joinResults := joinResults[ptr := threads[joinee].returnValue.value];
      }
      threads := threads[t := threads[t].(block := NotBlocked)];
      return true, false;
    }

    /**
     One candidate of the scheduler's loop: what a chosen one holds and took, and how little a
     passed-over one changes.
     */
    method LookAt(t: nat, now: Clock) returns (chosen: bool, awakening: Option<int>, panicked: bool)
      requires t < |threads|
      modifies `threads, `mutexes, `sems, `conds, `joinResults
      ensures VisitAgrees(VisitThread(old(State()), t, now), t, chosen, awakening, panicked)
      ensures !panicked ==> VisitDone(old(State()), State(), t, chosen)
      ensures panicked <==> Faulty(old(State()), t, now)
      ensures !panicked ==> (chosen <==> Runnable(old(State()), t, now))
      ensures old(threads)[t].active && old(threads)[t].block.Sleeping? ==>
                (chosen <==> old(threads)[t].block.until <= now.instant)
      ensures !panicked && old(threads)[t].active && old(threads)[t].block.NotBlocked? ==>
              chosen && State() == old(State())
    {
      ghost var before := State();
      chosen, awakening, panicked := false, None, false;
      var candidate := threads[t];
      if !candidate.active {
        return;
      }
      match candidate.block {
        case NotBlocked =>
          chosen := true;
        case Sleeping(until) =>
          if until <= now.instant {
            threads := threads[t := candidate.(block := NotBlocked)];
            chosen := true;
          } else {
            awakening := Some(until);
          }
        case OnMutex(m) =>
          if !(m in mutexes && mutexes[m].locked.Some?) {
            chosen := UnblockHoldingMutex(t, m);
            panicked := !chosen;
          }
        case OnSemaphore(sem) =>
          if sem !in sems {
            threads := threads[t := candidate.(block := NotBlocked)];
            chosen := true;
          } else if sems[sem].value > 0 {
            sems := sems[sem := Semaphore(sems[sem].value - 1, sems[sem].waiting - {t})];
            threads := threads[t := candidate.(block := NotBlocked)];
            chosen := true;
          }
        case OnCondition(c, deadline) =>
          chosen, awakening, panicked := LookAtCondition(t, c, deadline, now);
        case Joining(joinee, ptr) =>
          chosen, panicked := LookAtJoinee(t, joinee, ptr);
        case WaitingForDebugger =>
          panicked := true;
        case Suspended(count, _) =>
          panicked := count == 0;
      }
      assert VisitAgrees(VisitThread(before, t, now), t, chosen, awakening, panicked);
      VisitOutcome(before, t, now);
      VisitDecides(before, t, now);
    }

    /**
     One pass over the threads, starting after the current one (src/environment.rs:2523-2687). It chooses
     the first thread that may run by the clock at its turn, which is unblocked and owns what it waited for;
     it ends in sleep only if there is none, until exactly the earliest time that ends a thread's sleep or
     wait.
     */
    method ScanThreads(clocks: seq<Clock>) returns (outcome: PassOutcome)
      requires State().Valid() && |clocks| == |threads|
      modifies `threads, `mutexes, `sems, `conds, `joinResults
      ensures match ScanFrom(old(State()), clocks, 0, None)
              case Scheduled(t, s) => outcome == Next(t) && State() == s
              case AllBlocked(s, when) => outcome == SleepOn(when) && State() == s
              case ScanPanicked => outcome == PassPanic
      ensures outcome.Next? ==>
                && outcome.t < |old(threads)| == |threads| && ChosenFrom(old(State()), State(), outcome.t)
                && forall u :: 0 <= u < |threads| && u != outcome.t ==> KeptOrTimedOut(old(State()), State(), u)
      ensures outcome.Next? ==> FirstRunnable(old(State()), clocks, outcome.t)
      ensures outcome.SleepOn? ==> NoneRunnable(old(State()), clocks)
      ensures forall u: nat :: Ready(old(State()), u) ==>
                outcome.PassPanic? || (outcome.Next? && Distance(old(State()), outcome.t) <= Distance(old(State()), u))
      ensures outcome.SleepOn? ==> EarliestFrom(old(State()), clocks, 0, None, outcome.nextAwakening)
      ensures outcome.SleepOn? ==>
                && |threads| == |old(threads)| && mutexes == old(mutexes) && sems == old(sems)
                && forall u :: 0 <= u < |threads| ==> KeptOrTimedOut(old(State()), State(), u)
    {
      PassOutcomes(State(), clocks);
      var nextAwakening := None;
      var n := |threads|;
      for i := 0 to n
        invariant State().Valid() && |threads| == n
        invariant ScanFrom(State(), clocks, i, nextAwakening) == ScanFrom(old(State()), clocks, 0, None)
      {
        var t := (currentThread + 1 + i) % n;
        ghost var before := State();
        assert t == Candidate(before, i);
        var chosen, awakening, panicked := LookAt(t, clocks[i]);
        VisitKeepsShape(before, t, clocks[i]);
        if panicked {
          return PassPanic;
        }
        if chosen {
          return Next(t);
        }
        nextAwakening := Earlier(nextAwakening, awakening);
      }
      return SleepOn(nextAwakening);
    }

    /**
     Passes until one finds a thread (src/environment.rs:2516-2735); each takes a reading of the clocks,
     and between them the emulator sleeps. The thread is the first that may run at the deciding reading, and
     none could at the earlier ones. It gives up only when no pass at any time could choose a
     thread. `grace` is the process-wide count of passes let through without a time to wake at; a call
     that chooses a thread leaves it as it was.
     */
    method ScheduleNextThread(readings: seq<seq<Clock>>, graceBefore: nat)
      returns (outcome: ScheduleOutcome, grace: nat)
      requires State().Valid() && forall i :: 0 <= i < |readings| ==> |readings[i]| == |threads|
      modifies `threads, `mutexes, `sems, `conds, `joinResults
      ensures match ScheduleFrom(old(State()), readings, graceBefore)
              case Chose(t, s, g) => outcome == Run(t) && State() == s && grace == g
              case Waiting(s, g) => outcome == Asleep && State() == s && grace == g
              case Deadlocked(s) => outcome == Deadlock && State() == s && grace == 0
              case SchedulePanicked => outcome == SchedulePanic
      ensures outcome == Deadlock ==> NeverChosen(State())
      ensures outcome.Run? ==> Ready(State(), outcome.t) && grace == graceBefore
      ensures outcome.Run? ==> exists k :: RunsAfter(old(State()), readings, k, outcome.t)
    {
      ScheduleOutcomes(State(), readings, graceBefore);
      grace := graceBefore;
      var n := |threads|;
      assert readings[0..] == readings;
      for i := 0 to |readings|
        invariant State().Valid() && |threads| == n
        invariant ScheduleFrom(State(), readings[i..], grace) == ScheduleFrom(old(State()), readings, graceBefore)
      {
        assert readings[i..][0] == readings[i] && readings[i..][1..] == readings[i + 1..];
        ghost var before := State();
        ScanKeepsShape(before, readings[i], 0, None);
        var pass := ScanThreads(readings[i]);
        match pass {
          case PassPanic => return SchedulePanic, grace;
          case Next(t) => return Run(t), grace;
          case SleepOn(Some(_)) =>
          case SleepOn(None) =>
            if grace >= DEADLOCK_GRACE {
              return Deadlock, 0;
            }
            grace := grace + 1;
        }
      }
      return Asleep, grace;
    }

    /**
     Makes `t` current. As long as contexts are saved this succeeds for every other active thread, keeps
     them saved, and every thread still sees its own registers.
     */
    method SwitchThread(t: nat) returns (outcome: Outcome)
      requires State().Valid()
      modifies `threads, `executor, `cpu, `currentThread
      ensures Agrees(ThreadState.SwitchThread(old(State()), t), outcome)
      ensures outcome == Value(0) ==> Switched(old(State()), State(), t)
      ensures old(ContextsSaved(State())) && t < |old(threads)| && t != old(currentThread) && old(threads)[t].active ==>
                outcome == Value(0) && ContextsSaved(State())
    {
      SwitchOutcome(State(), t);
      if t >= |threads| || t == currentThread || !threads[t].active || threads[t].guestContext.None? {
        return Panic;
      }
      if threads[currentThread].guestContext.Some? || (executor.None? && threads[currentThread].active)
         || threads[t].hostContext.None? {
        return Panic;
      }
      ExchangeContexts(t);
      return Value(0);
    }

    /** Parks the current thread's contexts and takes those of `t`. */
    method ExchangeContexts(t: nat)
      requires State().Valid() && ThreadState.SwitchThread(State(), t).Returned?
      modifies `threads, `executor, `cpu, `currentThread
      ensures State() == ThreadState.SwitchThread(old(State()), t).s
    {
      var guestContext := threads[t].guestContext.value;
      threads := threads[t := threads[t].(guestContext := None)];
      cpu, guestContext := guestContext, cpu;
      threads := threads[currentThread := threads[currentThread].(guestContext := Some(guestContext))];
      var newHostContext := threads[t].hostContext;
      threads := threads[t := threads[t].(hostContext := None)];
      threads := threads[currentThread := threads[currentThread].(hostContext := executor)];
      executor := newHostContext;
      currentThread := t;
    }
  }
}
