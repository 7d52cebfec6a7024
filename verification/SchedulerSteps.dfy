/** What each step of the system does to the threads' blocks, and the basic invariant of all runs. */
module SchedulerSteps {
  import opened Wrappers
  import opened ThreadState
  import opened SchedulerPass

  /** Suspensions are counted, never nested. */
  predicate WellSuspended(block: ThreadBlock) {
    block.Suspended? ==> block.count > 0 && !block.previous.Suspended?
  }

  ghost predicate Sound(s: System) {
    && s.Valid()
    && (s.running ==> s.threads[s.current].block.NotBlocked?)
    && (forall u :: 0 <= u < |s.threads| ==> WellSuspended(s.threads[u].block))
  }

  lemma InitialStateIsSound(host: nat, cpu: nat)
    ensures Sound(InitialState(host, cpu))
  {
  }

  function SuspendedOnce(block: ThreadBlock): ThreadBlock {
    match block
    case Suspended(count, previous) => Suspended(count + 1, previous)
    case _ => Suspended(1, block)
  }

  function ResumedOnce(block: ThreadBlock): ThreadBlock {
    match block
    case Suspended(count, previous) => if count > 1 then Suspended(count - 1, previous) else previous
    case _ => block
  }

  /** What the running thread is blocked on, if anything, once it has acted. */
  function OwnBlock(s: System, action: Action): ThreadBlock
    requires s.Valid()
  {
    if !Act(s, action).Yielded? then NotBlocked else
      match action
      case SleepUntil(until) => Sleeping(until)
      case JoinThread(t, ptr) => Joining(t, ptr)
      case Suspend(t) => Suspended(1, NotBlocked)
      case MutexAction(Lock(m)) => OnMutex(m)
      case SemAction(Wait(sem, _)) => OnSemaphore(sem)
      case CondAction(WaitCond(c, _, deadline)) => OnCondition(c, deadline)
      case _ => NotBlocked
  }

  /** Another thread's block changes only by being suspended or resumed. */
  function OtherBlock(s: System, action: Action, u: nat): ThreadBlock
    requires u < |s.threads|
  {
    if action == Suspend(u) then SuspendedOnce(s.threads[u].block)
    else if action == Resume(u) then ResumedOnce(s.threads[u].block)
    else s.threads[u].block
  }

  function After(r: CallResult): System
    requires !r.Panicked?
  {
    r.s
  }

  ghost predicate ActsOnBlocks(s: System, action: Action, s': System)
    requires s.Valid()
  {
    && s'.current == s.current && |s.threads| <= |s'.threads|
    && s'.threads[s.current].block == OwnBlock(s, action)
    && (forall u :: 0 <= u < |s.threads| && u != s.current ==> s'.threads[u].block == OtherBlock(s, action, u))
    && (forall u :: |s.threads| <= u < |s'.threads| ==> s'.threads[u].block == NotBlocked)
  }

  lemma MutexCallBlocks(s: System, call: MutexCall)
    requires s.Valid() && s.threads[s.current].block.NotBlocked? && !DoMutexCall(s, call).Panicked?
    ensures var s' := After(DoMutexCall(s, call));
            ActsOnBlocks(s, MutexAction(call), s') && (s'.running ==> s'.threads[s.current].block.NotBlocked?)
  {
  }

  lemma SemCallBlocks(s: System, call: SemCall)
    requires s.Valid() && s.threads[s.current].block.NotBlocked? && !DoSemCall(s, call).Panicked?
    ensures var s' := After(DoSemCall(s, call));
            ActsOnBlocks(s, SemAction(call), s') && (s'.running ==> s'.threads[s.current].block.NotBlocked?)
  {
  }

  lemma WaitCallBlocks(s: System, c: nat, m: nat, deadline: Option<int>)
    requires s.Valid() && s.threads[s.current].block.NotBlocked? && !CondWait(s, c, m, deadline).Panicked?
    ensures var s' := After(CondWait(s, c, m, deadline));
            ActsOnBlocks(s, CondAction(WaitCond(c, m, deadline)), s')
            && (s'.running ==> s'.threads[s.current].block.NotBlocked?)
  {
  }

  lemma CondCallBlocks(s: System, call: CondCall)
    requires s.Valid() && s.threads[s.current].block.NotBlocked? && !DoCondCall(s, call).Panicked?
    ensures var s' := After(DoCondCall(s, call));
            ActsOnBlocks(s, CondAction(call), s') && (s'.running ==> s'.threads[s.current].block.NotBlocked?)
  {
    match call
    case WaitCond(c, m, deadline) => WaitCallBlocks(s, c, m, deadline);
    case _ =>
  }

  lemma SuspendBlocks(s: System, t: nat)
    requires s.Valid() && s.threads[s.current].block.NotBlocked? && !SuspendThread(s, t).Panicked?
    ensures var s' := After(SuspendThread(s, t));
            ActsOnBlocks(s, Suspend(t), s') && (s'.running ==> s'.threads[s.current].block.NotBlocked?)
  {
    if t == s.current {
      assert SuspendThread(s, t) == Yielded(Yield(s, Suspended(1, NotBlocked)));
    } else {
      assert SuspendThread(s, t) == Returned(s.WithBlock(t, SuspendedOnce(s.threads[t].block)), 0);
    }
  }

  lemma ResumeBlocks(s: System, t: nat)
    requires s.Valid() && s.threads[s.current].block.NotBlocked? && !ResumeThread(s, t).Panicked?
    ensures var s' := After(ResumeThread(s, t));
            ActsOnBlocks(s, Resume(t), s') && (s'.running ==> s'.threads[s.current].block.NotBlocked?)
  {
  }

  /** Actions that concern the running thread alone, or create a thread. */
  lemma OwnCallBlocks(s: System, action: Action)
    requires s.Valid() && s.threads[s.current].block.NotBlocked?
    requires action.Compute? || action.YieldTick? || action.SleepUntil? || action.JoinThread? || action.Create?
            || action.Exit?
    ensures var s' := After(Act(s, action));
            ActsOnBlocks(s, action, s') && (s'.running ==> s'.threads[s.current].block.NotBlocked?)
  {
  }

  /** The effect of any action on every thread's block. */
  lemma ActBlocks(s: System, action: Action)
    requires s.Valid() && s.threads[s.current].block.NotBlocked? && !Act(s, action).Panicked?
    ensures var s' := After(Act(s, action));
            ActsOnBlocks(s, action, s') && (s'.running ==> s'.threads[s.current].block.NotBlocked?)
  {
    match action
    case MutexAction(call) => MutexCallBlocks(s, call);
    case SemAction(call) => SemCallBlocks(s, call);
    case CondAction(call) => CondCallBlocks(s, call);
    case Suspend(t) => SuspendBlocks(s, t);
    case Resume(t) => ResumeBlocks(s, t);
    case _ => OwnCallBlocks(s, action);
  }

  lemma UnderlyingUnaffected(block: ThreadBlock)
    requires WellSuspended(block)
    ensures Underlying(SuspendedOnce(block)) == Underlying(block) == Underlying(ResumedOnce(block))
  {
  }

  /** The threads blocked on just that, suspended or not. */
  ghost function BlockedThreads(s: System, block: ThreadBlock): set<nat> {
    set t | 0 <= t < |s.threads| && Underlying(s.threads[t].block) == block
  }

  /** Actions change the waiters of a semaphore or a mutex exactly by the running thread starting to wait. */
  lemma BlockedAfterAct(s: System, action: Action, block: ThreadBlock)
    requires Sound(s) && s.threads[s.current].block.NotBlocked? && !Act(s, action).Panicked?
    requires block.OnSemaphore? || block.OnMutex?
    ensures BlockedThreads(After(Act(s, action)), block) ==
            BlockedThreads(s, block) + (if OwnBlock(s, action) == block then {s.current} else {})
  {
    var s' := After(Act(s, action));
    ActBlocks(s, action);
    forall u | 0 <= u < |s'.threads|
      ensures u in BlockedThreads(s', block) <==>
              u in BlockedThreads(s, block) || (u == s.current && OwnBlock(s, action) == block)
    {
      if u < |s.threads| && u != s.current {
        UnderlyingUnaffected(s.threads[u].block);
      }
    }
  }

  /** Switching threads moves contexts only. */
  ghost predicate OnlyContextsDiffer(s: System, s': System) {
    && |s'.threads| == |s.threads|
    && s'.mutexes == s.mutexes && s'.sems == s.sems && s'.conds == s.conds && s'.joinResults == s.joinResults
    && forall u :: 0 <= u < |s.threads| ==>
         s'.threads[u].block == s.threads[u].block && s'.threads[u].active == s.threads[u].active
         && s'.threads[u].returnValue == s.threads[u].returnValue
         && s'.threads[u].continuation == s.threads[u].continuation
  }

  lemma SwitchMovesContexts(s: System, t: nat)
    requires s.Valid() && SwitchThread(s, t).Returned?
    ensures OnlyContextsDiffer(s, SwitchThread(s, t).s) && SwitchThread(s, t).s.current == t < |s.threads|
  {
  }

  /** A scheduling step runs a chosen thread, or leaves everybody blocked. */
  lemma ScheduleStep(s: System, clocks: seq<Clock>) returns (mid: System)
    requires Step(s, Schedule(clocks)).Some?
    ensures var s' := Step(s, Schedule(clocks)).value;
            && s.Valid() && !s.running && |clocks| == |s.threads| && OnlyContextsDiffer(mid, s') && s'.Valid()
            && (if s'.running then
                  && ScanFrom(s, clocks, 0, None) == Scheduled(s'.current, mid)
                  && s'.current < |s.threads| && ChosenFrom(s, mid, s'.current)
                  && (forall u :: 0 <= u < |s.threads| && u != s'.current ==> KeptOrTimedOut(s, mid, u))
                else
                  && mid == s' && PassedTo(s, mid, |s.threads|) && ScanFrom(s, clocks, 0, None).AllBlocked?)
  {
    var r := ScanFrom(s, clocks, 0, None);
    mid := r.s;
    ScanKeepsShape(s, clocks, 0, None);
    if r.Scheduled? {
      ScheduledThreadOwnsItsMutex(s, clocks);
      if r.t != mid.current {
        SwitchMovesContexts(mid, r.t);
      }
    } else {
      var _, _ := ScanTrace(s, s, clocks, 0, None);
    }
  }

  /** Every step keeps the basic invariant. */
  lemma StepKeepsSound(s: System, e: Event)
    requires Sound(s) && Step(s, e).Some?
    ensures Sound(Step(s, e).value)
  {
    var s' := Step(s, e).value;
    match e
    case Do(action) =>
      ActBlocks(s, action);
      forall u | 0 <= u < |s'.threads| ensures WellSuspended(s'.threads[u].block) {
        if u < |s.threads| && u != s.current {
          assert WellSuspended(s.threads[u].block);
        }
      }
    case Schedule(clocks) =>
      var mid := ScheduleStep(s, clocks);
      forall u | 0 <= u < |s'.threads| ensures WellSuspended(s'.threads[u].block) {
        assert WellSuspended(s.threads[u].block);
        assert !(s'.running && u == s'.current) ==> KeptOrTimedOut(s, mid, u);
      }
  }
}
