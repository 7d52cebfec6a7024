/** Bounded waiting, suspension and context switching, over every run of the scheduler. */
module SchedulingLaws {
  import opened Wrappers
  import opened ThreadState
  import opened SchedulerPass
  import opened SchedulerSteps

  // ---------- Bounded waiting ----------

  ghost predicate Ready(s: System, t: nat) {
    s.Valid() && t < |s.threads| && s.threads[t].active && s.threads[t].block.NotBlocked?
  }

  /** How many candidates come before `t` in the next pass. */
  function Distance(s: System, t: nat): nat
    requires s.Valid() && t < |s.threads|
  {
    if t > s.current then t - s.current - 1 else t + |s.threads| - s.current - 1
  }

  lemma {:induction false} PassFindsReady(s: System, clocks: seq<Clock>, i: nat, nextAwakening: Option<int>, t: nat)
    requires Ready(s, t) && |clocks| == |s.threads| && i <= Distance(s, t)
    ensures var r := ScanFrom(s, clocks, i, nextAwakening);
            r.ScanPanicked? || (r.Scheduled? && r.t < |s.threads| && Distance(s, r.t) <= Distance(s, t))
    decreases |s.threads| - i
  {
    var u := Candidate(s, i);
    CandidateValue(s, i);
    assert Distance(s, u) == i;
    match VisitThread(s, u, clocks[i])
    case PassedOver(s', awakening) =>
      PassOverFrame(s, u, clocks[i]);
      assert u != t;
      PassFindsReady(s', clocks, i + 1, Earlier(nextAwakening, awakening), t);
    case _ =>
  }

  function Decisions(events: seq<Event>): nat {
    if events == [] then 0 else (if events[0].Schedule? then 1 else 0) + Decisions(events[1..])
  }

  /** Every scheduling step is a decision, whatever comes before it, and nothing else is. */
  lemma {:induction false} DecisionsAreSchedules(events: seq<Event>, e: Event)
    ensures Decisions([]) == 0 && Decisions(events + [e]) == Decisions(events) + if e.Schedule? then 1 else 0
    decreases events
  {
    var all := events + [e];
    if events == [] {
      assert all[1..] == [];
    } else {
      assert all[1..] == events[1..] + [e];
      DecisionsAreSchedules(events[1..], e);
    }
  }

  /** One scheduling decision picks `t` or brings it strictly closer; actions leave the distance alone. */
  lemma StepApproaches(s: System, e: Event, t: nat)
    requires Ready(s, t) && Step(s, e).Some? && (e.Do? ==> s.threads[s.current].block.NotBlocked?)
    ensures var s' := Step(s, e).value;
            Ready(s', t) && |s'.threads| == |s.threads| ==>
              if e.Do? then Distance(s', t) == Distance(s, t)
              else s'.running && (s'.current == t || Distance(s', t) < Distance(s, t))
  {
    match e
    case Do(action) => ActBlocks(s, action);
    case Schedule(clocks) =>
      var mid := ScheduleStep(s, clocks);
      PassFindsReady(s, clocks, 0, None, t);
  }

  /**
   Bounded waiting: among a fixed set of threads, an active thread that stays unblocked is chosen
   within `Distance + 1` scheduling decisions, so within `n - 1` of them when it is not the current one.
   */
  lemma {:induction false} BoundedWaiting(states: seq<System>, events: seq<Event>, t: nat) returns (i: nat)
    requires IsRun(states, events) && Sound(states[0]) && Ready(states[0], t)
    requires forall j :: 0 <= j < |states| ==> Ready(states[j], t) && |states[j].threads| == |states[0].threads|
    requires Decisions(events) > Distance(states[0], t)
    ensures i < |events| && events[i].Schedule? && states[i + 1].running && states[i + 1].current == t
    ensures Decisions(events[..i]) <= Distance(states[0], t)
    decreases |events|
  {
    assert StepAt(states, events, 0);
    StepApproaches(states[0], events[0], t);
    StepKeepsSound(states[0], events[0]);
    if events[0].Schedule? && states[1].current == t {
      i := 0;
    } else {
      RunSuffix(states, events);
      assert forall j :: 0 <= j < |states[1..]| ==> states[1..][j] == states[j + 1];
      var k := BoundedWaiting(states[1..], events[1..], t);
      i := k + 1;
      assert events[..i][1..] == events[1..][..k] && events[..i] != [];
    }
  }

  lemma RunSuffix(states: seq<System>, events: seq<Event>)
    requires IsRun(states, events) && events != []
    ensures IsRun(states[1..], events[1..])
  {
    forall i | 0 <= i < |events[1..]| ensures Step(states[1..][i], events[1..][i]) == Some(states[1..][i + 1]) {
      assert StepAt(states, events, i + 1);
    }
  }

  /** The bound in terms of the number of threads. */
  lemma DistanceBound(s: System, t: nat)
    requires s.Valid() && t < |s.threads|
    ensures Distance(s, t) < |s.threads|
    ensures t != s.current ==> Distance(s, t) + 1 <= |s.threads| - 1
  {
  }

  // ---------- Suspension ----------

  function DepthChange(e: Event, t: nat): int {
    if e == Do(Suspend(t)) then 1 else if e == Do(Resume(t)) then -1 else 0
  }

  function Depth(events: seq<Event>, t: nat): int {
    if events == [] then 0 else Depth(events[..|events| - 1], t) + DepthChange(events[|events| - 1], t)
  }

  function SuspendedBlock(depth: int, previous: ThreadBlock): ThreadBlock {
    if depth > 0 then Suspended(depth, previous) else previous
  }

  /** After every proper prefix of the events, more suspensions than resumptions are outstanding. */
  ghost predicate StillSuspended(events: seq<Event>, t: nat, count: nat) {
    forall i :: 0 <= i < |events| ==> count + Depth(events[..i], t) > 0
  }

  lemma StillSuspendedPrefix(events: seq<Event>, t: nat, count: nat)
    requires StillSuspended(events, t, count) && events != []
    ensures StillSuspended(events[..|events| - 1], t, count) && count + Depth(events[..|events| - 1], t) > 0
  {
    var events' := events[..|events| - 1];
    forall i | 0 <= i < |events'| ensures count + Depth(events'[..i], t) > 0 {
      assert events'[..i] == events[..i];
    }
  }

  /** A suspended thread's block changes only by its own suspensions and resumptions. */
  lemma StepKeepsSuspended(s: System, e: Event, t: nat)
    requires Sound(s) && Step(s, e).Some? && t < |s.threads| && s.threads[t].block.Suspended?
    ensures var s', block := Step(s, e).value, s.threads[t].block;
            && t < |s'.threads|
            && s'.threads[t].block == SuspendedBlock(block.count + DepthChange(e, t), block.previous)
            && (s'.running ==> s'.current != t)
  {
    assert WellSuspended(s.threads[t].block);
    match e
    case Do(action) =>
      ActBlocks(s, action);
      assert t != s.current;
    case Schedule(clocks) =>
      var mid := ScheduleStep(s, clocks);
      assert KeptOrTimedOut(s, mid, t);
  }

  /**
   A thread suspended `count` times stays suspended, with its original block kept aside, for as long
   as resumptions have not caught up, and does not run in the meantime; catching up restores the
   original block exactly.
   */
  lemma {:induction false} SuspendedUntilResumed(states: seq<System>, events: seq<Event>, t: nat, count: nat,
                                                 previous: ThreadBlock)
    requires IsRun(states, events) && Sound(states[0]) && events != []
    requires t < |states[0].threads| && states[0].threads[t].block == Suspended(count, previous)
    requires StillSuspended(events, t, count)
    ensures Sound(states[|events|]) && t < |states[|events|].threads|
    ensures states[|events|].threads[t].block == SuspendedBlock(count + Depth(events, t), previous)
    ensures states[|events|].running ==> states[|events|].current != t
    decreases |events|
  {
    var n := |events| - 1;
    RunPrefix(states, events, n);
    StillSuspendedPrefix(events, t, count);
    if n > 0 {
      SuspendedUntilResumed(states[..n + 1], events[..n], t, count, previous);
    }
    SuspendedOneMore(states[n], events[n], t, count + Depth(events[..n], t), previous);
  }

  lemma SuspendedOneMore(s: System, e: Event, t: nat, depth: int, previous: ThreadBlock)
    requires Sound(s) && Step(s, e).Some? && t < |s.threads| && depth > 0
    requires s.threads[t].block == Suspended(depth, previous)
    ensures var s' := Step(s, e).value;
            && Sound(s') && t < |s'.threads|
            && s'.threads[t].block == SuspendedBlock(depth + DepthChange(e, t), previous)
            && (s'.running ==> s'.current != t)
  {
    StepKeepsSound(s, e);
    StepKeepsSuspended(s, e, t);
  }

  /** Suspending a thread that was not suspended and resuming it as often leaves its block as it was. */
  lemma SuspendResumeRoundTrip(states: seq<System>, events: seq<Event>, t: nat)
    requires IsRun(states, events) && Sound(states[0]) && |events| >= 2 && events[0] == Do(Suspend(t))
    requires t < |states[0].threads| && !states[0].threads[t].block.Suspended?
    requires StillSuspended(events[1..], t, 1) && 1 + Depth(events[1..], t) == 0
    ensures t < |states[|events|].threads| && states[|events|].threads[t].block == states[0].threads[t].block
  {
    assert StepAt(states, events, 0);
    FirstSuspension(states[0], t);
    RunSuffix(states, events);
    SuspendedUntilResumed(states[1..], events[1..], t, 1, states[0].threads[t].block);
  }

  lemma FirstSuspension(s: System, t: nat)
    requires Sound(s) && Step(s, Do(Suspend(t))).Some? && t < |s.threads| && !s.threads[t].block.Suspended?
    ensures var s' := Step(s, Do(Suspend(t))).value;
            Sound(s') && t < |s'.threads| && s'.threads[t].block == Suspended(1, s.threads[t].block)
  {
    ActBlocks(s, Suspend(t));
    StepKeepsSound(s, Do(Suspend(t)));
  }

  // ---------- Contexts ----------

  /** Exactly the current thread has no saved guest context; the others can be switched to. */
  ghost predicate ContextsSaved(s: System) {
    && s.Valid()
    && (forall u :: 0 <= u < |s.threads| ==> (s.threads[u].guestContext.None? <==> u == s.current))
    && (forall u :: 0 <= u < |s.threads| && u != s.current && s.threads[u].active ==> s.threads[u].hostContext.Some?)
    && (s.threads[s.current].active ==> s.executor.Some?)
  }

  lemma InitialContextsSaved(host: nat, cpu: nat)
    ensures ContextsSaved(InitialState(host, cpu))
  {
  }

  /** The registers a thread sees: the CPU's if it is current, its saved ones otherwise. */
  function RegisterView(s: System, u: nat): Option<nat>
    requires u < |s.threads|
  {
    if u == s.current then Some(s.cpu) else s.threads[u].guestContext
  }

  /** Switching cannot fail, and leaves every thread's registers as that thread sees them. */
  lemma SwitchKeepsViews(s: System, t: nat)
    requires ContextsSaved(s) && t < |s.threads| && t != s.current && s.threads[t].active
    ensures SwitchThread(s, t).Returned?
    ensures var s' := SwitchThread(s, t).s;
            && ContextsSaved(s') && s'.current == t && |s'.threads| == |s.threads|
            && forall u :: 0 <= u < |s.threads| ==> RegisterView(s', u) == RegisterView(s, u)
  {
  }

  /** Contexts and activity are not touched by anything but switching, creating and exiting. */
  ghost predicate SameContexts(s: System, s': System) {
    && s'.current == s.current && s'.cpu == s.cpu && s'.executor == s.executor && |s'.threads| == |s.threads|
    && forall u :: 0 <= u < |s.threads| ==>
         s'.threads[u].guestContext == s.threads[u].guestContext
             && s'.threads[u].hostContext == s.threads[u].hostContext
         && s'.threads[u].active == s.threads[u].active
  }

  lemma MutexCallContexts(s: System, call: MutexCall)
    requires s.Valid() && !DoMutexCall(s, call).Panicked?
    ensures SameContexts(s, After(DoMutexCall(s, call)))
  {
  }

  lemma SemCallContexts(s: System, call: SemCall)
    requires s.Valid() && !DoSemCall(s, call).Panicked?
    ensures SameContexts(s, After(DoSemCall(s, call)))
  {
  }

  lemma CondCallContexts(s: System, call: CondCall)
    requires s.Valid() && !DoCondCall(s, call).Panicked?
    ensures SameContexts(s, After(DoCondCall(s, call)))
  {
  }

  lemma SuspendContexts(s: System, t: nat)
    requires s.Valid() && !SuspendThread(s, t).Panicked?
    ensures SameContexts(s, After(SuspendThread(s, t)))
  {
  }

  lemma ResumeContexts(s: System, t: nat)
    requires s.Valid() && !ResumeThread(s, t).Panicked?
    ensures SameContexts(s, After(ResumeThread(s, t)))
  {
  }

  lemma ActKeepsViews(s: System, action: Action)
    requires ContextsSaved(s) && !Act(s, action).Panicked?
    ensures var s' := After(Act(s, action));
            && ContextsSaved(s') && |s.threads| <= |s'.threads|
            && forall u :: 0 <= u < |s.threads| && !(action.Compute? && u == s.current) ==>
                RegisterView(s', u) == RegisterView(s, u)
  {
    match action
    case MutexAction(call) => MutexCallContexts(s, call);
    case SemAction(call) => SemCallContexts(s, call);
    case CondAction(call) => CondCallContexts(s, call);
    case Suspend(t) => SuspendContexts(s, t);
    case Resume(t) => ResumeContexts(s, t);
    case _ =>
  }

  lemma PassKeepsContexts(s: System, clocks: seq<Clock>)
    requires ContextsSaved(s) && |clocks| == |s.threads| && !ScanFrom(s, clocks, 0, None).ScanPanicked?
    ensures var mid := ScanFrom(s, clocks, 0, None).s;
            SameContexts(s, mid) && ContextsSaved(mid)
  {
    var r := ScanFrom(s, clocks, 0, None);
    if r.Scheduled? {
      ScheduledThreadOwnsItsMutex(s, clocks);
    } else {
      var _, _ := ScanTrace(s, s, clocks, 0, None);
    }
    forall u | 0 <= u < |s.threads|
      ensures r.s.threads[u].guestContext == s.threads[u].guestContext
              && r.s.threads[u].hostContext == s.threads[u].hostContext
              && r.s.threads[u].active == s.threads[u].active
    {
      assert !(r.Scheduled? && u == r.t) ==> KeptOrTimedOut(s, r.s, u);
    }
  }

  /** A scheduling step fails only if the pass itself does: the switch's assertions always hold. */
  lemma ScheduleSucceeds(s: System, clocks: seq<Clock>)
    requires ContextsSaved(s) && !s.running && |clocks| == |s.threads|
    ensures Step(s, Schedule(clocks)).Some? <==> !ScanFrom(s, clocks, 0, None).ScanPanicked?
  {
    var r := ScanFrom(s, clocks, 0, None);
    if !r.ScanPanicked? {
      PassKeepsContexts(s, clocks);
      if r.Scheduled? {
        ScheduledThreadOwnsItsMutex(s, clocks);
        if r.t != r.s.current {
          SwitchKeepsViews(r.s, r.t);
        }
      }
    }
  }

  /**
   Over every step, exactly the current thread lacks a saved context, and no thread's registers change
   in its own view except by its own computing.
   */
  lemma StepKeepsViews(s: System, e: Event)
    requires ContextsSaved(s) && Step(s, e).Some?
    ensures var s' := Step(s, e).value;
            && ContextsSaved(s') && |s.threads| <= |s'.threads|
            && forall u :: 0 <= u < |s.threads| && !(e.Do? && e.action.Compute? && u == s.current) ==>
                 RegisterView(s', u) == RegisterView(s, u)
  {
    match e
    case Do(action) => ActKeepsViews(s, action);
    case Schedule(clocks) =>
      PassKeepsContexts(s, clocks);
      var r := ScanFrom(s, clocks, 0, None);
      if r.Scheduled? {
        ScheduledThreadOwnsItsMutex(s, clocks);
        if r.t != r.s.current {
          SwitchKeepsViews(r.s, r.t);
        }
      }
  }

  /** A thread that does not compute during a run finds its registers as it left them. */
  lemma {:induction false} RegistersSurviveRuns(states: seq<System>, events: seq<Event>, u: nat)
    requires IsRun(states, events) && ContextsSaved(states[0]) && u < |states[0].threads|
    requires forall i :: 0 <= i < |events| && events[i].Do? && events[i].action.Compute? ==> states[i].current != u
    ensures ContextsSaved(states[|events|]) && u < |states[|events|].threads|
    ensures RegisterView(states[|events|], u) == RegisterView(states[0], u)
    decreases |events|
  {
    if events != [] {
      var n := |events| - 1;
      RunPrefix(states, events, n);
      RegistersSurviveRuns(states[..n + 1], events[..n], u);
      StepKeepsViews(states[n], events[n]);
    }
  }
}
