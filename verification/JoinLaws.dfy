/** What a join yields, over every run (src/environment.rs:2663-2679). */
module JoinLaws {
  import opened Wrappers
  import opened ThreadState
  import opened SchedulerChoice
  import opened SchedulerPass
  import opened SchedulerSteps

  /** The thread has ended with this value. */
  predicate Ended(s: System, t: nat, value: nat) {
    t < |s.threads| && !s.threads[t].active && s.threads[t].returnValue == Some(value)
  }

  /** Where a joining thread wants the value of the other one, if it does. */
  predicate WantsValue(s: System, t: nat, joinee: nat, ptr: nat) {
    t < |s.threads| && s.threads[t].block == Joining(joinee, ptr)
  }

  // ---------- What a scheduling step writes ----------

  lemma ChosenJoiner(s: System, t: nat, now: Clock)
    requires t < |s.threads| && VisitThread(s, t, now).Chosen?
    ensures var results := VisitThread(s, t, now).s.joinResults;
            match s.threads[t].block
            case Joining(joinee, ptr) =>
              && joinee < |s.threads| && !s.threads[joinee].active
              && (ptr == 0 ==> results == s.joinResults)
              && (ptr != 0 ==> s.threads[joinee].returnValue.Some?
                               && results == s.joinResults[ptr := s.threads[joinee].returnValue.value])
            case _ => results == s.joinResults
  {
  }

  /** A pass that runs a joining thread writes the value that the joined thread had left when the pass began. */
  lemma PassGivesValue(s: System, clocks: seq<Clock>, t: nat, joinee: nat, ptr: nat)
    requires s.Valid() && |clocks| == |s.threads| && ScanFrom(s, clocks, 0, None).Scheduled?
    requires ScanFrom(s, clocks, 0, None).t == t && WantsValue(s, t, joinee, ptr)
    ensures var results := ScanFrom(s, clocks, 0, None).s.joinResults;
            && joinee < |s.threads| && !s.threads[joinee].active
            && (ptr == 0 ==> results == s.joinResults)
            && (ptr != 0 ==> s.threads[joinee].returnValue.Some?
                             && results == s.joinResults[ptr := s.threads[joinee].returnValue.value])
  {
    var s2, j := ScanTrace(s, s, clocks, 0, None);
    UnvisitedKept(s, s2, j);
    ChosenJoiner(s2, t, clocks[j]);
    assert KeptOrTimedOut(s, s2, joinee);
  }

  // ---------- Ended threads ----------

  lemma ExitEnds(s: System, value: nat)
    requires Step(s, Do(Exit(value))).Some?
    ensures Ended(Step(s, Do(Exit(value))).value, s.current, value)
  {
  }

  lemma MutexCallKeepsEnded(s: System, call: MutexCall, t: nat, value: nat)
    requires s.Valid() && !DoMutexCall(s, call).Panicked? && Ended(s, t, value)
    ensures Ended(After(DoMutexCall(s, call)), t, value)
  {
  }

  lemma CondCallKeepsEnded(s: System, call: CondCall, t: nat, value: nat)
    requires s.Valid() && !DoCondCall(s, call).Panicked? && Ended(s, t, value)
    ensures Ended(After(DoCondCall(s, call)), t, value)
  {
    if call.WaitCond? {
      assert UnlockMutex(s, call.m).Returned? ==> UnlockMutex(s, call.m).s.threads == s.threads;
    }
  }

  /** Nothing a thread does changes another one that has ended. */
  lemma ActKeepsEnded(s: System, action: Action, t: nat, value: nat)
    requires MayDo(s, action) && !Act(s, action).Panicked? && Ended(s, t, value)
    ensures Ended(After(Act(s, action)), t, value)
  {
    match action
    case MutexAction(call) => MutexCallKeepsEnded(s, call, t, value);
    case CondAction(call) => CondCallKeepsEnded(s, call, t, value);
    case _ =>
  }

  /** Nor does the scheduler. */
  lemma ScheduleKeepsEnded(s: System, clocks: seq<Clock>, t: nat, value: nat)
    requires Step(s, Schedule(clocks)).Some? && Ended(s, t, value)
    ensures Ended(Step(s, Schedule(clocks)).value, t, value)
  {
    var r := ScanFrom(s, clocks, 0, None);
    if r.Scheduled? {
      ScheduledThreadOwnsItsMutex(s, clocks);
      assert t != r.t ==> KeptOrTimedOut(s, r.s, t);
    } else {
      var s2, j := ScanTrace(s, s, clocks, 0, None);
      assert KeptOrTimedOut(s, r.s, t);
    }
  }

  lemma {:induction false} StaysEnded(states: seq<System>, events: seq<Event>, n: nat, m: nat, t: nat, value: nat)
    requires IsRun(states, events) && n <= m <= |events| && Ended(states[n], t, value)
    ensures Ended(states[m], t, value)
  {
    if n < m {
      StaysEnded(states, events, n, m - 1, t, value);
      assert StepAt(states, events, m - 1);
      match events[m - 1]
      case Do(action) => ActKeepsEnded(states[m - 1], action, t, value);
      case Schedule(clocks) => ScheduleKeepsEnded(states[m - 1], clocks, t, value);
    }
  }

  // ---------- Joins ----------

  /**
   Over every run: when a thread runs on from a join, the other one has ended, and if it asked for the value, it
   finds the one with which the other one had exited, at whatever step that was.
   */
  lemma JoinYieldsExitValue(states: seq<System>, events: seq<Event>, n: nat, m: nat, t: nat, joinee: nat, ptr: nat,
                            value: nat)
    requires IsRun(states, events) && n < m < |events|
    requires events[n] == Do(Exit(value)) && states[n].current == joinee
    requires events[m].Schedule? && WantsValue(states[m], t, joinee, ptr) && ptr != 0
    requires states[m + 1].running && states[m + 1].current == t
    ensures states[m + 1].joinResults == states[m].joinResults[ptr := value]
  {
    assert StepAt(states, events, n) && StepAt(states, events, m);
    ExitEnds(states[n], value);
    StaysEnded(states, events, n + 1, m, joinee, value);
    var r := ScanFrom(states[m], events[m].clocks, 0, None);
    ScanKeepsShape(states[m], events[m].clocks, 0, None);
    PassGivesValue(states[m], events[m].clocks, t, joinee, ptr);
  }

  /** Before the other thread has ended, a joining thread does not run. */
  lemma JoinWaits(s: System, clocks: seq<Clock>, t: nat, joinee: nat, ptr: nat)
    requires Step(s, Schedule(clocks)).Some? && WantsValue(s, t, joinee, ptr)
    requires joinee < |s.threads| && s.threads[joinee].active
    ensures var s' := Step(s, Schedule(clocks)).value; !(s'.running && s'.current == t)
  {
    ScanKeepsShape(s, clocks, 0, None);
    PassChoosesFirst(s, clocks);
  }
}
