/** Conservation of semaphore units over every run of the system. */
module SemaphoreLaws {
  import opened Wrappers
  import opened ThreadState
  import opened SchedulerPass
  import opened SchedulerSteps

  /** The threads blocked on `sem`, suspended or not. */
  ghost function Waiters(s: System, sem: nat): set<nat> {
    BlockedThreads(s, OnSemaphore(sem))
  }

  function PostsIn(e: Event, sem: nat): nat {
    if e == Do(SemAction(Post(sem))) then 1 else 0
  }

  /** Whether the step takes a unit: a wait that succeeds at once, or a waiter that is woken. */
  ghost function AcquiresIn(s: System, e: Event, sem: nat): nat {
    match e
    case Do(SemAction(Wait(w, _))) => if w == sem && sem in s.sems && s.sems[sem].value > 0 then 1 else 0
    case Schedule(clocks) =>
      if s.Valid() && sem in s.sems && |clocks| == |s.threads| then
        var r := ScanFrom(s, clocks, 0, None);
        (if r.Scheduled? && r.t < |s.threads| && s.threads[r.t].block == OnSemaphore(sem) then 1 else 0)
      else 0
    case _ => 0
  }

  /** The books balance: `initial` units, `posts` added and `acquired` taken since. */
  ghost predicate Balanced(s: System, sem: nat, initial: int, posts: nat, acquired: nat) {
    && sem in s.sems
    && s.sems[sem].waiting == Waiters(s, sem)
    && s.sems[sem].value == WrapI32(initial + posts - acquired)
  }

  lemma WrapStep(n: int, k: int)
    ensures WrapI32(WrapI32(n) + k) == WrapI32(n + k)
  {
  }

  lemma ActKeepsBalance(s: System, action: Action, sem: nat, initial: int, posts: nat, acquired: nat)
    requires Sound(s) && s.threads[s.current].block.NotBlocked? && !Act(s, action).Panicked?
    requires Balanced(s, sem, initial, posts, acquired) && action != SemAction(DestroySem(sem))
    ensures Balanced(After(Act(s, action)), sem, initial,
                     posts + PostsIn(Do(action), sem), acquired + AcquiresIn(s, Do(action), sem))
  {
    match action
    case SemAction(call) => SemCallKeepsBooks(s, call, sem, initial, posts, acquired);
    case MutexAction(call) => BlockedAfterAct(s, action, OnSemaphore(sem)); MutexCallsKeepSems(s, call);
    case CondAction(call) => BlockedAfterAct(s, action, OnSemaphore(sem)); CondCallsKeepSems(s, call);
    case _ => BlockedAfterAct(s, action, OnSemaphore(sem));
  }

  lemma SemCallKeepsBooks(s: System, call: SemCall, sem: nat, initial: int, posts: nat, acquired: nat)
    requires Sound(s) && s.threads[s.current].block.NotBlocked? && Balanced(s, sem, initial, posts, acquired)
            && call != DestroySem(sem)
    ensures var e := Do(SemAction(call));
            Balanced(After(DoSemCall(s, call)), sem, initial, posts + PostsIn(e, sem), acquired + AcquiresIn(s, e, sem))
  {
    BlockedAfterAct(s, SemAction(call), OnSemaphore(sem));
    SemCallKeepsBalance(s, call, sem);
    WrapStep(initial + posts - acquired, 1);
    WrapStep(initial + posts - acquired, -1);
  }

  lemma MutexCallsKeepSems(s: System, call: MutexCall)
    requires s.Valid() && !DoMutexCall(s, call).Panicked?
    ensures After(DoMutexCall(s, call)).sems == s.sems
  {
  }

  lemma CondCallsKeepSems(s: System, call: CondCall)
    requires s.Valid() && !DoCondCall(s, call).Panicked?
    ensures After(DoCondCall(s, call)).sems == s.sems
  {
  }

  /** A semaphore call changes the value by what it posts or acquires, and the waiting set by the new waiter. */
  ghost predicate ChangesSemaphore(s: System, call: SemCall, s': System, sem: nat)
    requires s.Valid() && sem in s.sems
  {
    var e := Do(SemAction(call));
    && sem in s'.sems
    && s'.sems[sem].value == WrapI32(s.sems[sem].value + PostsIn(e, sem) - AcquiresIn(s, e, sem))
    && s'.sems[sem].waiting ==
       s.sems[sem].waiting + (if OwnBlock(s, SemAction(call)) == OnSemaphore(sem) then {s.current} else {})
  }

  lemma SemCallKeepsBalance(s: System, call: SemCall, sem: nat)
    requires s.Valid() && sem in s.sems && call != DestroySem(sem) && -0x8000_0000 <= s.sems[sem].value < 0x8000_0000
    ensures ChangesSemaphore(s, call, After(DoSemCall(s, call)), sem)
  {
    match call
    case Wait(w, waitOnLock) => WaitChanges(s, w, waitOnLock, sem);
    case Post(p) => PostChanges(s, p, sem);
    case _ =>
  }

  lemma WaitChanges(s: System, w: nat, waitOnLock: bool, sem: nat)
    requires s.Valid() && sem in s.sems && -0x8000_0000 <= s.sems[sem].value < 0x8000_0000
    ensures ChangesSemaphore(s, Wait(w, waitOnLock), After(SemDecrement(s, w, waitOnLock)), sem)
  {
  }

  lemma PostChanges(s: System, p: nat, sem: nat)
    requires s.Valid() && sem in s.sems && -0x8000_0000 <= s.sems[sem].value < 0x8000_0000
    ensures ChangesSemaphore(s, Post(p), After(SemIncrement(s, p)), sem)
  {
  }

  /** The scheduler wakes at most one waiter, and only by taking a unit for it. */
  lemma ScheduleKeepsBalance(s: System, clocks: seq<Clock>, sem: nat, initial: int, posts: nat, acquired: nat)
    requires Sound(s) && Step(s, Schedule(clocks)).Some?
    requires Balanced(s, sem, initial, posts, acquired)
    ensures Balanced(Step(s, Schedule(clocks)).value, sem, initial, posts,
                     acquired + AcquiresIn(s, Schedule(clocks), sem))
  {
    WrapStep(initial + posts - acquired, -1);
    ScheduleTakesUnit(s, clocks, sem);
    WaitersAfterSchedule(s, clocks, sem);
  }

  /** The waiter that a scheduling step wakes, if any. */
  ghost function Woken(s: System, clocks: seq<Clock>, sem: nat): set<nat>
    requires Step(s, Schedule(clocks)).Some?
  {
    var r := ScanFrom(s, clocks, 0, None);
    if r.Scheduled? && r.t < |s.threads| && s.threads[r.t].block == OnSemaphore(sem) then {r.t} else {}
  }

  lemma ScheduleTakesUnit(s: System, clocks: seq<Clock>, sem: nat)
    requires Step(s, Schedule(clocks)).Some? && sem in s.sems
    ensures var s' := Step(s, Schedule(clocks)).value;
            && sem in s'.sems
            && s'.sems[sem].value == s.sems[sem].value - AcquiresIn(s, Schedule(clocks), sem)
            && (AcquiresIn(s, Schedule(clocks), sem) > 0 ==> s.sems[sem].value > 0)
            && s'.sems[sem].waiting == s.sems[sem].waiting - Woken(s, clocks, sem)
  {
    var mid := ScheduleStep(s, clocks);
  }

  lemma WaitersAfterSchedule(s: System, clocks: seq<Clock>, sem: nat)
    requires Step(s, Schedule(clocks)).Some?
    ensures Waiters(Step(s, Schedule(clocks)).value, sem) == Waiters(s, sem) - Woken(s, clocks, sem)
  {
    var s' := Step(s, Schedule(clocks)).value;
    var mid := ScheduleStep(s, clocks);
    forall u | 0 <= u < |s.threads|
      ensures u in Waiters(s', sem) <==> u in Waiters(s, sem) && u !in Woken(s, clocks, sem)
    {
      assert !(s'.running && u == s'.current) ==> KeptOrTimedOut(s, mid, u);
    }
  }

  /** Every step keeps the books of a semaphore that is not destroyed. */
  lemma StepKeepsBalance(s: System, e: Event, sem: nat, initial: int, posts: nat, acquired: nat)
    requires Sound(s) && Step(s, e).Some? && e != Do(SemAction(DestroySem(sem)))
    requires Balanced(s, sem, initial, posts, acquired)
    ensures Balanced(Step(s, e).value, sem, initial, posts + PostsIn(e, sem), acquired + AcquiresIn(s, e, sem))
  {
    match e
    case Do(action) => ActKeepsBalance(s, action, sem, initial, posts, acquired);
    case Schedule(clocks) => ScheduleKeepsBalance(s, clocks, sem, initial, posts, acquired);
  }

  ghost function TotalPosts(events: seq<Event>, sem: nat): nat {
    if events == [] then 0 else TotalPosts(events[..|events| - 1], sem) + PostsIn(events[|events| - 1], sem)
  }

  ghost function TotalAcquired(states: seq<System>, events: seq<Event>, sem: nat): nat
    requires |states| == |events| + 1
    decreases |events|
  {
    if events == [] then 0 else
      var n := |events| - 1;
      TotalAcquired(states[..n + 1], events[..n], sem) + AcquiresIn(states[n], events[n], sem)
  }

  /**
   Conservation over every run on a semaphore that is not destroyed: initial value plus posts equals
   current value plus acquisitions (as 32-bit integers), and the waiting set is exactly the set of
   threads blocked on the semaphore.
   */
  lemma {:induction false} SemaphoreConservation(states: seq<System>, events: seq<Event>, sem: nat, initial: int)
    requires IsRun(states, events) && Sound(states[0]) && Balanced(states[0], sem, initial, 0, 0)
    requires forall i :: 0 <= i < |events| ==> events[i] != Do(SemAction(DestroySem(sem)))
    ensures Sound(states[|events|])
    ensures Balanced(states[|events|], sem, initial, TotalPosts(events, sem), TotalAcquired(states, events, sem))
    decreases |events|
  {
    if events != [] {
      var n := |events| - 1;
      RunPrefix(states, events, n);
      SemaphoreConservation(states[..n + 1], events[..n], sem, initial);
      StepKeepsSound(states[n], events[n]);
      StepKeepsBalance(states[n], events[n], sem, initial,
                       TotalPosts(events[..n], sem), TotalAcquired(states[..n + 1], events[..n], sem));
    }
  }

  /** Units are only ever taken from what is there. */
  lemma NeverOverdrawn(s: System, e: Event, sem: nat, initial: int, posts: nat, acquired: nat)
    requires Sound(s) && Step(s, e).Some? && e != Do(SemAction(DestroySem(sem)))
    requires Balanced(s, sem, initial, posts, acquired) && 0 <= initial + posts - acquired < 0x8000_0000
    ensures acquired + AcquiresIn(s, e, sem) <= initial + posts
  {
    match e
    case Schedule(clocks) => var _ := ScheduleStep(s, clocks);
    case _ =>
  }

  /** While the books stay within 32 bits, the value is the plain difference exactly below 2^31. */
  lemma ValueIsDifference(s: System, sem: nat, initial: int, posts: nat, acquired: nat)
    requires Balanced(s, sem, initial, posts, acquired) && 0 <= initial + posts - acquired < 0x1_0000_0000
    ensures s.sems[sem].value == initial + posts - acquired <==> initial + posts - acquired < 0x8000_0000
    ensures s.sems[sem].value >= 0 <==> initial + posts - acquired < 0x8000_0000
  {
  }

  /** A post at the largest value, which wraps around. */
  ghost predicate OverflowingPost(s: System, e: Event, sem: nat) {
    e == Do(SemAction(Post(sem))) && sem in s.sems && s.sems[sem].value == 0x7FFF_FFFF
  }

  /** A semaphore made with an argument of 2^31 or more, which is stored as a negative number. */
  ghost predicate NegativeInit(s: System, e: Event, sem: nat) {
    e.Do? && e.action.SemAction? && e.action.semCall.Init? && e.action.semCall.sem == sem
    && sem !in s.sems && WrapI32(e.action.semCall.initial) < 0
  }

  /** The semaphore, if there is one, has a value that is not negative. */
  predicate NonNegative(s: System, sem: nat) {
    sem in s.sems ==> 0 <= s.sems[sem].value < 0x8000_0000
  }

  /** For the arguments of `sem_init`, which are 32 bits wide, that is a matter of the top bit. */
  lemma FreshSemaphoreValue(s: System, sem: nat, initial: int)
    requires sem !in s.sems && 0 <= initial < 0x1_0000_0000
    ensures var s' := SemInit(s, sem, initial).s;
            && sem in s'.sems
            && s'.sems[sem].value == (if initial < 0x8000_0000 then initial else initial - 0x1_0000_0000)
            && (NonNegative(s', sem) <==> initial < 0x8000_0000)
  {
  }

  /** There are exactly two steps by which a value turns negative. */
  lemma StepKeepsSign(s: System, e: Event, sem: nat)
    requires Step(s, e).Some? && NonNegative(s, sem)
    ensures NonNegative(Step(s, e).value, sem) <==> !OverflowingPost(s, e, sem) && !NegativeInit(s, e, sem)
  {
    match e
    case Schedule(clocks) =>
      var mid := ScheduleStep(s, clocks);
    case Do(SemAction(call)) => SemCallKeepsSign(s, call, sem);
    case Do(MutexAction(call)) => MutexCallsKeepSems(s, call);
    case Do(CondAction(call)) => CondCallsKeepSems(s, call);
    case _ =>
  }

  lemma SemCallKeepsSign(s: System, call: SemCall, sem: nat)
    requires s.Valid() && NonNegative(s, sem)
    ensures var e := Do(SemAction(call));
            NonNegative(After(DoSemCall(s, call)), sem) <==> !OverflowingPost(s, e, sem) && !NegativeInit(s, e, sem)
  {
    match call
    case Wait(_, _) =>
    case Post(_) =>
    case Init(_, _) =>
    case DestroySem(_) =>
  }

  ghost predicate TurnsNegative(s: System, e: Event, sem: nat) {
    OverflowingPost(s, e, sem) || NegativeInit(s, e, sem)
  }

  /**
   Over every run, with semaphores made and destroyed as it may be, the value at an address is not
   negative in the first `n` steps exactly if none of them is one of those two.
   */
  lemma {:induction false} SignOverRun(states: seq<System>, events: seq<Event>, sem: nat, n: nat)
    requires IsRun(states, events) && NonNegative(states[0], sem) && n <= |events|
    ensures (forall i :: 0 <= i <= n ==> NonNegative(states[i], sem)) <==>
            (forall i :: 0 <= i < n ==> !TurnsNegative(states[i], events[i], sem))
  {
    if n > 0 {
      SignOverRun(states, events, sem, n - 1);
      if NonNegative(states[n - 1], sem) {
        assert StepAt(states, events, n - 1);
        StepKeepsSign(states[n - 1], events[n - 1], sem);
      }
    }
  }

  /** A step keeps the value the plain difference, and does not lower it below 0, unless it is such a post. */
  lemma StepKeepsValue(s: System, e: Event, sem: nat, initial: int, posts: nat, acquired: nat)
    requires Sound(s) && Step(s, e).Some? && e != Do(SemAction(DestroySem(sem)))
    requires Balanced(s, sem, initial, posts, acquired)
    requires -0x8000_0000 <= initial + posts - acquired < 0x8000_0000
    ensures var s', now := Step(s, e).value, initial + posts - acquired;
            var next := now + PostsIn(e, sem) - AcquiresIn(s, e, sem);
            && sem in s'.sems && s.sems[sem].value == now
            && (s'.sems[sem].value == next <==> !OverflowingPost(s, e, sem))
            && (!OverflowingPost(s, e, sem) ==> next < 0x8000_0000 && (next >= 0 || next >= now))
  {
    StepKeepsBalance(s, e, sem, initial, posts, acquired);
    AcquiresOnlyWhatIsThere(s, e, sem);
    WrapsOnlyAtTheLargest(initial + posts - acquired, PostsIn(e, sem), AcquiresIn(s, e, sem));
  }

  lemma WrapsOnlyAtTheLargest(now: int, posts: nat, acquired: nat)
    requires -0x8000_0000 <= now < 0x8000_0000 && posts <= 1 && acquired <= 1
    requires acquired == 1 ==> now > 0 && posts == 0
    ensures WrapI32(now) == now
    ensures WrapI32(now + posts - acquired) == now + posts - acquired <==> !(now == 0x7FFF_FFFF && posts == 1)
  {
  }

  lemma AcquiresOnlyWhatIsThere(s: System, e: Event, sem: nat)
    requires Step(s, e).Some? && sem in s.sems
    ensures AcquiresIn(s, e, sem) == 1 ==> s.sems[sem].value > 0 && PostsIn(e, sem) == 0
    ensures AcquiresIn(s, e, sem) <= 1
  {
    match e
    case Schedule(clocks) => ScheduleTakesUnit(s, clocks, sem);
    case _ =>
  }

  ghost predicate NoOverflow(states: seq<System>, events: seq<Event>, sem: nat)
    requires |states| == |events| + 1
  {
    forall i :: 0 <= i < |events| ==> !OverflowingPost(states[i], events[i], sem)
  }

  /**
   Over every run without a post at the largest value, and for every argument it was made with, the
   value is what was put in less what was taken, and is negative only if it was made so.
   */
  lemma {:induction false} ValueOverRun(states: seq<System>, events: seq<Event>, sem: nat, initial: int)
    requires IsRun(states, events) && Sound(states[0]) && Balanced(states[0], sem, initial, 0, 0)
    requires forall i :: 0 <= i < |events| ==> events[i] != Do(SemAction(DestroySem(sem)))
    requires NoOverflow(states, events, sem)
    ensures sem in states[|events|].sems
    ensures states[|events|].sems[sem].value ==
            WrapI32(initial) + TotalPosts(events, sem) - TotalAcquired(states, events, sem)
    ensures -0x8000_0000 <= states[|events|].sems[sem].value < 0x8000_0000
    ensures states[|events|].sems[sem].value >= (if WrapI32(initial) < 0 then WrapI32(initial) else 0)
    decreases |events|
  {
    if events != [] {
      var n := |events| - 1;
      RunPrefix(states, events, n);
      var states', events' := states[..n + 1], events[..n];
      var posts, acquired := TotalPosts(events', sem), TotalAcquired(states', events', sem);
      SemaphoreConservation(states', events', sem, initial);
      ValueOverRun(states', events', sem, initial);
      assert !OverflowingPost(states[n], events[n], sem);
      WrappedInitial(states[n], sem, initial, posts, acquired);
      StepKeepsValue(states[n], events[n], sem, WrapI32(initial), posts, acquired);
    }
  }

  lemma WrappedInitial(s: System, sem: nat, initial: int, posts: nat, acquired: nat)
    requires Balanced(s, sem, initial, posts, acquired)
    ensures Balanced(s, sem, WrapI32(initial), posts, acquired)
  {
    var change: int := posts - acquired as int;
    WrapStep(initial, change);
  }

  lemma {:induction false} WithinBoundNoOverflow(states: seq<System>, events: seq<Event>, sem: nat, initial: int)
    requires IsRun(states, events) && Sound(states[0]) && Balanced(states[0], sem, initial, 0, 0)
    requires forall i :: 0 <= i < |events| ==> events[i] != Do(SemAction(DestroySem(sem)))
    requires 0 <= initial && initial + TotalPosts(events, sem) < 0x8000_0000
    ensures NoOverflow(states, events, sem)
    decreases |events|
  {
    if events != [] {
      var n := |events| - 1;
      var states', events' := states[..n + 1], events[..n];
      RunPrefix(states, events, n);
      WithinBoundNoOverflow(states', events', sem, initial);
      ValueOverRun(states', events', sem, initial);
      assert !OverflowingPost(states[n], events[n], sem);
      forall i | 0 <= i < |events| ensures !OverflowingPost(states[i], events[i], sem) {
        assert i < n ==> !OverflowingPost(states'[i], events'[i], sem);
      }
    }
  }

  /**
   So over every run whose initial value and posts together stay within 31 bits, the value is the
   plain difference and never negative.
   */
  lemma ValueNeverNegative(states: seq<System>, events: seq<Event>, sem: nat, initial: int)
    requires IsRun(states, events) && Sound(states[0]) && Balanced(states[0], sem, initial, 0, 0)
    requires forall i :: 0 <= i < |events| ==> events[i] != Do(SemAction(DestroySem(sem)))
    requires 0 <= initial && initial + TotalPosts(events, sem) < 0x8000_0000
    ensures sem in states[|events|].sems
    ensures states[|events|].sems[sem].value ==
            initial + TotalPosts(events, sem) - TotalAcquired(states, events, sem) >= 0
  {
    WithinBoundNoOverflow(states, events, sem, initial);
    ValueOverRun(states, events, sem, initial);
  }

  /** An input: a semaphore made with the largest value is negative after one post. */
  lemma PostWrapsAround(cpu: nat, host: nat, sem: nat)
    ensures var events := [Do(SemAction(Init(sem, 0x7FFF_FFFF))), Do(SemAction(Post(sem)))];
            var s0 := InitialState(host, cpu);
            && Step(s0, events[0]).Some? && Step(Step(s0, events[0]).value, events[1]).Some?
            && Balanced(Step(s0, events[0]).value, sem, 0x7FFF_FFFF, 0, 0)
            && Step(Step(s0, events[0]).value, events[1]).value.sems[sem].value == -0x8000_0000
  {
    var s1 := Step(InitialState(host, cpu), Do(SemAction(Init(sem, 0x7FFF_FFFF)))).value;
    assert Waiters(s1, sem) == {};
  }

  /** An input: one made with 2^31 is negative from the start, in a state that is otherwise in order. */
  lemma NegativeFromTheStart(cpu: nat, host: nat, sem: nat)
    ensures var e, s0 := Do(SemAction(Init(sem, 0x8000_0000))), InitialState(host, cpu);
            && Step(s0, e).Some? && Sound(Step(s0, e).value) && Balanced(Step(s0, e).value, sem, 0x8000_0000, 0, 0)
            && Step(s0, e).value.sems[sem].value == -0x8000_0000
  {
    assert Waiters(Step(InitialState(host, cpu), Do(SemAction(Init(sem, 0x8000_0000)))).value, sem) == {};
  }

  /**
   A freshly initialised semaphore starts balanced exactly when nobody is still blocked on an earlier
   semaphore at that address.
   */
  lemma FreshSemaphoreIsBalanced(s: System, sem: nat, initial: int)
    requires s.Valid() && sem !in s.sems
    ensures Balanced(SemInit(s, sem, initial).s, sem, initial, 0, 0) <==> Waiters(s, sem) == {}
  {
    assert Waiters(SemInit(s, sem, initial).s, sem) == Waiters(s, sem);
  }

  /** The main thread blocked on a semaphore of value 0 while a second thread runs. */
  function MainWaits(host: nat, cpu: nat, guest: nat, host1: nat, sem: nat): System {
    System(1, true, Some(host1), guest,
           [Thread(true, OnSemaphore(sem), None, Plain, Some(cpu), Some(host)),
            Thread(true, NotBlocked, None, Plain, None, None)],
           map[], map[sem := Semaphore(0, {0})], map[], map[])
  }

  lemma MainWaitsIsReachable(host: nat, cpu: nat, guest: nat, host1: nat, sem: nat, clocks: seq<Clock>)
    returns (states: seq<System>, events: seq<Event>)
    requires |clocks| == 2
    ensures IsRun(states, events) && states[0] == InitialState(host, cpu)
    ensures states[|events|] == MainWaits(host, cpu, guest, host1, sem)
  {
    events := [Do(Create(guest, host1)), Do(SemAction(Init(sem, 0))), Do(SemAction(Wait(sem, true))), Schedule(clocks)];
    var s1 := Step(InitialState(host, cpu), events[0]).value;
    var s2 := Step(s1, events[1]).value;
    var s3 := Step(s2, events[2]).value;
    SwitchesToSecond(s3, clocks, guest, host1);
    assert s3.sems[sem].waiting == {0};
    assert s3.sems == map[sem := s3.sems[sem]];
    assert Step(s3, events[3]).value.threads == MainWaits(host, cpu, guest, host1, sem).threads;
    states := [InitialState(host, cpu), s1, s2, s3, MainWaits(host, cpu, guest, host1, sem)];
    assert StepAt(states, events, 0) && StepAt(states, events, 1) && StepAt(states, events, 2)
        && StepAt(states, events, 3);
  }

  /** An input: destroying that semaphore and making it anew forgets its waiter. */
  lemma StaleWaiterUnbalances(host: nat, cpu: nat, guest: nat, host1: nat, sem: nat, initial: int)
    ensures var s := MainWaits(host, cpu, guest, host1, sem);
            var s1 := Step(s, Do(SemAction(DestroySem(sem)))).value;
            var s2 := Step(s1, Do(SemAction(Init(sem, initial)))).value;
            && Sound(s) && Balanced(s, sem, 0, 0, 0)
            && sem in s2.sems && s2.sems[sem].waiting == {} && Waiters(s2, sem) == {0}
            && !Balanced(s2, sem, initial, 0, 0)
  {
    var s := MainWaits(host, cpu, guest, host1, sem);
    var s1 := Step(s, Do(SemAction(DestroySem(sem)))).value;
    assert Waiters(s, sem) == {0};
    assert Waiters(Step(s1, Do(SemAction(Init(sem, initial)))).value, sem) == {0};
  }
}
