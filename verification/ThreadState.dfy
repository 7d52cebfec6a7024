/**
 The emulator's threads and the objects they block on, as `src/environment.rs`,
 `src/environment/mutex.rs`, `src/libc/semaphore.rs` and `src/libc/pthread/cond.rs` keep them.
 */
module ThreadState {
  import opened Wrappers

  datatype ThreadBlock =
    | NotBlocked
    | Sleeping(until: int)
    | OnMutex(mutex: nat)
    | OnSemaphore(sem: nat)
    | OnCondition(cond: nat, deadline: Option<int>)
    | Joining(joinee: nat, ptr: nat)
    | WaitingForDebugger
    | Suspended(count: nat, previous: ThreadBlock)

  /** Where a thread's suspended coroutine continues: inside a condition wait, or elsewhere. */
  datatype Continuation = Plain | InConditionWait(cond: nat)

  /** Guest and host contexts are opaque tokens here. */
  datatype Thread = Thread(active: bool, block: ThreadBlock, returnValue: Option<nat>, continuation: Continuation,
                           guestContext: Option<nat>, hostContext: Option<nat>)

  datatype MutexKind = Normal | ErrorCheck | Recursive

  /** `locked` holds the owner and the number of its locks. */
  datatype Mutex = Mutex(kind: MutexKind, waitingCount: nat, locked: Option<(nat, nat)>)

  datatype Semaphore = Semaphore(value: int, waiting: set<nat>)

  datatype Condition = Condition(waiting: seq<nat>, waking: seq<nat>, mutex: Option<nat>, timedOut: set<nat>)

  /**
   The environment. `running` says whether the current thread's coroutine is executing (otherwise the
   executor is about to schedule), `executor` is the host context the executor holds for it, and
   `cpu` is the guest context loaded in the CPU. `joinResults` stands for the guest memory that joins
   write to.
   */
  datatype System = System(current: nat, running: bool, executor: Option<nat>, cpu: nat, threads: seq<Thread>,
                           mutexes: map<nat, Mutex>, sems: map<nat, Semaphore>, conds: map<nat, Condition>,
                           joinResults: map<nat, nat>)
  {
    predicate Valid() {
      current < |threads|
    }

    function WithBlock(t: nat, block: ThreadBlock): System
      requires t < |threads|
    {
      this.(threads := threads[t := threads[t].(block := block)])
    }

    function WithMutex(m: nat, mutex: Mutex): System {
      this.(mutexes := mutexes[m := mutex])
    }

    function WithCondition(c: nat, cond: Condition): System {
      this.(conds := conds[c := cond])
    }
  }

  /** The environment as it is created: the main thread runs, with the executor at hand. */
  function InitialState(mainHostContext: nat, cpu: nat): System {
    System(0, true, Some(mainHostContext), cpu, [Thread(true, NotBlocked, None, Plain, None, None)],
           map[], map[], map[], map[])
  }

  /** What a thread is blocked on once suspensions are looked through. */
  function Underlying(block: ThreadBlock): ThreadBlock {
    if block.Suspended? then Underlying(block.previous) else block
  }

  // ---------- Mutexes (src/environment/mutex.rs) ----------

  /** Unknown mutexes count as unlocked. */
  predicate IsLocked(s: System, m: nat) {
    m in s.mutexes && s.mutexes[m].locked.Some?
  }

  /** The owner's lock count is positive, as its type demands. */
  function Relocked(mutex: Mutex, t: nat): Mutex {
    Mutex(mutex.kind, if mutex.waitingCount > 0 then mutex.waitingCount - 1 else 0, Some((t, 1)))
  }

  datatype CallResult = Returned(s: System, value: int) | Yielded(s: System) | Panicked

  const EPERM := 1
  const EBUSY := 16
  const EDEADLK := 11
  const ETIMEDOUT := 60

  /** `yield_thread` with a yielder present: block the current thread and hand over to the executor. */
  function Yield(s: System, block: ThreadBlock): System
    requires s.Valid()
  {
    s.WithBlock(s.current, block).(running := false)
  }

  function LockMutex(s: System, m: nat): CallResult
    requires s.Valid()
  {
    if m !in s.mutexes then Panicked else
      var mutex := s.mutexes[m];
      match mutex.locked
      case None => Returned(s.WithMutex(m, mutex.(locked := Some((s.current, 1)))), 1)
      case Some((owner, count)) =>
        if owner == s.current then
          if mutex.kind.Recursive? then Returned(s.WithMutex(m, mutex.(locked := Some((owner, count + 1)))), count + 1)
          else Returned(s, -EDEADLK)
        else Yielded(Yield(s.WithMutex(m, mutex.(waitingCount := mutex.waitingCount + 1)), OnMutex(m)))
  }

  function UnlockMutex(s: System, m: nat): CallResult {
    if m !in s.mutexes then Panicked else
      var mutex := s.mutexes[m];
      match mutex.locked
      case None => Returned(s, -EPERM)
      case Some((owner, count)) =>
        if owner != s.current && !mutex.kind.Normal? then Returned(s, -EPERM)
        else if count == 1 then Returned(s.WithMutex(m, mutex.(locked := None)), 0)
        else if !mutex.kind.Recursive? || count == 0 then Panicked
        else Returned(s.WithMutex(m, mutex.(locked := Some((owner, count - 1)))), count - 1)
  }

  function DestroyMutex(s: System, m: nat): CallResult {
    if m !in s.mutexes then Panicked
    else if s.mutexes[m].locked.Some? || s.mutexes[m].waitingCount != 0 then Returned(s, -EBUSY)
    else Returned(s.(mutexes := s.mutexes - {m}), 0)
  }

  // ---------- Semaphores (src/environment.rs:1384-1456, src/libc/semaphore.rs) ----------

  /** Two's complement wrap-around of `i32` arithmetic. */
  function WrapI32(n: int): int {
    (n + 0x8000_0000) % 0x1_0000_0000 - 0x8000_0000
  }

  const FALSE := 0
  const TRUE := 1

  function SemDecrement(s: System, sem: nat, waitOnLock: bool): CallResult
    requires s.Valid()
  {
    if sem !in s.sems then Returned(s, FALSE)
    else if s.sems[sem].value > 0 then
      Returned(s.(sems := s.sems[sem := s.sems[sem].(value := s.sems[sem].value - 1)]), TRUE)
    else if !waitOnLock then Returned(s, FALSE)
    else Yielded(Yield(s.(sems := s.sems[sem := s.sems[sem].(waiting := s.sems[sem].waiting + {s.current})]),
                       OnSemaphore(sem)))
  }

  function SemIncrement(s: System, sem: nat): CallResult {
    if sem !in s.sems then Returned(s, FALSE)
    else Returned(s.(sems := s.sems[sem := s.sems[sem].(value := WrapI32(s.sems[sem].value + 1))]), TRUE)
  }

  /** `initial` is the `u32` argument of `sem_init`, stored as an `i32`. */
  function SemInit(s: System, sem: nat, initial: int): CallResult {
    if sem in s.sems then Returned(s, 0) else Returned(s.(sems := s.sems[sem := Semaphore(WrapI32(initial), {})]), 0)
  }

  function SemDestroy(s: System, sem: nat): CallResult {
    Returned(s.(sems := s.sems - {sem}), if sem in s.sems then 0 else -1)
  }

  // ---------- Condition variables (src/libc/pthread/cond.rs) ----------

  function CondInit(s: System, c: nat): CallResult {
    Returned(s.WithCondition(c, Condition([], [], None, {})), 0)
  }

  /** `pthread_cond_wait` and `pthread_cond_timedwait`, up to the yield. */
  function CondWait(s: System, c: nat, m: nat, deadline: Option<int>): CallResult
    requires s.Valid()
  {
    match UnlockMutex(s, m)
    case Returned(s1, value) =>
      if value < 0 then Returned(s1, -value)
      else if c !in s.conds then Panicked
      else
        var cond := s.conds[c];
        if cond.mutex != Some(m) && (cond.waiting != [] || cond.waking != []) then Panicked
        else
          var s2 := s1.WithCondition(c, cond.(mutex := Some(m), waiting := cond.waiting + [s.current]));
          var waiter := s2.threads[s.current].(continuation := InConditionWait(c));
          Yielded(Yield(s2.(threads := s2.threads[s.current := waiter]),
                        OnCondition(c, deadline)))
    case _ => Panicked
  }

  /** The rest of the wait, once the thread runs again. */
  function CondFinish(s: System): CallResult
    requires s.Valid() && s.threads[s.current].continuation.InConditionWait?
  {
    var c := s.threads[s.current].continuation.cond;
    if c !in s.conds then Panicked else
      var cond := s.conds[c];
      Returned(s.WithCondition(c, cond.(timedOut := cond.timedOut - {s.current}))
                .(threads := s.threads[s.current := s.threads[s.current].(continuation := Plain)]),
               if s.current in cond.timedOut then ETIMEDOUT else 0)
  }

  function CondSignal(s: System, c: nat): CallResult {
    if c !in s.conds then Panicked else
      var cond := s.conds[c];
      if cond.waiting == [] then Returned(s, 0)
      else Returned(s.WithCondition(c, cond.(waiting := cond.waiting[1..], waking := cond.waking + [cond.waiting[0]])),
                    0)
  }

  function CondBroadcast(s: System, c: nat): CallResult {
    if c !in s.conds then Panicked else
      var cond := s.conds[c];
      Returned(s.WithCondition(c, cond.(waiting := [], waking := cond.waking + cond.waiting)), 0)
  }

  function CondDestroy(s: System, c: nat): CallResult {
    if c !in s.conds || s.conds[c].waiting != [] || s.conds[c].waking != [] then Panicked
    else Returned(s.(conds := s.conds - {c}), 0)
  }

  // ---------- Suspension (src/environment.rs:1311-1362) ----------

  function SuspendThread(s: System, t: nat): CallResult
    requires s.Valid()
  {
    if t >= |s.threads| then Panicked else
      match s.threads[t].block
      case Suspended(count, previous) => Returned(s.WithBlock(t, Suspended(count + 1, previous)), 0)
      case block =>
        if t == s.current then Yielded(Yield(s, Suspended(1, block)))
        else Returned(s.WithBlock(t, Suspended(1, block)), 0)
  }

  function ResumeThread(s: System, t: nat): CallResult {
    if t >= |s.threads| then Panicked else
      match s.threads[t].block
      case Suspended(count, previous) =>
        if count == 0 then Panicked
        else if count > 1 then Returned(s.WithBlock(t, Suspended(count - 1, previous)), 0)
        else Returned(s.WithBlock(t, previous), 0)
      case _ => Returned(s, 0)
  }

  // ---------- Thread creation and exit ----------

  function NewThread(s: System, guestContext: nat, hostContext: nat): CallResult {
    Returned(s.(threads := s.threads + [Thread(true, NotBlocked, None, Plain, Some(guestContext), Some(hostContext))]),
             |s.threads|)
  }

  function ExitThread(s: System, value: nat): CallResult
    requires s.Valid()
  {
    Yielded(s.(threads := s.threads[s.current := s.threads[s.current].(active := false, returnValue := Some(value))],
               running := false, executor := None))
  }

  // ---------- The scheduler's pass over the threads (src/environment.rs:2516-2689) ----------

  /** One reading of the two clocks. */
  datatype Clock = Clock(instant: int, unix: int)

  /** What looking at one candidate leads to. */
  datatype Visit = Chosen(s: System) | PassedOver(s: System, awakening: Option<int>) | VisitPanicked

  function Unblock(s: System, t: nat): System
    requires t < |s.threads|
  {
    s.WithBlock(t, NotBlocked)
  }

  function UnblockWithMutex(s: System, t: nat, m: nat): Visit
    requires t < |s.threads|
  {
    if m !in s.mutexes then VisitPanicked
    else Chosen(Unblock(s, t).WithMutex(m, Relocked(s.mutexes[m], t)))
  }

  function Without(q: seq<nat>, t: nat): seq<nat> {
    if q == [] then [] else (if q[0] == t then [] else [q[0]]) + Without(q[1..], t)
  }

  function VisitCondition(s: System, t: nat, c: nat, deadline: Option<int>, now: Clock): Visit
    requires t < |s.threads|
  {
    if c !in s.conds || s.conds[c].mutex.None? then VisitPanicked else
      var cond, m := s.conds[c], s.conds[c].mutex.value;
      if cond.waking != [] && cond.waking[0] == t && !IsLocked(s, m) then
        UnblockWithMutex(s.WithCondition(c, cond.(waking := cond.waking[1..])), t, m)
      else if deadline.None? then PassedOver(s, None)
      else if deadline.value > now.unix then PassedOver(s, Some(now.instant + (deadline.value - now.unix)))
      else if t in cond.timedOut then VisitPanicked
      else
        var s' := s.WithCondition(c, cond.(timedOut := cond.timedOut + {t}, waking := Without(cond.waking, t),
                                           waiting := Without(cond.waiting, t)));
        if IsLocked(s, m) then PassedOver(s'.WithBlock(t, OnMutex(m)), None) else UnblockWithMutex(s', t, m)
  }

  function VisitThread(s: System, t: nat, now: Clock): Visit
    requires t < |s.threads|
  {
    if !s.threads[t].active then PassedOver(s, None) else
      match s.threads[t].block
      case NotBlocked => Chosen(s)
      case Sleeping(until) => if until <= now.instant then Chosen(Unblock(s, t)) else PassedOver(s, Some(until))
      case OnMutex(m) => if IsLocked(s, m) then PassedOver(s, None) else UnblockWithMutex(s, t, m)
      case OnSemaphore(sem) =>
        if sem !in s.sems then Chosen(Unblock(s, t))
        else if s.sems[sem].value > 0 then
          Chosen(Unblock(s, t).(sems := s.sems[sem := Semaphore(s.sems[sem].value - 1, s.sems[sem].waiting - {t})]))
        else PassedOver(s, None)
      case OnCondition(c, deadline) => VisitCondition(s, t, c, deadline, now)
      case Joining(joinee, ptr) =>
        if joinee >= |s.threads| then VisitPanicked
        else if s.threads[joinee].active then PassedOver(s, None)
        else if ptr == 0 then Chosen(Unblock(s, t))
        else if s.threads[joinee].returnValue.None? then VisitPanicked
        else Chosen(Unblock(s, t).(joinResults := s.joinResults[ptr := s.threads[joinee].returnValue.value]))
      case WaitingForDebugger => VisitPanicked
      case Suspended(count, _) => if count > 0 then PassedOver(s, None) else VisitPanicked
  }

  datatype ScanResult = Scheduled(t: nat, s: System) | AllBlocked(s: System, nextAwakening: Option<int>) | ScanPanicked

  function Candidate(s: System, i: nat): (t: nat)
    requires s.Valid()
    ensures t < |s.threads|
  {
    (s.current + 1 + i) % |s.threads|
  }

  function Earlier(a: Option<int>, b: Option<int>): Option<int> {
    match (a, b)
    case (Some(x), Some(y)) => Some(if x < y then x else y)
    case (Some(_), None) => a
    case (None, _) => b
  }

  /** One pass, from the `i`th candidate on; the clocks are read once per candidate. */
  function ScanFrom(s: System, clocks: seq<Clock>, i: nat, nextAwakening: Option<int>): ScanResult
    requires s.Valid() && |clocks| == |s.threads| && i <= |s.threads|
    decreases |s.threads| - i
  {
    if i == |s.threads| then AllBlocked(s, nextAwakening) else
      var t := Candidate(s, i);
      match VisitThread(s, t, clocks[i])
      case Chosen(s') => Scheduled(t, s')
      case PassedOver(s', awakening) =>
        VisitKeepsShape(s, t, clocks[i]);
        ScanFrom(s', clocks, i + 1, Earlier(nextAwakening, awakening))
      case VisitPanicked => ScanPanicked
  }

  /** How many passes over blocked threads without any timer are let through before the emulator gives up. */
  const DEADLOCK_GRACE := 3

  /** `schedule_next_thread` so far: a choice, no choice yet, or a panic. */
  datatype ScheduleResult =
    | Chose(t: nat, s: System, grace: nat)
    | Waiting(s: System, grace: nat)
    | Deadlocked(s: System)
    | SchedulePanicked

  /**
   The scheduler's passes, one for each reading of the clocks, until one of them finds a thread.
   `grace` is the process-wide count of passes that found neither a thread nor a timer.
   */
  function ScheduleFrom(s: System, readings: seq<seq<Clock>>, grace: nat): ScheduleResult
    requires s.Valid() && forall i :: 0 <= i < |readings| ==> |readings[i]| == |s.threads|
    decreases |readings|
  {
    if readings == [] then Waiting(s, grace) else
      ScanKeepsShape(s, readings[0], 0, None);
      match ScanFrom(s, readings[0], 0, None)
      case Scheduled(t, s') => Chose(t, s', grace)
      case ScanPanicked => SchedulePanicked
      case AllBlocked(s', Some(_)) => ScheduleFrom(s', readings[1..], grace)
      case AllBlocked(s', None) =>
        if grace >= DEADLOCK_GRACE then Deadlocked(s') else ScheduleFrom(s', readings[1..], grace + 1)
  }

  /** Visits touch neither the executor's side nor the number of threads. */
  ghost predicate SameShape(s: System, s': System) {
    && s'.current == s.current && |s'.threads| == |s.threads|
    && s'.running == s.running && s'.executor == s.executor && s'.cpu == s.cpu
  }

  lemma VisitConditionKeepsShape(s: System, t: nat, c: nat, deadline: Option<int>, now: Clock)
    requires t < |s.threads|
    ensures var v := VisitCondition(s, t, c, deadline, now); !v.VisitPanicked? ==> SameShape(s, v.s)
  {
  }

  lemma VisitKeepsShape(s: System, t: nat, now: Clock)
    requires t < |s.threads|
    ensures var v := VisitThread(s, t, now); !v.VisitPanicked? ==> SameShape(s, v.s)
  {
    if s.threads[t].block.OnCondition? {
      VisitConditionKeepsShape(s, t, s.threads[t].block.cond, s.threads[t].block.deadline, now);
    }
  }

  // ---------- switch_thread (src/environment.rs:1761-1779) ----------

  function SwitchThread(s: System, t: nat): CallResult
    requires s.Valid()
  {
    if t >= |s.threads| || t == s.current || !s.threads[t].active || s.threads[t].guestContext.None? then Panicked
    else if s.threads[s.current].guestContext.Some? then Panicked
    else if s.executor.None? && s.threads[s.current].active then Panicked
    else if s.threads[t].hostContext.None? then Panicked
    else
      var parked := s.threads[s.current].(guestContext := Some(s.cpu), hostContext := s.executor);
      var loaded := s.threads[t].(guestContext := None, hostContext := None);
      Returned(s.(threads := s.threads[s.current := parked][t := loaded], cpu := s.threads[t].guestContext.value,
                  executor := s.threads[t].hostContext, current := t), 0)
  }

  // ---------- Steps of the whole system ----------

  /** What the running thread may do next. */
  datatype Action =
    | Compute(cpu: nat)
    | YieldTick
    | SleepUntil(until: int)
    | JoinThread(t: nat, ptr: nat)
    | Create(guestContext: nat, hostContext: nat)
    | Exit(value: nat)
    | Suspend(t: nat)
    | Resume(t: nat)
    | MutexAction(call: MutexCall)
    | SemAction(semCall: SemCall)
    | CondAction(condCall: CondCall)

  datatype MutexCall = InitMutex(m: nat, kind: MutexKind) | Lock(m: nat) | Unlock(m: nat) | Destroy(m: nat)
  datatype SemCall =
    | Init(sem: nat, initial: int)
    | Wait(sem: nat, waitOnLock: bool)
    | Post(sem: nat)
    | DestroySem(sem: nat)
  datatype CondCall =
    | InitCond(c: nat)
    | WaitCond(c: nat, m: nat, deadline: Option<int>)
    | FinishWait
    | Signal(c: nat)
    | Broadcast(c: nat)
    | DestroyCond(c: nat)

  function DoMutexCall(s: System, call: MutexCall): CallResult
    requires s.Valid()
  {
    match call
    case InitMutex(m, kind) => if m in s.mutexes then Panicked else Returned(s.WithMutex(m, Mutex(kind, 0, None)), 0)
    case Lock(m) => LockMutex(s, m)
    case Unlock(m) => UnlockMutex(s, m)
    case Destroy(m) => DestroyMutex(s, m)
  }

  function DoSemCall(s: System, call: SemCall): CallResult
    requires s.Valid()
  {
    match call
    case Init(sem, initial) => SemInit(s, sem, initial)
    case Wait(sem, waitOnLock) => SemDecrement(s, sem, waitOnLock)
    case Post(sem) => SemIncrement(s, sem)
    case DestroySem(sem) => SemDestroy(s, sem)
  }

  function DoCondCall(s: System, call: CondCall): CallResult
    requires s.Valid()
  {
    match call
    case InitCond(c) => CondInit(s, c)
    case WaitCond(c, m, deadline) => CondWait(s, c, m, deadline)
    case FinishWait => if s.threads[s.current].continuation.InConditionWait? then CondFinish(s) else Panicked
    case Signal(c) => CondSignal(s, c)
    case Broadcast(c) => CondBroadcast(s, c)
    case DestroyCond(c) => CondDestroy(s, c)
  }

  function Act(s: System, action: Action): CallResult
    requires s.Valid()
  {
    match action
    case Compute(cpu) => Returned(s.(cpu := cpu), 0)
    case YieldTick => Yielded(Yield(s, NotBlocked))
    case SleepUntil(until) => Yielded(Yield(s, Sleeping(until)))
    case JoinThread(t, ptr) => Yielded(Yield(s, Joining(t, ptr)))
    case Create(guestContext, hostContext) => NewThread(s, guestContext, hostContext)
    case Exit(value) => ExitThread(s, value)
    case Suspend(t) => SuspendThread(s, t)
    case Resume(t) => ResumeThread(s, t)
    case MutexAction(call) => DoMutexCall(s, call)
    case SemAction(call) => DoSemCall(s, call)
    case CondAction(call) => DoCondCall(s, call)
  }

  datatype Event = Do(action: Action) | Schedule(clocks: seq<Clock>)

  /** A thread that wakes inside a condition wait first finishes that wait. */
  predicate MayDo(s: System, action: Action) {
    s.Valid() && s.running && s.threads[s.current].active
    && (s.threads[s.current].continuation.InConditionWait? <==> action == CondAction(FinishWait))
  }

  /** The next state, or nothing if the event cannot happen or ends in a panic. */
  function Step(s: System, e: Event): Option<System> {
    match e
    case Do(action) =>
      if !MayDo(s, action) then None else
        (match Act(s, action)
         case Returned(s', _) => Some(s')
         case Yielded(s') => Some(s')
         case Panicked => None)
    case Schedule(clocks) =>
      if !s.Valid() || s.running || |clocks| != |s.threads| then None else
        match ScanFrom(s, clocks, 0, None)
        case AllBlocked(s', _) => Some(s')
        case ScanPanicked => None
        case Scheduled(t, s') =>
          ScanKeepsShape(s, clocks, 0, None);
          if t == s'.current then Some(s'.(running := true)) else
            (match SwitchThread(s', t)
             case Returned(s'', _) => Some(s''.(running := true))
             case _ => None)
  }

  lemma {:induction false} ScanKeepsShape(s: System, clocks: seq<Clock>, i: nat, nextAwakening: Option<int>)
    requires s.Valid() && |clocks| == |s.threads| && i <= |s.threads|
    ensures var r := ScanFrom(s, clocks, i, nextAwakening);
            !r.ScanPanicked? ==> SameShape(s, r.s)
    ensures ScanFrom(s, clocks, i, nextAwakening).Scheduled? ==> ScanFrom(s, clocks, i, nextAwakening).t < |s.threads|
    decreases |s.threads| - i
  {
    if i < |s.threads| {
      var t := Candidate(s, i);
      VisitKeepsShape(s, t, clocks[i]);
      match VisitThread(s, t, clocks[i])
      case PassedOver(s', awakening) => ScanKeepsShape(s', clocks, i + 1, Earlier(nextAwakening, awakening));
      case _ =>
    }
  }

  ghost predicate StepAt(states: seq<System>, events: seq<Event>, i: nat)
    requires |states| == |events| + 1 && i < |events|
  {
    Step(states[i], events[i]) == Some(states[i + 1])
  }

  /** The states a system passes through. */
  ghost predicate IsRun(states: seq<System>, events: seq<Event>) {
    |states| == |events| + 1 && forall i :: 0 <= i < |events| ==> StepAt(states, events, i)
  }

  lemma NoSteps(s: System)
    ensures IsRun([s], [])
  {
  }

  /** A run and one more step. */
  lemma Extended(states: seq<System>, events: seq<Event>, e: Event, s': System)
    returns (states': seq<System>, events': seq<Event>)
    requires IsRun(states, events) && Step(states[|events|], e) == Some(s')
    ensures states' == states + [s'] && events' == events + [e]
    ensures IsRun(states', events') && states'[|events'|] == s' && states'[0] == states[0]
  {
    states', events' := states + [s'], events + [e];
    forall i | 0 <= i < |events'| ensures StepAt(states', events', i) {
      assert i < |events| ==> StepAt(states, events, i);
    }
  }

  lemma RunPrefix(states: seq<System>, events: seq<Event>, n: nat)
    requires IsRun(states, events) && n < |events|
    ensures IsRun(states[..n + 1], events[..n])
    ensures Step(states[n], events[n]) == Some(states[n + 1])
  {
    var states', events' := states[..n + 1], events[..n];
    assert StepAt(states, events, n);
    forall i | 0 <= i < n ensures StepAt(states', events', i) {
      assert StepAt(states, events, i);
    }
  }

  /** The first thread has blocked and the second is ready: the scheduler switches to it. */
  lemma SwitchesToSecond(s: System, clocks: seq<Clock>, guest: nat, host: nat)
    requires s.current == 0 && !s.running && |s.threads| == 2 && |clocks| == 2 && s.executor.Some?
    requires s.threads[0].guestContext.None?
    requires s.threads[1] == Thread(true, NotBlocked, None, Plain, Some(guest), Some(host))
    ensures Step(s, Schedule(clocks)) ==
            Some(s.(current := 1, running := true, executor := Some(host), cpu := guest,
                    threads := [s.threads[0].(guestContext := Some(s.cpu), hostContext := s.executor),
                                Thread(true, NotBlocked, None, Plain, None, None)]))
  {
    assert Candidate(s, 0) == 1;
    assert ScanFrom(s, clocks, 0, None) == Scheduled(1, s);
    assert SwitchThread(s, 1).s.threads ==
           [s.threads[0].(guestContext := Some(s.cpu), hostContext := s.executor),
            Thread(true, NotBlocked, None, Plain, None, None)];
  }
}
