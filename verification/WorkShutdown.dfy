/**
 The end of RepeatWorkProc::Deactivate in the protocol of WorkQueue.dfy: when it returns, and how many more
 steps the worker can make, with works and timers registered or not.
 */
module WorkShutdown {
  import opened Common
  import opened WorkQueue
  import opened WorkRuns
  import R = WorkRegistry

  /** Deactivate waits for the worker, which had passed ThreadLoop line 100 when the flag was lowered. */
  ghost predicate Stopping(s: State) {
    && s.boss.Joining? && !s.running && !s.worker.Starting?
    && (s.worker.AtWait? || s.worker.HoldsMutex() ==> s.token)
    && (WORKER in s.registry.calls ==> s.worker.Running?)
  }

  /** Steps that the worker's loop makes at most before it ends, when nothing is pushed any more. */
  function StepsToExit(s: State): nat {
    match s.worker
    case NotStarted => 0
    case Exited => 0
    case AtCheck => 1
    case AtWait => 2
    case Starting => 3
    case Draining => 3 * |s.queue| + 3
    case Looking(_) => 3 * |s.queue| + 5
    case Running(_) => 3 * |s.queue| + 4
  }

  function WorkerSteps(trace: seq<Step>): nat {
    if trace == [] then 0
    else WorkerSteps(trace[..|trace| - 1]) + if trace[|trace| - 1].OfWorker() then 1 else 0
  }

  /** A timer of a work is alive, or a call that can make one is past the repeat mutex or holds it. */
  ghost predicate CanFire(s: State) {
    || (exists id :: id in s.registry.live)
    || (exists t :: t in s.registry.calls && s.registry.calls[t].AddCreate?)
    || (WORKER in s.registry.calls && s.registry.calls[WORKER].AddInsert?)
  }

  /** Deactivate is still waiting, and no work calls AddWork. */
  predicate Waiting(e: Step) {
    !e.Join? && !(e.Call? && e.step.BeginAdd? && e.step.thread == WORKER)
  }

  predicate AllWaiting(trace: seq<Step>) {
    forall i | 0 <= i < |trace| :: Waiting(trace[i])
  }

  // ---------------------------------------------------------------- bounded

  /** The worker is on its way out, or drains what cannot grow. */
  ghost predicate Draining(s: State) {
    Stopping(s) && (s.worker.HoldsMutex() ==> !CanFire(s))
  }

  lemma StepCountsDown(s: State, e: Step)
    requires Draining(s) && Enabled(s, e) && Waiting(e)
    ensures Draining(Next(s, e))
    ensures StepsToExit(Next(s, e)) + (if e.OfWorker() then 1 else 0) <= StepsToExit(s)
  {
    if e.Call? && s.worker.HoldsMutex() {
      CannotBecomeFiring(s, e.step);
    }
  }

  lemma CannotBecomeFiring(s: State, c: R.Step)
    requires !CanFire(s) && s.worker.HoldsMutex() && Enabled(s, Call(c)) && Waiting(Call(c))
    ensures !CanFire(Next(s, Call(c)))
  {
    var r, r' := s.registry, Next(s, Call(c)).registry;
    assert forall id :: id in r'.live ==> id in r.live;
    assert forall t :: t in r'.calls && r'.calls[t].AddCreate? ==> t in r.calls && r.calls[t].AddCreate?;
  }

  lemma {:induction false} ShutdownCountsDown(s: State, trace: seq<Step>)
    requires Draining(s) && Possible(s, trace) && AllWaiting(trace)
    ensures Draining(After(s, trace)) && WorkerSteps(trace) + StepsToExit(After(s, trace)) <= StepsToExit(s)
  {
    if trace != [] {
      var prefix := trace[..|trace| - 1];
      ShutdownCountsDown(s, prefix);
      StepCountsDown(After(s, prefix), trace[|trace| - 1]);
    }
  }

  // ---------------------------------------------------------------- the worker alone

  lemma OneMore(s: State, trace: seq<Step>, e: Step) returns (longer: seq<Step>)
    requires Possible(s, trace) && Enabled(After(s, trace), e)
    ensures longer == trace + [e] && Possible(s, longer) && After(s, longer) == Next(After(s, trace), e)
    ensures WorkerSteps(longer) == WorkerSteps(trace) + if e.OfWorker() then 1 else 0
    ensures AllWaiting(trace) && Waiting(e) ==> AllWaiting(longer)
  {
    longer := Extended(s, trace, e);
    assert longer[..|trace|] == trace;
  }

  /** Steps left in the call that the running work is inside. */
  function CallSteps(s: State): nat {
    if WORKER !in s.registry.calls then 0
    else
      match s.registry.calls[WORKER]
      case AddInsert(_) => 3 case AddCreate(_) => 2 case AddStore(_, _) => 1
      case DropTimer(_) => 3 case EraseEntry(_) => 2 case EraseWork(_) => 1
  }

  function CallStep(c: R.Call): R.Step {
    match c
    case AddInsert(_) => R.Insert(WORKER)
    case AddCreate(_) => R.Create(WORKER, true)
    case AddStore(_, _) => R.Store(WORKER)
    case DropTimer(_) => R.Drop(WORKER)
    case EraseEntry(_) => R.Erase(WORKER)
    case EraseWork(_) => R.Forget(WORKER)
  }

  /** A step of the worker's loop, or of the call that its running work is inside. */
  predicate OfWorkerThread(s: State, e: Step) {
    || e.OfWorker()
    || (s.worker.Running? && WORKER in s.registry.calls && e == Call(CallStep(s.registry.calls[WORKER])))
  }

  /**
   A worker that has not left its loop can make a step, if only in the call of its work; one that has lets Join
   return.
   */
  lemma ShutdownNeverBlocks(s: State) returns (e: Step)
    requires Stopping(s)
    ensures Enabled(s, e)
    ensures if StepsToExit(s) == 0 then e == Join else OfWorkerThread(s, e)
  {
    e := match s.worker
      case NotStarted => Join
      case Exited => Join
      case AtWait => TakeToken
      case AtCheck => CheckStop
      case Draining => if s.queue == [] then DrainDone else Pop
      case Looking(id) => if id in s.registry.works then Begin else Skip
      case Running(_) => if WORKER in s.registry.calls then Call(CallStep(s.registry.calls[WORKER])) else Finish;
  }

  function Queued(s: State): nat {
    if s.worker.HoldsMutex() then |s.queue| else 0
  }

  lemma OwnStep(s: State, e: Step)
    requires Stopping(s) && Enabled(s, e) && StepsToExit(s) > 0 && OfWorkerThread(s, e)
    ensures Waiting(e) && Stopping(Next(s, e)) && Queued(s) <= Queued(Next(s, e)) + if e.OfWorker() then 1 else 0
    ensures if e.OfWorker() then StepsToExit(Next(s, e)) < StepsToExit(s)
            else StepsToExit(Next(s, e)) == StepsToExit(s) && CallSteps(Next(s, e)) < CallSteps(s)
  {
  }

  /** The worker alone reaches its exit from any of these states, through all that is queued. */
  lemma {:induction false} WorkerExits(s: State, trace: seq<Step>) returns (longer: seq<Step>)
    requires Possible(s, trace) && Stopping(After(s, trace))
    ensures Possible(s, longer) && (AllWaiting(trace) ==> AllWaiting(longer))
    ensures StepsToExit(After(s, longer)) == 0 && Enabled(After(s, longer), Join)
    ensures WorkerSteps(longer) >= WorkerSteps(trace) + Queued(After(s, trace))
    decreases StepsToExit(After(s, trace)), CallSteps(After(s, trace))
  {
    longer := trace;
    if StepsToExit(After(s, trace)) > 0 {
      var e := ShutdownNeverBlocks(After(s, trace));
      OwnStep(After(s, trace), e);
      var next := OneMore(s, trace, e);
      longer := WorkerExits(s, next);
    }
  }

  // ---------------------------------------------------------------- unbounded

  lemma {:induction false} PushMany(s: State, trace: seq<Step>, id: int, n: nat) returns (longer: seq<Step>)
    requires Possible(s, trace) && AllWaiting(trace) && Stopping(After(s, trace)) && After(s, trace).worker.HoldsMutex()
    requires id in After(s, trace).registry.live
    ensures Possible(s, longer) && AllWaiting(longer) && Stopping(After(s, longer))
      && After(s, longer).worker.HoldsMutex()
    ensures After(s, longer).registry == After(s, trace).registry && |After(s, longer).queue| >= n
    decreases n
  {
    longer := trace;
    if n > 0 {
      longer := PushMany(s, trace, id, n - 1);
      longer := OneMore(s, longer, Push(id));
    }
  }

  /** A timer comes to life while the worker holds the mutex. */
  lemma ComesToLife(s: State, trace: seq<Step>) returns (longer: seq<Step>, id: int)
    requires Possible(s, trace) && AllWaiting(trace) && Stopping(After(s, trace)) && After(s, trace).worker.HoldsMutex()
    requires CanFire(After(s, trace))
    ensures Possible(s, longer) && AllWaiting(longer) && Stopping(After(s, longer))
      && After(s, longer).worker.HoldsMutex()
    ensures id in After(s, longer).registry.live && WorkerSteps(longer) >= WorkerSteps(trace)
  {
    var r := After(s, trace).registry;
    longer := trace;
    if j :| j in r.live {
      id := j;
    } else if t :| t in r.calls && r.calls[t].AddCreate? {
      id := r.calls[t].id;
      longer := OneMore(s, longer, Call(R.Create(t, true)));
    } else {
      id := r.calls[WORKER].id;
      longer := OneMore(s, longer, Call(R.Insert(WORKER)));
      longer := OneMore(s, longer, Call(R.Create(WORKER, true)));
    }
  }

  lemma ShutdownHasNoBound(s: State, trace: seq<Step>, n: nat) returns (longer: seq<Step>)
    requires Possible(s, trace) && AllWaiting(trace) && Stopping(After(s, trace)) && After(s, trace).worker.HoldsMutex()
    requires CanFire(After(s, trace))
    ensures Possible(s, longer) && AllWaiting(longer) && WorkerSteps(longer) >= n
  {
    var alive, id := ComesToLife(s, trace);
    var pushed := PushMany(s, alive, id, n);
    longer := WorkerExits(s, pushed);
  }

  ghost predicate BoundedBy(s: State, n: nat) {
    forall trace | Possible(s, trace) && AllWaiting(trace) :: WorkerSteps(trace) <= n
  }

  /**
   While Deactivate waits and no work calls AddWork, the number of steps that the worker's loop can still make is
   bounded if and only if the worker is not draining, or no timer of a work is alive or about to be made. It then
   is at most the measure.
   */
  lemma ShutdownIsBoundedIff(s: State)
    requires Stopping(s)
    ensures (exists n: nat :: BoundedBy(s, n)) <==> !(s.worker.HoldsMutex() && CanFire(s))
    ensures !(s.worker.HoldsMutex() && CanFire(s)) ==> BoundedBy(s, StepsToExit(s))
  {
    if s.worker.HoldsMutex() && CanFire(s) {
      forall n: nat
        ensures !BoundedBy(s, n)
      {
        var trace := ShutdownHasNoBound(s, [], n + 1);
      }
    } else {
      forall trace | Possible(s, trace) && AllWaiting(trace)
        ensures WorkerSteps(trace) <= StepsToExit(s)
      {
        ShutdownCountsDown(s, trace);
      }
      assert BoundedBy(s, StepsToExit(s));
    }
  }

  /** A running work that registers another one takes the bound away. */
  lemma RegisteringWorkHasNoBound(s: State, id: int, n: nat) returns (trace: seq<Step>)
    requires Stopping(s) && s.worker.Running? && WORKER !in s.registry.calls && id !in s.registry.works
    ensures Possible(s, trace) && Join !in trace && WorkerSteps(trace) >= n
  {
    var began := OneMore(s, [], Call(R.BeginAdd(WORKER, id)));
    var next := After(s, began);
    var rest := ShutdownHasNoBound(next, [], n);
    trace := began + rest;
    Joined(s, began, rest);
    StepsAdd(began, rest);
  }

  lemma {:induction false} StepsAdd(a: seq<Step>, b: seq<Step>)
    ensures WorkerSteps(a + b) == WorkerSteps(a) + WorkerSteps(b)
    decreases |b|
  {
    if b == [] {
      assert a + b == a;
    } else {
      assert (a + b)[..|a + b| - 1] == a + b[..|b| - 1];
      StepsAdd(a, b[..|b| - 1]);
    }
  }

  // ---------------------------------------------------------------- overtaken

  /** The other case: Deactivate lowered the flag before the worker stored it. */
  ghost predicate Overtaken(s: State) {
    s.boss.Joining? && (s.worker.Starting? || (s.running && !s.worker.Exited? && !s.worker.NotStarted?))
  }

  /** Then the worker raises the flag again and never leaves its loop, so Deactivate never returns. */
  lemma {:induction false} OvertakenShutdownHangs(s: State, trace: seq<Step>)
    requires Overtaken(s) && Possible(s, trace)
    ensures Overtaken(After(s, trace)) && !Enabled(After(s, trace), Join)
  {
    if trace != [] {
      OvertakenShutdownHangs(s, trace[..|trace| - 1]);
    }
  }

  ghost predicate FlagMatches(s: State) {
    && (s.running ==> !s.worker.NotStarted? && !s.worker.Starting? && !s.worker.Exited?)
    && (s.worker.Exited? ==> s.boss.Lowered? || s.boss.Joining?)
    && (s.boss.Idle? || s.boss.Clearing? || s.boss.Cleared? ==> s.running || s.worker.NotStarted? || s.worker.Starting?)
    && (WORKER in s.registry.calls ==> s.worker.Running?)
  }

  lemma {:induction false} LoopStates(trace: seq<Step>)
    requires Possible(INITIAL, trace)
    ensures FlagMatches(After(INITIAL, trace))
  {
    if trace != [] {
      LoopStates(trace[..|trace| - 1]);
      StepKeepsFlag(After(INITIAL, trace[..|trace| - 1]), trace[|trace| - 1]);
    }
  }

  lemma StepKeepsFlag(s: State, e: Step)
    requires FlagMatches(s) && Enabled(s, e)
    ensures FlagMatches(Next(s, e))
  {
  }

  ghost predicate CanReturn(s: State) {
    exists future :: Possible(s, future) && Enabled(After(s, future), Join)
  }

  /**
   When Deactivate has woken the worker, whatever was registered meanwhile, it can return in the future if and
   only if the worker has executed line 100 before the flag was lowered.
   */
  lemma DeactivateReturnsIff(trace: seq<Step>)
    requires Possible(INITIAL, trace) && Enabled(After(INITIAL, trace), WakeWorker)
    ensures var s := After(INITIAL, trace);
            CanReturn(Next(s, WakeWorker)) <==> !s.worker.Starting? && !s.running
  {
    LoopStates(trace);
    var s := Next(After(INITIAL, trace), WakeWorker);
    if s.worker.Starting? || s.running {
      forall future | Possible(s, future)
        ensures !Enabled(After(s, future), Join)
      {
        OvertakenShutdownHangs(s, future);
      }
    } else {
      var future := WorkerExits(s, []);
    }
  }

  const CLEARING := [Call(R.BeginClear), Call(R.ClearEntries), Call(R.ClearWorks)]

  /** A reachable case of the failure: Activate and, before the new thread runs, Deactivate. */
  lemma ActivateThenDeactivateHangs() returns (trace: seq<Step>)
    ensures trace == [Activate, Call(R.BeginClear), Call(R.ClearEntries), Call(R.ClearWorks), LowerFlag]
    ensures Possible(INITIAL, trace) && Enabled(After(INITIAL, trace), WakeWorker)
    ensures !CanReturn(Next(After(INITIAL, trace), WakeWorker))
  {
    var started := State([], false, false, R.EMPTY, 0, Starting, Idle);
    var cleared := started.(boss := Cleared);
    PassedThrough([INITIAL, started], [Activate]);
    ClearNothing(started);
    Joined(INITIAL, [Activate], CLEARING);
    trace := Extended(INITIAL, [Activate] + CLEARING, LowerFlag);
    DeactivateReturnsIff(trace);
  }

  const TO_OUTLIVED := STARTING + CLEARING + ADDING + FIRING + [LowerFlag, WakeWorker]
  const OUTLIVED := State([5], true, false, REGISTERED, 0, Worker.Draining, Joining)

  lemma ReachOutlived()
    ensures Reaches(INITIAL, TO_OUTLIVED, OUTLIVED)
  {
    var begun, cleared := With(true, Idle, R.EMPTY), With(true, Cleared, R.EMPTY);
    var added := With(true, Cleared, REGISTERED);
    Starts();
    ClearNothing(begun);
    Adds(Cleared);
    Fires(Cleared);
    StopsDraining();
    Chained(INITIAL, STARTING, begun, CLEARING, cleared);
    Chained(INITIAL, STARTING + CLEARING, cleared, ADDING, added);
    Chained(INITIAL, STARTING + CLEARING + ADDING, added, FIRING, Drains(Cleared));
    Chained(INITIAL, STARTING + CLEARING + ADDING + FIRING, Drains(Cleared), [LowerFlag, WakeWorker], OUTLIVED);
  }

  lemma StopsDraining()
    ensures Reaches(Drains(Cleared), [LowerFlag, WakeWorker], OUTLIVED)
  {
    PassedCleanly([Drains(Cleared), State([5], false, false, REGISTERED, 0, Worker.Draining, Lowered), OUTLIVED],
                  [LowerFlag, WakeWorker]);
  }

  /**
   A reachable shutdown without a bound, and without a race: an AddWork between lines 32 and 34 of Deactivate makes
   a timer that nobody deletes, and the worker drains what it fires.
   */
  lemma TimerOutlivesShutdown(n: nat) returns (longer: seq<Step>)
    ensures Reaches(INITIAL, TO_OUTLIVED, OUTLIVED)
    ensures Possible(OUTLIVED, longer) && AllWaiting(longer) && WorkerSteps(longer) >= n
  {
    ReachOutlived();
    assert 5 in OUTLIVED.registry.live;
    longer := ShutdownHasNoBound(OUTLIVED, [], n);
  }

  lemma ClearNothing(s: State)
    requires s.registry == R.EMPTY && s.boss.Idle?
    ensures Reaches(s, CLEARING, s.(boss := Cleared))
  {
    var a := s.(registry := R.EMPTY.(clearing := R.Visiting(None)), boss := Clearing);
    var b := s.(registry := R.EMPTY.(clearing := R.Emptied), boss := Clearing);
    ClearSteps(s, a, b);
    PassedCleanly([s, a, b, s.(boss := Cleared)], CLEARING);
  }

  lemma ClearSteps(s: State, a: State, b: State)
    requires s.registry == R.EMPTY && s.boss.Idle?
    requires a == s.(registry := R.EMPTY.(clearing := R.Visiting(None)), boss := Clearing)
    requires b == s.(registry := R.EMPTY.(clearing := R.Emptied), boss := Clearing)
    ensures Enabled(s, Call(R.BeginClear)) && Next(s, Call(R.BeginClear)) == a
    ensures Enabled(a, Call(R.ClearEntries)) && Next(a, Call(R.ClearEntries)) == b
    ensures Enabled(b, Call(R.ClearWorks)) && Next(b, Call(R.ClearWorks)) == s.(boss := Cleared)
  {
  }
}
