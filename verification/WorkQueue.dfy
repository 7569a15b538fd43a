/**
 The producer/consumer protocol of include/common/RepeatWorkProc.cpp and include/common/Locker.cpp under
 every interleaving of its atomic steps: timer callbacks that push an id and then wake the worker, clients
 that register and unregister works, the worker that drains the queue, and Deactivate.

 `token` is the auto-reset event (m_lock_count with m_lock_max_count 1): WakeUp sets it, Wait consumes it.
 The pushes and pops of the std::queue are taken as atomic; the program does not guard the push.
 */
module WorkQueue {
  import opened Common
  import R = WorkRegistry

  datatype Worker =
    | NotStarted
    | Starting              // thread launched, ThreadLoop line 100 not executed yet
    | AtWait
    | AtCheck               // token consumed, flag not read yet
    | Draining              // holds the repeat mutex, about to test the queue
    | Looking(id: int)      // popped, about to look the id up
    | Running(id: int)      // inside the work function
    | Exited
  {
    predicate HoldsMutex() { Draining? || Looking? || Running? }
  }

  /** Progress of a call of Deactivate: lines 28-32, 34, 35 and 36. */
  datatype Boss = Idle | Clearing | Cleared | Lowered | Joining

  datatype State = State(
    queue: seq<int>,
    token: bool,
    running: bool,
    registry: R.Registry,
    waking: nat,          // callbacks between their push and their WakeUp
    worker: Worker,
    boss: Boss)

  const INITIAL := State([], false, false, R.EMPTY, 0, NotStarted, Idle)

  /** The worker as a caller of AddWork and DeleteWork; other threads have other numbers. */
  const WORKER := 0

  datatype Step =
    | Push(id: int) | WakeUp
    | Call(step: R.Step)                               // a step of AddWork or DeleteWork, or lines 28-32 of Deactivate
    | Activate
    | StoreRunning | TakeToken | CheckStop | CheckGo | Pop | Skip | Begin | Finish | DrainDone
    | LowerFlag | WakeWorker | Join                    // the rest of Deactivate
  {
    /** A step of the worker's own loop. */
    predicate OfWorker() {
      StoreRunning? || TakeToken? || CheckStop? || CheckGo? || Pop? || Skip? || Begin? || Finish? || DrainDone?
    }
  }

  predicate OfDeactivate(e: R.Step) {
    e.BeginClear? || e.Visit? || e.ClearEntries? || e.ClearWorks?
  }

  /** The worker calls from inside a work only; lines 59 and 92 need the repeat mutex, which is recursive. */
  predicate MayCall(s: State, e: R.Step) {
    if e.BeginClear? then s.boss.Idle?
    else if OfDeactivate(e) then s.boss.Clearing?
    else if e.thread == WORKER then s.worker.Running?
    else (e.Insert? || e.Forget?) ==> !s.worker.HoldsMutex()
  }

  predicate Enabled(s: State, e: Step) {
    match e
    case Push(id) => id in s.registry.live
    case WakeUp => s.waking > 0
    case Call(c) => MayCall(s, c) && R.Enabled(s.registry, c)
    case Activate => !s.running && s.worker.NotStarted? && s.boss.Idle?
    case StoreRunning => s.worker.Starting?
    case TakeToken => s.worker.AtWait? && s.token
    case CheckStop => s.worker.AtCheck? && !s.running
    case CheckGo => s.worker.AtCheck? && s.running
    case Pop => s.worker.Draining? && s.queue != []
    case DrainDone => s.worker.Draining? && s.queue == []
    case Skip => s.worker.Looking? && s.worker.id !in s.registry.works
    case Begin => s.worker.Looking? && s.worker.id in s.registry.works
    case Finish => s.worker.Running? && WORKER !in s.registry.calls
    case LowerFlag => s.boss.Cleared?
    case WakeWorker => s.boss.Lowered?
    case Join => s.boss.Joining? && (s.worker.Exited? || s.worker.NotStarted?)
  }

  function BossAfter(boss: Boss, e: R.Step): Boss {
    if e.BeginClear? then Clearing else if e.ClearWorks? then Cleared else boss
  }

  function Next(s: State, e: Step): State
    requires Enabled(s, e)
  {
    match e
    case Push(id) => s.(queue := s.queue + [id], waking := s.waking + 1)
    case WakeUp => s.(token := true, waking := s.waking - 1)
    case Call(c) => s.(registry := R.Next(s.registry, c), boss := BossAfter(s.boss, c))
    case Activate => s.(worker := Starting)
    case StoreRunning => s.(worker := AtWait, running := true)
    case TakeToken => s.(worker := AtCheck, token := false)
    case CheckStop => s.(worker := Exited)
    case CheckGo => s.(worker := Draining)
    case Pop => s.(worker := Looking(s.queue[0]), queue := s.queue[1..])
    case DrainDone => s.(worker := AtWait)
    case Skip => s.(worker := Draining)
    case Begin => s.(worker := Running(s.worker.id))
    case Finish => s.(worker := Draining)
    case LowerFlag => s.(running := false, boss := Lowered)
    case WakeWorker => s.(token := true, boss := Joining)
    case Join => s.(worker := NotStarted, queue := [], boss := Idle)
  }

  /** `trace` can be executed from `s`. */
  predicate Possible(s: State, trace: seq<Step>)
    decreases |trace|, 0
  {
    trace == [] || (Possible(s, trace[..|trace| - 1]) && Enabled(After(s, trace[..|trace| - 1]), trace[|trace| - 1]))
  }

  function After(s: State, trace: seq<Step>): State
    requires Possible(s, trace)
    decreases |trace|, 1
  {
    if trace == [] then s else Next(After(s, trace[..|trace| - 1]), trace[|trace| - 1])
  }

  lemma Extended(s: State, trace: seq<Step>, e: Step) returns (longer: seq<Step>)
    requires Possible(s, trace) && Enabled(After(s, trace), e)
    ensures longer == trace + [e] && Possible(s, longer) && After(s, longer) == Next(After(s, trace), e)
  {
    longer := trace + [e];
    assert longer[..|trace|] == trace;
  }

  /** `states` are passed through on the steps of `trace`. */
  ghost predicate Passes(states: seq<State>, trace: seq<Step>) {
    && |states| == |trace| + 1
    && forall i | 0 <= i < |trace| :: Enabled(states[i], trace[i]) && states[i + 1] == Next(states[i], trace[i])
  }

  lemma {:induction false} PassedThrough(states: seq<State>, trace: seq<Step>)
    requires Passes(states, trace)
    ensures Possible(states[0], trace) && After(states[0], trace) == states[|trace|]
    decreases |trace|
  {
    if trace != [] {
      PassedThrough(states[..|trace|], trace[..|trace| - 1]);
    }
  }

  lemma {:induction false} Joined(s: State, a: seq<Step>, b: seq<Step>)
    requires Possible(s, a) && Possible(After(s, a), b)
    ensures Possible(s, a + b) && After(s, a + b) == After(After(s, a), b)
    decreases |b|
  {
    if b == [] {
      assert a + b == a;
    } else {
      assert (a + b)[..|a + b| - 1] == a + b[..|b| - 1];
      Joined(s, a, b[..|b| - 1]);
    }
  }

  // ---------------------------------------------------------------- no lost wakeup

  ghost predicate WakeupPending(s: State) {
    s.queue != [] && (s.worker.NotStarted? || s.worker.Starting? || s.worker.AtWait?) ==> s.token || s.waking > 0
  }

  lemma {:induction false} WakeupsAreNotLost(trace: seq<Step>)
    requires Possible(INITIAL, trace)
    ensures WakeupPending(After(INITIAL, trace))
  {
    if trace != [] {
      WakeupsAreNotLost(trace[..|trace| - 1]);
    }
  }

  /** A worker that really sleeps, with no callback on its way to wake it, has nothing to do. */
  lemma SleepingWorkerHasNoWork(trace: seq<Step>)
    requires Possible(INITIAL, trace)
    ensures var s := After(INITIAL, trace);
            s.worker.AtWait? && !s.token && s.waking == 0 ==> s.queue == []
  {
    WakeupsAreNotLost(trace);
  }

  // ---------------------------------------------------------------- queued work is conserved, in order

  /** What became of an entry that left the queue. */
  datatype Fate = Ran(id: int) | Dropped(id: int) | Discarded(id: int)

  function PushedBy(e: Step): seq<int> {
    match e case Push(id) => [id] case _ => []
  }

  function FatesBy(s: State, e: Step): seq<Fate>
    requires Enabled(s, e)
  {
    match e
    case Skip => [Dropped(s.worker.id)]
    case Finish => [Ran(s.worker.id)]
    case Join => DiscardAll(s.queue)
    case _ => []
  }

  function Pushed(trace: seq<Step>): seq<int> {
    if trace == [] then [] else Pushed(trace[..|trace| - 1]) + PushedBy(trace[|trace| - 1])
  }

  function Fates(trace: seq<Step>): seq<Fate>
    requires Possible(INITIAL, trace)
  {
    if trace == [] then []
    else
      Fates(trace[..|trace| - 1]) + FatesBy(After(INITIAL, trace[..|trace| - 1]), trace[|trace| - 1])
  }

  function DiscardAll(queue: seq<int>): seq<Fate> {
    if queue == [] then [] else [Discarded(queue[0])] + DiscardAll(queue[1..])
  }

  function Ids(fates: seq<Fate>): seq<int> {
    if fates == [] then [] else [fates[0].id] + Ids(fates[1..])
  }

  function InFlight(w: Worker): seq<int> {
    if w.Looking? || w.Running? then [w.id] else []
  }

  lemma {:induction false} IdsAppend(a: seq<Fate>, b: seq<Fate>)
    ensures Ids(a + b) == Ids(a) + Ids(b)
  {
    if a == [] {
      assert a + b == b;
    } else {
      assert (a + b)[1..] == a[1..] + b;
      IdsAppend(a[1..], b);
    }
  }

  lemma {:induction false} IdsOfDiscarded(queue: seq<int>)
    ensures Ids(DiscardAll(queue)) == queue
  {
    if queue != [] {
      IdsOfDiscarded(queue[1..]);
    }
  }

  /** One step: what was in flight or queued, and what is pushed, is dealt with or still there, in order. */
  lemma StepKeepsOrder(s: State, e: Step)
    requires Enabled(s, e)
    ensures InFlight(s.worker) + s.queue + PushedBy(e)
         == Ids(FatesBy(s, e)) + (InFlight(Next(s, e).worker) + Next(s, e).queue)
  {
    match e
    case Join => IdsOfDiscarded(s.queue);
    case Push(id) => Regroup(InFlight(s.worker), s.queue, [id]);
    case Pop => assert s.queue == [s.queue[0]] + s.queue[1..];
    case Skip => DealsWithOne(s, e);
    case Finish => DealsWithOne(s, e);
    case _ => SameEntries(s, e);
  }

  lemma DealsWithOne(s: State, e: Step)
    requires Enabled(s, e) && (e.Skip? || e.Finish?)
    ensures InFlight(s.worker) == Ids(FatesBy(s, e)) == [s.worker.id] && PushedBy(e) == []
    ensures InFlight(Next(s, e).worker) == [] && Next(s, e).queue == s.queue
  {
    assert FatesBy(s, e)[1..] == [];
  }

  lemma SameEntries(s: State, e: Step)
    requires Enabled(s, e) && !e.Join? && !e.Push? && !e.Pop? && !e.Skip? && !e.Finish?
    ensures InFlight(Next(s, e).worker) == InFlight(s.worker) && Next(s, e).queue == s.queue
    ensures PushedBy(e) == [] && FatesBy(s, e) == []
  {
  }

  /**
   The pushed ids, in firing order, are exactly those already dealt with, then the one in flight, then the
   queued ones: nothing is lost, duplicated or reordered.
   */
  lemma {:induction false} WorkRunsInFiringOrder(trace: seq<Step>)
    requires Possible(INITIAL, trace)
    ensures var s := After(INITIAL, trace);
            Pushed(trace) == Ids(Fates(trace)) + (InFlight(s.worker) + s.queue)
  {
    if trace != [] {
      var prefix, e := trace[..|trace| - 1], trace[|trace| - 1];
      var s, s' := After(INITIAL, prefix), After(INITIAL, trace);
      WorkRunsInFiringOrder(prefix);
      StepKeepsOrder(s, e);
      IdsAppend(Fates(prefix), FatesBy(s, e));
      Regroup(Ids(Fates(prefix)), InFlight(s.worker) + s.queue, PushedBy(e));
      Regroup(Ids(Fates(prefix)), Ids(FatesBy(s, e)), InFlight(s'.worker) + s'.queue);
    }
  }

  function PushedSinceJoin(trace: seq<Step>): seq<int> {
    if trace == [] || trace[|trace| - 1].Join? then []
    else PushedSinceJoin(trace[..|trace| - 1]) + PushedBy(trace[|trace| - 1])
  }

  /** What is in flight or queued are the last ids that were pushed since a Deactivate ended. */
  ghost predicate Recent(s: State, pushed: seq<int>, done: nat) {
    done <= |pushed| && InFlight(s.worker) + s.queue == pushed[done..]
  }

  /** Entries stay in the queue until they are dealt with, and none outlives a Deactivate. */
  lemma {:induction false} QueueIsRecent(trace: seq<Step>) returns (done: nat)
    requires Possible(INITIAL, trace)
    ensures Recent(After(INITIAL, trace), PushedSinceJoin(trace), done)
  {
    done := 0;
    if trace != [] {
      var prefix, e := trace[..|trace| - 1], trace[|trace| - 1];
      var before := QueueIsRecent(prefix);
      done := StepKeepsRecent(After(INITIAL, prefix), e, PushedSinceJoin(prefix), before);
    }
  }

  lemma StepKeepsRecent(s: State, e: Step, pushed: seq<int>, before: nat) returns (done: nat)
    requires Enabled(s, e) && Recent(s, pushed, before)
    ensures Recent(Next(s, e), if e.Join? then [] else pushed + PushedBy(e), done)
  {
    done := before;
    match e {
      case Join => done := 0;
      case Push(id) => AppendedRecent(InFlight(s.worker), s.queue, id, pushed, before);
      case Pop => PoppedRecent(s, pushed, before);
      case Skip => done := DroppedFirst(s, e, pushed, before);
      case Finish => done := DroppedFirst(s, e, pushed, before);
      case _ => SameRecent(s, e, pushed, before);
    }
  }

  lemma AppendedRecent(flying: seq<int>, queue: seq<int>, id: int, pushed: seq<int>, before: nat)
    requires before <= |pushed| && flying + queue == pushed[before..]
    ensures flying + (queue + [id]) == (pushed + [id])[before..]
  {
    Regroup(flying, queue, [id]);
  }

  lemma PoppedRecent(s: State, pushed: seq<int>, before: nat)
    requires Enabled(s, Pop) && Recent(s, pushed, before)
    ensures Recent(Next(s, Pop), pushed + [], before)
  {
    assert s.queue == [s.queue[0]] + s.queue[1..];
    assert pushed + [] == pushed && [] + s.queue == s.queue;
  }

  lemma SameRecent(s: State, e: Step, pushed: seq<int>, before: nat)
    requires Enabled(s, e) && Recent(s, pushed, before)
    requires !e.Join? && !e.Push? && !e.Pop? && !e.Skip? && !e.Finish?
    ensures Recent(Next(s, e), pushed + PushedBy(e), before)
  {
    SameEntries(s, e);
    assert pushed + [] == pushed;
  }

  lemma DroppedFirst(s: State, e: Step, pushed: seq<int>, before: nat) returns (done: nat)
    requires Enabled(s, e) && (e.Skip? || e.Finish?) && Recent(s, pushed, before)
    ensures Recent(Next(s, e), pushed + [], done)
  {
    DealsWithOne(s, e);
    done := before + 1;
    assert pushed + [] == pushed;
    assert ([s.worker.id] + s.queue)[1..] == s.queue;
  }

  function Wakes(trace: seq<Step>): nat {
    if trace == [] then 0
    else
      Wakes(trace[..|trace| - 1]) + if trace[|trace| - 1].WakeUp? || trace[|trace| - 1].WakeWorker? then 1 else 0
  }

  function Waits(trace: seq<Step>): nat {
    if trace == [] then 0 else Waits(trace[..|trace| - 1]) + if trace[|trace| - 1].TakeToken? then 1 else 0
  }

  /** The worker goes through its wait at most once for each time that it was woken. */
  lemma {:induction false} WaitsArePaid(trace: seq<Step>)
    requires Possible(INITIAL, trace)
    ensures Waits(trace) + (if After(INITIAL, trace).token then 1 else 0) <= Wakes(trace)
  {
    if trace != [] {
      WaitsArePaid(trace[..|trace| - 1]);
    }
  }

  /** How often the work `id` was started. */
  function Started(s: State, trace: seq<Step>, id: int): nat
    requires Possible(s, trace)
  {
    if trace == [] then 0
    else
      var prefix := trace[..|trace| - 1];
      Started(s, prefix, id) + if trace[|trace| - 1].Begin? && After(s, prefix).worker == Looking(id) then 1 else 0
  }

  /** Line 59 for `id`. */
  predicate Registers(s: State, e: Step, id: int) {
    Enabled(s, e) && e.Call? && e.step.Insert? && s.registry.calls[e.step.thread].id == id
  }

  predicate EverRegisters(s: State, trace: seq<Step>, id: int)
    requires Possible(s, trace)
  {
    trace != [] &&
    (EverRegisters(s, trace[..|trace| - 1], id) || Registers(After(s, trace[..|trace| - 1]), trace[|trace| - 1], id))
  }

  /** A work that is not registered, and is not registered again, is never started: its entries are dropped. */
  lemma {:induction false} DeletedWorkNeverStarts(s: State, trace: seq<Step>, id: int)
    requires Possible(s, trace) && id !in s.registry.works && !EverRegisters(s, trace, id)
    ensures id !in After(s, trace).registry.works && Started(s, trace, id) == 0
  {
    if trace != [] {
      DeletedWorkNeverStarts(s, trace[..|trace| - 1], id);
      StaysDeleted(After(s, trace[..|trace| - 1]), trace[|trace| - 1], id);
    }
  }

  lemma StaysDeleted(s: State, e: Step, id: int)
    requires Enabled(s, e) && id !in s.registry.works && !Registers(s, e, id)
    ensures id !in Next(s, e).registry.works && !(e.Begin? && s.worker == Looking(id))
  {
    if e.Call? {
      OnlyInsertRegisters(s.registry, e.step, id);
    }
  }

  lemma OnlyInsertRegisters(r: R.Registry, c: R.Step, id: int)
    requires R.Enabled(r, c) && id !in r.works && !(c.Insert? && r.calls[c.thread].id == id)
    ensures id !in R.Next(r, c).works
  {
  }

  function Count(ids: seq<int>, id: int): nat {
    if ids == [] then 0 else Count(ids[1..], id) + if ids[0] == id then 1 else 0
  }

  lemma {:induction false} CountAppend(a: seq<int>, b: seq<int>, id: int)
    ensures Count(a + b, id) == Count(a, id) + Count(b, id)
  {
    if a == [] {
      assert a + b == b;
    } else {
      assert (a + b)[1..] == a[1..] + b;
      CountAppend(a[1..], b, id);
    }
  }

  /** Entries of `id` in the queue or in flight. */
  function Pending(s: State, id: int): nat {
    Count(InFlight(s.worker), id) + Count(s.queue, id)
  }

  /** Bookkeeping of one id since its last registration. */
  datatype Tally = Tally(stale: nat, fired: nat, ran: nat, dropped: nat, discarded: nat)

  function Tallied(s: State, e: Step, id: int, t: Tally): Tally
    requires Enabled(s, e)
  {
    match e
    case Call(_) => if Registers(s, e, id) then Tally(Pending(s, id), 0, 0, 0, 0) else t
    case Push(i) => if i == id then t.(fired := t.fired + 1) else t
    case Finish => if s.worker.id == id then t.(ran := t.ran + 1) else t
    case Skip => if s.worker.id == id then t.(dropped := t.dropped + 1) else t
    case Join => t.(discarded := t.discarded + Count(s.queue, id))
    case _ => t
  }

  function TallyOf(trace: seq<Step>, id: int): Tally
    requires Possible(INITIAL, trace)
  {
    if trace == [] then Tally(0, 0, 0, 0, 0)
    else Tallied(After(INITIAL, trace[..|trace| - 1]), trace[|trace| - 1], id, TallyOf(trace[..|trace| - 1], id))
  }

  ghost predicate Balanced(s: State, id: int, t: Tally) {
    t.stale + t.fired == t.ran + Pending(s, id) + t.discarded && t.dropped == 0
  }

  lemma StepKeepsBalance(s: State, e: Step, id: int, t: Tally)
    requires Enabled(s, e) && id in Next(s, e).registry.works
    requires Registers(s, e, id) || Balanced(s, id, t)
    ensures Balanced(Next(s, e), id, Tallied(s, e, id, t))
  {
    match e
    case Push(i) => CountAppend(s.queue, [i], id);
    case Pop => assert [s.queue[0]][1..] == [];
    case Skip => assert [s.worker.id][1..] == [];
    case Finish => assert [s.worker.id][1..] == [];
    case _ =>
  }

  lemma WasRegistered(s: State, e: Step, id: int)
    requires Enabled(s, e) && id in Next(s, e).registry.works && !Registers(s, e, id)
    ensures id in s.registry.works
  {
    if e.Call? && id !in s.registry.works {
      OnlyInsertRegisters(s.registry, e.step, id);
    }
  }

  /**
   While an id stays registered, its firings (and the entries that were already pending when it was
   registered) are its executions plus its pending entries, and what a Deactivate threw away; none is
   dropped.
   */
  lemma {:induction false} WorkIsConserved(trace: seq<Step>, id: int)
    requires Possible(INITIAL, trace) && id in After(INITIAL, trace).registry.works
    ensures Balanced(After(INITIAL, trace), id, TallyOf(trace, id))
  {
    var prefix, e := trace[..|trace| - 1], trace[|trace| - 1];
    if !Registers(After(INITIAL, prefix), e, id) {
      WasRegistered(After(INITIAL, prefix), e, id);
      WorkIsConserved(prefix, id);
    }
    StepKeepsBalance(After(INITIAL, prefix), e, id, TallyOf(prefix, id));
  }

  // ---------------------------------------------------------------- the registry under every interleaving

  /** No step of AddWork, DeleteWork or Deactivate races with another call. */
  ghost predicate CleanCalls(s: State, trace: seq<Step>)
    requires Possible(s, trace)
    decreases |trace|
  {
    trace == [] ||
    (CleanCalls(s, trace[..|trace| - 1]) && CleanCall(After(s, trace[..|trace| - 1]), trace[|trace| - 1]))
  }

  ghost predicate CleanCall(s: State, e: Step) {
    e.Call? ==> R.Clean(s.registry, e.step)
  }

  /**
   In every interleaving without a race, an id for which no call and no Deactivate is in progress is in both
   maps or in neither, and its entry points at the locker that lives or is null when there is none.
   */
  lemma {:induction false} RegistryAgrees(trace: seq<Step>)
    requires Possible(INITIAL, trace) && CleanCalls(INITIAL, trace)
    ensures R.Inv(After(INITIAL, trace).registry) && R.AgreesWhenQuiet(After(INITIAL, trace).registry)
    decreases |trace|
  {
    R.EmptyInv();
    if trace != [] {
      var prefix, e := trace[..|trace| - 1], trace[|trace| - 1];
      RegistryAgrees(prefix);
      if e.Call? {
        R.StepKeepsInv(After(INITIAL, prefix).registry, e.step);
      }
    }
    R.InvAgrees(After(INITIAL, trace).registry);
  }

  /** The run `trace` leads from `s` to `t` without a race. */
  ghost predicate Reaches(s: State, trace: seq<Step>, t: State) {
    Possible(s, trace) && After(s, trace) == t && CleanCalls(s, trace)
  }

  lemma {:induction false} PassedCleanly(states: seq<State>, trace: seq<Step>)
    requires Passes(states, trace) && forall i | 0 <= i < |trace| :: CleanCall(states[i], trace[i])
    ensures Reaches(states[0], trace, states[|trace|])
    decreases |trace|
  {
    if trace != [] {
      PassedCleanly(states[..|trace|], trace[..|trace| - 1]);
    }
  }

  lemma {:induction false} Chained(s: State, a: seq<Step>, t: State, b: seq<Step>, u: State)
    requires Reaches(s, a, t) && Reaches(t, b, u)
    ensures Reaches(s, a + b, u)
    decreases |b|
  {
    if b == [] {
      assert a + b == a;
    } else {
      assert (a + b)[..|a + b| - 1] == a + b[..|b| - 1];
      Chained(s, a, t, b[..|b| - 1], After(t, b[..|b| - 1]));
    }
  }

  // Two races that the program admits, each in two halves.

  /** With this registry, this progress of Deactivate, and a worker that waits or is not there. */
  function With(running: bool, boss: Boss, r: R.Registry): State {
    State([], false, running, r, 0, if running then AtWait else NotStarted, boss)
  }

  /** A call of another thread, with its effect on the registry. */
  lemma Called(running: bool, boss: Boss, r: R.Registry, c: R.Step, r': R.Registry)
    requires MayCall(With(running, boss, r), c) && R.Enabled(r, c) && R.Next(r, c) == r'
    ensures Enabled(With(running, boss, r), Call(c))
    ensures Next(With(running, boss, r), Call(c)) == With(running, BossAfter(boss, c), r')
  {
  }

  const ONE_INSERTED := R.EMPTY.(works := {5}, calls := map[1 := R.AddCreate(5)])
  const TWO_INSERTED := R.EMPTY.(works := {5}, calls := map[1 := R.AddCreate(5), 2 := R.AddCreate(5)])

  lemma ReachOneInserted() returns (trace: seq<Step>)
    ensures Possible(INITIAL, trace) && After(INITIAL, trace) == With(true, Idle, ONE_INSERTED)
  {
    var a := Next(INITIAL, Activate);
    var b := Next(a, StoreRunning);
    var c := Next(b, Call(R.BeginAdd(1, 5)));
    var d := Next(c, Call(R.Insert(1)));
    assert d == With(true, Idle, ONE_INSERTED);
    trace := [Activate, StoreRunning, Call(R.BeginAdd(1, 5)), Call(R.Insert(1))];
    PassedThrough([INITIAL, a, b, c, d], trace);
  }

  const CLEARED := R.EMPTY.(calls := map[1 := R.AddCreate(5)])
  const CREATED_LATE := R.EMPTY.(live := map[5 := 0], next := 1, calls := map[1 := R.AddStore(5, Some(0))])
  const STORED_LATE := R.EMPTY.(entries := map[5 := Some(0)], live := map[5 := 0], next := 1)

  lemma ClearFromInserted() returns (trace: seq<Step>)
    ensures Possible(With(true, Idle, ONE_INSERTED), trace)
    ensures After(With(true, Idle, ONE_INSERTED), trace) == With(true, Cleared, CLEARED)
  {
    var a := ONE_INSERTED.(clearing := R.Visiting(None));
    var b := a.(clearing := R.Emptied);
    Called(true, Idle, ONE_INSERTED, R.BeginClear, a);
    Called(true, Clearing, a, R.ClearEntries, b);
    Called(true, Clearing, b, R.ClearWorks, CLEARED);
    trace := [Call(R.BeginClear), Call(R.ClearEntries), Call(R.ClearWorks)];
    PassedThrough([With(true, Idle, ONE_INSERTED), With(true, Clearing, a), With(true, Clearing, b),
      With(true, Cleared, CLEARED)], trace);
  }

  lemma CreateAndStoreLate() returns (trace: seq<Step>)
    ensures Possible(With(true, Cleared, CLEARED), trace)
    ensures After(With(true, Cleared, CLEARED), trace) == With(true, Cleared, STORED_LATE)
  {
    Called(true, Cleared, CLEARED, R.Create(1, true), CREATED_LATE);
    Called(true, Cleared, CREATED_LATE, R.Store(1), STORED_LATE);
    trace := [Call(R.Create(1, true)), Call(R.Store(1))];
    PassedThrough([With(true, Cleared, CLEARED), With(true, Cleared, CREATED_LATE), With(true, Cleared, STORED_LATE)],
      trace);
  }

  /**
   Thread 1 has passed line 59 of AddWork(5) when Deactivate clears the maps. In the end a timer lives, and has an
   entry, for a work that is not registered.
   */
  lemma AddWorkAcrossClear() returns (trace: seq<Step>, end: R.Registry)
    ensures Possible(INITIAL, trace) && After(INITIAL, trace).registry == end
    ensures R.Quiet(end, 5) && 5 !in end.works && 5 in end.entries && 5 in end.live
  {
    var first := ReachOneInserted();
    var second := ClearFromInserted();
    var third := CreateAndStoreLate();
    Joined(INITIAL, first, second);
    Joined(INITIAL, first + second, third);
    trace, end := first + second + third, STORED_LATE;
  }

  lemma ReachTwoInserted() returns (trace: seq<Step>)
    ensures Possible(INITIAL, trace) && After(INITIAL, trace) == With(false, Idle, TWO_INSERTED)
  {
    var a := Next(INITIAL, Call(R.BeginAdd(1, 5)));
    var b := Next(a, Call(R.BeginAdd(2, 5)));
    var c := Next(b, Call(R.Insert(1)));
    var d := Next(c, Call(R.Insert(2)));
    assert d == With(false, Idle, TWO_INSERTED);
    trace := [Call(R.BeginAdd(1, 5)), Call(R.BeginAdd(2, 5)), Call(R.Insert(1)), Call(R.Insert(2))];
    PassedThrough([INITIAL, a, b, c, d], trace);
  }

  const FIRST_CREATED :=
    TWO_INSERTED.(live := map[5 := 0], next := 1, calls := map[1 := R.AddStore(5, Some(0)), 2 := R.AddCreate(5)])
  const BOTH_CREATED :=
    TWO_INSERTED.(live := map[5 := 1], next := 2,
      calls := map[1 := R.AddStore(5, Some(0)), 2 := R.AddStore(5, Some(1))])
  const SECOND_STORED := BOTH_CREATED.(entries := map[5 := Some(1)], calls := map[1 := R.AddStore(5, Some(0))])
  const BOTH_STORED := BOTH_CREATED.(entries := map[5 := Some(0)], calls := map[])

  lemma CreateBoth()
    ensures R.Next(TWO_INSERTED, R.Create(1, true)) == FIRST_CREATED
      && R.Next(FIRST_CREATED, R.Create(2, true)) == BOTH_CREATED
  {
    assert TWO_INSERTED.live[5 := 0] == map[5 := 0];
    assert FIRST_CREATED.live[5 := 1] == map[5 := 1];
  }

  lemma StoreBoth()
    ensures R.Next(BOTH_CREATED, R.Store(2)) == SECOND_STORED && R.Next(SECOND_STORED, R.Store(1)) == BOTH_STORED
  {
  }

  lemma PassBothCreated() returns (trace: seq<Step>)
    ensures Possible(With(false, Idle, TWO_INSERTED), trace)
    ensures After(With(false, Idle, TWO_INSERTED), trace) == With(false, Idle, BOTH_CREATED)
  {
    CreateBoth();
    Called(false, Idle, TWO_INSERTED, R.Create(1, true), FIRST_CREATED);
    Called(false, Idle, FIRST_CREATED, R.Create(2, true), BOTH_CREATED);
    trace := [Call(R.Create(1, true)), Call(R.Create(2, true))];
    PassedThrough([With(false, Idle, TWO_INSERTED), With(false, Idle, FIRST_CREATED),
      With(false, Idle, BOTH_CREATED)], trace);
  }

  lemma PassBothStored() returns (trace: seq<Step>)
    ensures Possible(With(false, Idle, BOTH_CREATED), trace)
    ensures After(With(false, Idle, BOTH_CREATED), trace) == With(false, Idle, BOTH_STORED)
  {
    StoreBoth();
    Called(false, Idle, BOTH_CREATED, R.Store(2), SECOND_STORED);
    Called(false, Idle, SECOND_STORED, R.Store(1), BOTH_STORED);
    trace := [Call(R.Store(2)), Call(R.Store(1))];
    PassedThrough([With(false, Idle, BOTH_CREATED), With(false, Idle, SECOND_STORED), With(false, Idle, BOTH_STORED)],
      trace);
  }

  /** AddWork(5) on two threads at a time leaves an entry that points at a locker that is gone. */
  lemma OverlappingAddWorks() returns (trace: seq<Step>, end: R.Registry)
    ensures Possible(INITIAL, trace) && After(INITIAL, trace).registry == end
    ensures R.Quiet(end, 5) && end.entries == map[5 := Some(0)] && end.live == map[5 := 1]
  {
    var first := ReachTwoInserted();
    var second := PassBothCreated();
    var third := PassBothStored();
    Joined(INITIAL, first, second);
    Joined(INITIAL, first + second, third);
    trace, end := first + second + third, BOTH_STORED;
  }
}
