/**
 The work that the worker executes in the protocol of WorkQueue.dfy: RepeatWorkProc.cpp:117-119 calls it through a
 reference into m_map_work, which is good for as long as the work stays registered.
 */
module WorkRunning {
  import opened Common
  import opened WorkQueue
  import opened WorkRuns
  import S = WorkShutdown
  import R = WorkRegistry

  /** The reference that the worker calls through leads into the map. */
  predicate Backed(s: State) {
    s.worker.Running? ==> s.worker.id in s.registry.works
  }

  /** Line 32 of Deactivate while a registered work runs, or line 92 of its own DeleteWork for itself. */
  predicate Severs(s: State, e: Step) {
    && s.worker.Running? && s.worker.id in s.registry.works && e.Call?
    && (e.step.ClearWorks? || (e.step == R.Forget(WORKER) && CallsFor(s, s.worker.id)))
  }

  /** The running work is inside a call for `id`. */
  predicate CallsFor(s: State, id: int) {
    WORKER in s.registry.calls && s.registry.calls[WORKER].id == id
  }

  /** No other thread can take a running work away: line 92 needs the mutex that the worker holds. */
  lemma StepKeepsBackedIff(s: State, e: Step)
    requires Enabled(s, e) && Backed(s)
    ensures Backed(Next(s, e)) <==> !Severs(s, e)
  {
    if e.Call? && s.worker.Running? {
      ErasedBy(s.registry, e.step, s.worker.id);
    }
  }

  lemma ErasedBy(r: R.Registry, c: R.Step, id: int)
    requires R.Enabled(r, c) && id in r.works
    ensures id !in R.Next(r, c).works <==> c.ClearWorks? || (c.Forget? && r.calls[c.thread].id == id)
  {
  }

  ghost predicate BackedThroughout(trace: seq<Step>)
    requires Possible(INITIAL, trace)
    decreases |trace|
  {
    Backed(After(INITIAL, trace)) && (trace == [] || BackedThroughout(trace[..|trace| - 1]))
  }

  predicate NeverSevers(trace: seq<Step>)
    requires Possible(INITIAL, trace)
    decreases |trace|
  {
    trace == [] ||
    (NeverSevers(trace[..|trace| - 1]) && !Severs(After(INITIAL, trace[..|trace| - 1]), trace[|trace| - 1]))
  }

  /**
   Over every run, a work is registered as long as it is executed if and only if Deactivate does not execute line
   32, and no work line 92 for itself, while a registered work runs.
   */
  lemma {:induction false} RunningStaysRegisteredIff(trace: seq<Step>)
    requires Possible(INITIAL, trace)
    ensures BackedThroughout(trace) <==> NeverSevers(trace)
    decreases |trace|
  {
    if trace != [] {
      var prefix := trace[..|trace| - 1];
      RunningStaysRegisteredIff(prefix);
      if BackedThroughout(prefix) {
        StepKeepsBackedIff(After(INITIAL, prefix), trace[|trace| - 1]);
      }
    }
  }

  // ---------------------------------------------------------------- nor is it assigned to

  /** A work that registers another one has seen that it is not registered, and nobody else can have done it since. */
  predicate InsertsAnew(s: State) {
    WORKER in s.registry.calls && s.registry.calls[WORKER].AddInsert? ==>
      s.registry.calls[WORKER].id !in s.registry.works
  }

  lemma StepKeepsAnew(s: State, e: Step)
    requires Enabled(s, e) && InsertsAnew(s) && (WORKER in s.registry.calls ==> s.worker.Running?)
    ensures InsertsAnew(Next(s, e))
  {
    if e.Call? {
      OnlyInsertAdds(s.registry, e.step);
    }
  }

  lemma OnlyInsertAdds(r: R.Registry, c: R.Step)
    requires R.Enabled(r, c)
    ensures R.Next(r, c).works <= r.works || c.Insert?
    ensures forall t | t in R.Next(r, c).calls && R.Next(r, c).calls[t].AddInsert? && t !in r.calls ::
      R.Next(r, c).calls[t].id !in r.works && R.Next(r, c).works == r.works
    ensures forall t | t in R.Next(r, c).calls && R.Next(r, c).calls[t].AddInsert? && t in r.calls ::
      r.calls[t] == R.Next(r, c).calls[t] && (c.Insert? ==> t != c.thread)
  {
  }

  lemma {:induction false} AlwaysAnew(trace: seq<Step>)
    requires Possible(INITIAL, trace)
    ensures InsertsAnew(After(INITIAL, trace))
  {
    if trace != [] {
      var prefix := trace[..|trace| - 1];
      AlwaysAnew(prefix);
      S.LoopStates(prefix);
      StepKeepsAnew(After(INITIAL, prefix), trace[|trace| - 1]);
    }
  }

  /** In every interleaving line 59 never assigns to a registered work while a work is executed. */
  lemma NothingIsOverwritten(trace: seq<Step>, e: Step)
    requires Possible(INITIAL, trace) && Enabled(After(INITIAL, trace), e) && e.Call? && e.step.Insert?
    ensures var s := After(INITIAL, trace);
            s.worker.Running? ==> s.registry.calls[e.step.thread].id !in s.registry.works
  {
    AlwaysAnew(trace);
  }

  // ---------------------------------------------------------------- the two ways, in runs without a race

  /** The worker executes work 5, and nothing else is going on. */
  function Executing(r: R.Registry, boss: Boss): State {
    State([], false, true, r, 0, Running(5), boss)
  }

  lemma Executes()
    ensures Reaches(Drains(Idle), [Pop, Begin], Executing(REGISTERED, Idle))
  {
    assert [5][1..] == [];
    PassedCleanly([Drains(Idle), State([], false, true, REGISTERED, 0, Looking(5), Idle), Executing(REGISTERED, Idle)],
                  [Pop, Begin]);
  }

  const TO_EXECUTING := STARTING + ADDING + FIRING + [Pop, Begin]

  lemma ReachExecuting()
    ensures Reaches(INITIAL, TO_EXECUTING, Executing(REGISTERED, Idle))
  {
    Starts();
    Adds(Idle);
    Fires(Idle);
    Executes();
    Chained(INITIAL, STARTING, With(true, Idle, R.EMPTY), ADDING, With(true, Idle, REGISTERED));
    Chained(INITIAL, STARTING + ADDING, With(true, Idle, REGISTERED), FIRING, Drains(Idle));
    Chained(INITIAL, STARTING + ADDING + FIRING, Drains(Idle), [Pop, Begin], Executing(REGISTERED, Idle));
  }

  const CLEARING := [Call(R.BeginClear), Call(R.Visit(5))] + [Call(R.ClearEntries), Call(R.ClearWorks)]

  const VISITING := REGISTERED.(clearing := R.Visiting(None))
  const VISITED := REGISTERED.(live := map[], clearing := R.Visiting(Some(5)))
  const EMPTIED := VISITED.(entries := map[], clearing := R.Emptied)
  const ERASED := EMPTIED.(works := {}, clearing := R.Outside)

  lemma VisitSteps()
    ensures R.Enabled(REGISTERED, R.BeginClear) && R.Next(REGISTERED, R.BeginClear) == VISITING
    ensures R.Enabled(VISITING, R.Visit(5)) && R.Next(VISITING, R.Visit(5)) == VISITED
    ensures R.Clean(REGISTERED, R.BeginClear)
  {
    assert R.Ahead(VISITING) == {5};
    assert map[5 := 0] - {5} == map[];
  }

  lemma EraseSteps()
    ensures R.Enabled(VISITED, R.ClearEntries) && R.Next(VISITED, R.ClearEntries) == EMPTIED
    ensures R.Enabled(EMPTIED, R.ClearWorks) && R.Next(EMPTIED, R.ClearWorks) == ERASED
  {
    assert R.Ahead(VISITED) == {};
  }

  lemma Visits()
    ensures Reaches(Executing(REGISTERED, Idle), [Call(R.BeginClear), Call(R.Visit(5))], Executing(VISITED, Clearing))
  {
    VisitSteps();
    PassedCleanly([Executing(REGISTERED, Idle), Executing(VISITING, Clearing), Executing(VISITED, Clearing)],
                  [Call(R.BeginClear), Call(R.Visit(5))]);
  }

  lemma Erases()
    ensures Reaches(Executing(VISITED, Clearing), [Call(R.ClearEntries), Call(R.ClearWorks)],
                    Executing(ERASED, Cleared))
  {
    EraseSteps();
    PassedCleanly([Executing(VISITED, Clearing), Executing(EMPTIED, Clearing), Executing(ERASED, Cleared)],
                  [Call(R.ClearEntries), Call(R.ClearWorks)]);
  }

  /** Deactivate, from another thread, erases the function that the worker executes. */
  lemma DeactivateErasesRunningWork() returns (trace: seq<Step>)
    ensures trace == TO_EXECUTING + CLEARING && Possible(INITIAL, trace) && CleanCalls(INITIAL, trace)
    ensures After(INITIAL, trace).worker == Running(5) && 5 !in After(INITIAL, trace).registry.works
  {
    trace := TO_EXECUTING + CLEARING;
    ReachExecuting();
    Visits();
    Erases();
    Chained(Executing(REGISTERED, Idle), [Call(R.BeginClear), Call(R.Visit(5))], Executing(VISITED, Clearing),
            [Call(R.ClearEntries), Call(R.ClearWorks)], Executing(ERASED, Cleared));
    Chained(INITIAL, TO_EXECUTING, Executing(REGISTERED, Idle), CLEARING, Executing(ERASED, Cleared));
  }

  const DELETING := [Call(R.BeginDelete(WORKER, 5)), Call(R.Drop(WORKER))]
                    + [Call(R.Erase(WORKER)), Call(R.Forget(WORKER))]

  const DROPPING := REGISTERED.(calls := map[WORKER := R.DropTimer(5)])
  const DROPPED := REGISTERED.(live := map[], calls := map[WORKER := R.EraseEntry(5)])
  const UNLISTED := DROPPED.(entries := map[], calls := map[WORKER := R.EraseWork(5)])
  const FORGOTTEN := UNLISTED.(works := {}, calls := map[])

  lemma DropSteps()
    ensures R.Enabled(REGISTERED, R.BeginDelete(WORKER, 5)) && R.Next(REGISTERED, R.BeginDelete(WORKER, 5)) == DROPPING
    ensures R.Enabled(DROPPING, R.Drop(WORKER)) && R.Next(DROPPING, R.Drop(WORKER)) == DROPPED
    ensures R.Clean(REGISTERED, R.BeginDelete(WORKER, 5))
  {
    assert map[5 := 0] - {5} == map[];
  }

  lemma ForgetSteps()
    ensures R.Enabled(DROPPED, R.Erase(WORKER)) && R.Next(DROPPED, R.Erase(WORKER)) == UNLISTED
    ensures R.Enabled(UNLISTED, R.Forget(WORKER)) && R.Next(UNLISTED, R.Forget(WORKER)) == FORGOTTEN
  {
    assert map[5 := Some(0)] - {5} == map[];
    assert {5} - {5} == {};
    assert map[WORKER := R.EraseWork(5)] - {WORKER} == map[];
  }

  lemma Drops()
    ensures Reaches(Executing(REGISTERED, Idle), [Call(R.BeginDelete(WORKER, 5)), Call(R.Drop(WORKER))],
                    Executing(DROPPED, Idle))
  {
    DropSteps();
    PassedCleanly([Executing(REGISTERED, Idle), Executing(DROPPING, Idle), Executing(DROPPED, Idle)],
                  [Call(R.BeginDelete(WORKER, 5)), Call(R.Drop(WORKER))]);
  }

  lemma Forgets()
    ensures Reaches(Executing(DROPPED, Idle), [Call(R.Erase(WORKER)), Call(R.Forget(WORKER))],
                    Executing(FORGOTTEN, Idle))
  {
    ForgetSteps();
    PassedCleanly([Executing(DROPPED, Idle), Executing(UNLISTED, Idle), Executing(FORGOTTEN, Idle)],
                  [Call(R.Erase(WORKER)), Call(R.Forget(WORKER))]);
  }

  /** A work that deletes itself, as in lines 140-143, erases the function that is being executed. */
  lemma WorkErasesItself() returns (trace: seq<Step>)
    ensures trace == TO_EXECUTING + DELETING && Possible(INITIAL, trace) && CleanCalls(INITIAL, trace)
    ensures After(INITIAL, trace).worker == Running(5) && 5 !in After(INITIAL, trace).registry.works
  {
    trace := TO_EXECUTING + DELETING;
    ReachExecuting();
    Drops();
    Forgets();
    Chained(Executing(REGISTERED, Idle), [Call(R.BeginDelete(WORKER, 5)), Call(R.Drop(WORKER))],
            Executing(DROPPED, Idle), [Call(R.Erase(WORKER)), Call(R.Forget(WORKER))], Executing(FORGOTTEN, Idle));
    Chained(INITIAL, TO_EXECUTING, Executing(REGISTERED, Idle), DELETING, Executing(FORGOTTEN, Idle));
  }
}
