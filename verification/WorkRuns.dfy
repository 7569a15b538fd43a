/** Pieces of runs of the protocol of WorkQueue.dfy in which no call races, from which its failing runs are made. */
module WorkRuns {
  import opened Common
  import opened WorkQueue
  import R = WorkRegistry

  function Drains(boss: Boss): State {
    State([5], false, true, REGISTERED, 0, Draining, boss)
  }

  const REGISTERED := R.EMPTY.(works := {5}, entries := map[5 := Some(0)], live := map[5 := 0], next := 1)

  const INSERTING := R.EMPTY.(calls := map[1 := R.AddInsert(5)])
  const CREATED := ONE_INSERTED.(live := map[5 := 0], next := 1, calls := map[1 := R.AddStore(5, Some(0))])

  const ADDING := [Call(R.BeginAdd(1, 5)), Call(R.Insert(1))] + [Call(R.Create(1, true)), Call(R.Store(1))]

  lemma RegistrySteps()
    ensures R.Next(R.EMPTY, R.BeginAdd(1, 5)) == INSERTING && R.Next(INSERTING, R.Insert(1)) == ONE_INSERTED
    ensures R.Next(ONE_INSERTED, R.Create(1, true)) == CREATED && R.Next(CREATED, R.Store(1)) == REGISTERED
  {
  }

  /** Two calls of threads other than the worker, while it waits. */
  lemma TwoCalls(boss: Boss, r: R.Registry, c: R.Step, r': R.Registry, d: R.Step, r'': R.Registry)
    requires !OfDeactivate(c) && !OfDeactivate(d) && c.thread != WORKER && d.thread != WORKER
    requires R.Enabled(r, c) && R.Next(r, c) == r' && R.Clean(r, c)
    requires R.Enabled(r', d) && R.Next(r', d) == r'' && R.Clean(r', d)
    ensures Reaches(With(true, boss, r), [Call(c), Call(d)], With(true, boss, r''))
  {
    Called(true, boss, r, c, r');
    Called(true, boss, r', d, r'');
    PassedCleanly([With(true, boss, r), With(true, boss, r'), With(true, boss, r'')], [Call(c), Call(d)]);
  }

  /** Thread 1 registers work 5, whatever Deactivate has done before. */
  lemma Adds(boss: Boss)
    requires boss.Idle? || boss.Cleared?
    ensures Reaches(With(true, boss, R.EMPTY), ADDING, With(true, boss, REGISTERED))
  {
    RegistrySteps();
    TwoCalls(boss, R.EMPTY, R.BeginAdd(1, 5), INSERTING, R.Insert(1), ONE_INSERTED);
    TwoCalls(boss, ONE_INSERTED, R.Create(1, true), CREATED, R.Store(1), REGISTERED);
    Chained(With(true, boss, R.EMPTY), [Call(R.BeginAdd(1, 5)), Call(R.Insert(1))], With(true, boss, ONE_INSERTED),
            [Call(R.Create(1, true)), Call(R.Store(1))], With(true, boss, REGISTERED));
  }

  const FIRING := [Push(5), WakeUp, TakeToken, CheckGo]

  /** Its timer fires, and the worker begins to drain the queue. */
  lemma Fires(boss: Boss)
    ensures Reaches(With(true, boss, REGISTERED), FIRING, Drains(boss))
  {
    var pushed := State([5], false, true, REGISTERED, 1, AtWait, boss);
    var woken := State([5], true, true, REGISTERED, 0, AtWait, boss);
    var checking := State([5], false, true, REGISTERED, 0, AtCheck, boss);
    assert [] + [5] == [5];
    PassedCleanly([With(true, boss, REGISTERED), pushed, woken, checking, Drains(boss)], FIRING);
  }

  const STARTING := [Activate, StoreRunning]

  lemma Starts()
    ensures Reaches(INITIAL, STARTING, With(true, Idle, R.EMPTY))
  {
    PassedCleanly([INITIAL, INITIAL.(worker := Starting), With(true, Idle, R.EMPTY)], STARTING);
  }
}
