/**
 Locking in the timer stack: which mutexes each entry point of RepeatWorkProc.cpp, TimerLockerManager.cpp,
 TimerEx.cpp and Locker.cpp takes, in which nesting, on any number of threads.

 Every lock of the program is a lock_guard or unique_lock, so an entry point is a tree of scopes. What the
 data decides (which lists are visited, which lockers fire, whether a list is new) is left free.
 */
module LockOrder {
  import opened Common

  datatype Lock =
    | Repeat                 // m_queue_repeat_mutex
    | Items                  // m_mutex_items
    | Lockers(list: int)     // m_mutex_lockers of one base list
    | Timers                 // m_mutex_timers
    | Event(event: int)      // the mutex inside one Locker
  {
    function Rank(): nat {
      match this case Repeat => 0 case Items => 1 case Lockers(_) => 2 case Timers => 2 case Event(_) => 3
    }

    /** All but the mutex inside a Locker are recursive. */
    predicate Recursive() { !Event? }
  }

  /** Guarded scopes one after the other; `body` runs with `lock` held. */
  datatype Scopes = Done | Guard(lock: Lock, body: Scopes, next: Scopes)
  {
    function Then(after: Scopes): Scopes {
      match this case Done => after case Guard(l, body, next) => Guard(l, body, next.Then(after))
    }
  }

  function Only(lock: Lock, body: Scopes): Scopes {
    Guard(lock, body, Done)
  }

  // ---------------------------------------------------------------- the entry points

  /** DeleteTimerLocker: the lists searched in vain, and the one that held the name. */
  datatype Deletion = Deletion(misses: seq<int>, hit: Option<Hit>)
  datatype Hit = Hit(list: int, event: int, last: bool)

  /** GetList: an existing list, a new one, or one that the OS refused. */
  datatype Listing = Found | Made | Refused

  /** A locker that fires: its own event, and the event its callback wakes. */
  datatype Firing = Firing(event: int, wakes: Option<int>)

  datatype Call =
    | DeleteLocker(deletion: Deletion)
    | GetLocker(deletion: Deletion, list: int, listing: Listing)
    | OsCallback(list: int, present: bool, fired: seq<Firing>)
    | AddWork(present: bool, deletion: Deletion, list: int, listing: Listing)
    | DeleteWork(registered: bool, deletion: Deletion)
    | Deactivate(deletions: seq<Deletion>, event: int)
    | WaitOrWake(event: int)
    | WorkerPass(event: int, stopping: bool, works: seq<Call>)

  function Touch(event: int): Scopes {
    Only(Event(event), Done)
  }

  function FinalizeList(list: int): Scopes {
    Only(Lockers(list), Done).Then(Only(Timers, Done))
  }

  function Misses(lists: seq<int>): Scopes {
    if lists == [] then Done else Only(Lockers(lists[0]), Done).Then(Misses(lists[1..]))
  }

  function DeletionScopes(d: Deletion): Scopes {
    Only(Items, Misses(d.misses).Then(
      match d.hit
      case None => Done
      case Some(h) =>
        // DeleteItem, IsEmpty, and for the last item Finalize and the destructor's Finalize
        Only(Lockers(h.list), Touch(h.event)).Then(Only(Lockers(h.list), Done)).Then(
          if h.last then FinalizeList(h.list).Then(FinalizeList(h.list)) else Done)))
  }

  function GetLockerScopes(d: Deletion, list: int, listing: Listing): Scopes {
    Only(Items, DeletionScopes(d).Then(
      match listing
      case Found => Only(Lockers(list), Done)
      case Made => Only(Timers, Done).Then(Only(Lockers(list), Done))
      case Refused => Only(Timers, Done).Then(FinalizeList(list))))
  }

  function FiringScopes(fired: seq<Firing>): Scopes {
    if fired == [] then Done
    else
      Touch(fired[0].event)
        .Then(match fired[0].wakes case None => Done case Some(e) => Touch(e))
        .Then(FiringScopes(fired[1..]))
  }

  function Deletions(ds: seq<Deletion>): Scopes {
    if ds == [] then Done else DeletionScopes(ds[0]).Then(Deletions(ds[1..]))
  }

  function Body(c: Call): Scopes {
    match c
    case DeleteLocker(d) => DeletionScopes(d)
    case GetLocker(d, list, listing) => GetLockerScopes(d, list, listing)
    // CTimerImpl::CallBack takes no lock; CallbackTimer does
    case OsCallback(list, present, fired) =>
      Only(Items, if present then Only(Lockers(list), FiringScopes(fired)) else Done)
    case AddWork(present, d, list, listing) =>
      if present then Done else Only(Repeat, Done).Then(GetLockerScopes(d, list, listing))
    case DeleteWork(registered, d) => if registered then DeletionScopes(d).Then(Only(Repeat, Done)) else Done
    case Deactivate(ds, event) => Deletions(ds).Then(Touch(event))
    case WaitOrWake(event) => Touch(event)
    case WorkerPass(event, stopping, works) => Touch(event).Then(if stopping then Done else Only(Repeat, Bodies(works)))
  }

  function Bodies(cs: seq<Call>): Scopes {
    if cs == [] then Done else Body(cs[0]).Then(Bodies(cs[1..]))
  }

  // ---------------------------------------------------------------- threads

  /** The thread that runs RepeatWorkProc::ThreadLoop; it is idle while it waits for its event. */
  const WORKER := 0

  /** `Join` waits for the worker. */
  datatype Act = Acquire(lock: Lock) | Release | Join

  datatype Thread = Thread(held: seq<Lock>, todo: seq<Act>)

  type State = map<int, Thread>

  function Flatten(p: Scopes): seq<Act> {
    match p
    case Done => []
    case Guard(l, body, next) => [Acquire(l)] + Flatten(body) + [Release] + Flatten(next)
  }

  /** Deactivate joins the worker at its end, holding nothing. */
  function Program(c: Call): seq<Act> {
    Flatten(Body(c)) + if c.Deactivate? then [Join] else []
  }

  datatype Step = Start(thread: int, call: Call) | Move(thread: int)

  predicate Idle(s: State, t: int) {
    t !in s || s[t].todo == []
  }

  /** Can thread `t` take its next action now? */
  predicate CanMove(s: State, t: int) {
    && t in s && s[t].todo != []
    && match s[t].todo[0]
       case Acquire(l) => (forall u | u in s && u != t :: l !in s[u].held) && (l in s[t].held ==> l.Recursive())
       case Release => s[t].held != []
       case Join => Idle(s, WORKER)
  }

  predicate Enabled(s: State, e: Step) {
    match e
    case Start(t, _) => Idle(s, t)
    case Move(t) => CanMove(s, t)
  }

  function Next(s: State, e: Step): State
    requires Enabled(s, e)
  {
    match e
    case Start(t, c) => s[t := Thread([], Program(c))]
    case Move(t) =>
      var th := s[t];
      s[t := match th.todo[0]
             case Acquire(l) => Thread(th.held + [l], th.todo[1..])
             case Release => Thread(th.held[..|th.held| - 1], th.todo[1..])
             case Join => Thread(th.held, th.todo[1..])]
  }

  predicate Possible(trace: seq<Step>)
    decreases |trace|, 0
  {
    trace == [] || (Possible(trace[..|trace| - 1]) && Enabled(After(trace[..|trace| - 1]), trace[|trace| - 1]))
  }

  function After(trace: seq<Step>): State
    requires Possible(trace)
    decreases |trace|, 1
  {
    if trace == [] then map[] else Next(After(trace[..|trace| - 1]), trace[|trace| - 1])
  }

  /**
   Only the worker makes its passes, and its works do not call Deactivate, in which they would wait for
   themselves.
   */
  predicate ByRightThread(t: int, c: Call) {
    if t == WORKER then c.WorkerPass? && forall w | w in c.works :: !w.Deactivate? && !w.WorkerPass? else !c.WorkerPass?
  }

  ghost predicate FromSource(trace: seq<Step>) {
    forall i | 0 <= i < |trace| && trace[i].Start? :: ByRightThread(trace[i].thread, trace[i].call)
  }

  // ---------------------------------------------------------------- the locking discipline

  ghost predicate Allowed(held: seq<Lock>, l: Lock) {
    (l in held && l.Recursive()) || forall h | h in held :: h.Rank() < l.Rank()
  }

  ghost predicate Disciplined(held: seq<Lock>, p: Scopes)
    decreases p
  {
    match p
    case Done => true
    case Guard(l, body, next) => Allowed(held, l) && Disciplined(held + [l], body) && Disciplined(held, next)
  }

  ghost predicate Ordered(held: seq<Lock>, todo: seq<Act>)
    decreases |todo|
  {
    if todo == [] then held == []
    else
      match todo[0]
      case Acquire(l) => Allowed(held, l) && Ordered(held + [l], todo[1..])
      case Release => held != [] && Ordered(held[..|held| - 1], todo[1..])
      case Join => held == [] && Ordered(held, todo[1..])
  }

  lemma {:induction false} ThenDisciplined(held: seq<Lock>, a: Scopes, b: Scopes)
    requires Disciplined(held, a) && Disciplined(held, b)
    ensures Disciplined(held, a.Then(b))
  {
    if a.Guard? {
      ThenDisciplined(held, a.next, b);
    }
  }

  lemma OrderedAcquire(held: seq<Lock>, l: Lock, rest: seq<Act>)
    requires Allowed(held, l) && Ordered(held + [l], rest)
    ensures Ordered(held, [Acquire(l)] + rest)
  {
    assert ([Acquire(l)] + rest)[1..] == rest;
  }

  lemma OrderedRelease(held: seq<Lock>, l: Lock, rest: seq<Act>)
    requires Ordered(held, rest)
    ensures Ordered(held + [l], [Release] + rest)
  {
    assert ([Release] + rest)[1..] == rest;
    assert (held + [l])[..|held|] == held;
  }

  lemma Regroup(l: Lock, body: seq<Act>, next: seq<Act>, rest: seq<Act>)
    ensures [Acquire(l)] + body + [Release] + next + rest == [Acquire(l)] + (body + ([Release] + (next + rest)))
  {
  }

  lemma {:induction false} FlattenOrdered(held: seq<Lock>, p: Scopes, rest: seq<Act>)
    requires Disciplined(held, p) && Ordered(held, rest)
    ensures Ordered(held, Flatten(p) + rest)
    decreases p
  {
    if p.Done? {
      assert [] + rest == rest;
    } else {
      FlattenOrdered(held, p.next, rest);
      var tail := [Release] + (Flatten(p.next) + rest);
      OrderedRelease(held, p.lock, Flatten(p.next) + rest);
      FlattenOrdered(held + [p.lock], p.body, tail);
      OrderedAcquire(held, p.lock, Flatten(p.body) + tail);
      Regroup(p.lock, Flatten(p.body), Flatten(p.next), rest);
    }
  }

  /** Locks below `Items` only: what a manager call may be nested in. */
  ghost predicate Low(held: seq<Lock>) {
    forall h | h in held :: h.Repeat?
  }

  lemma {:induction false} MissesDisciplined(held: seq<Lock>, lists: seq<int>)
    requires forall h | h in held :: h.Rank() < 2
    ensures Disciplined(held, Misses(lists))
  {
    if lists != [] {
      MissesDisciplined(held, lists[1..]);
      ThenDisciplined(held, Only(Lockers(lists[0]), Done), Misses(lists[1..]));
    }
  }

  lemma FinalizeDisciplined(held: seq<Lock>, list: int)
    requires forall h | h in held :: h.Rank() < 2
    ensures Disciplined(held, FinalizeList(list))
  {
    ThenDisciplined(held, Only(Lockers(list), Done), Only(Timers, Done));
  }

  lemma DeletionDisciplined(held: seq<Lock>, d: Deletion)
    requires forall h | h in held :: h.Rank() <= 1
    ensures Disciplined(held, DeletionScopes(d))
  {
    var inner := held + [Items];
    MissesDisciplined(inner, d.misses);
    match d.hit {
      case None => ThenDisciplined(inner, Misses(d.misses), Done);
      case Some(h) =>
        var fin := FinalizeList(h.list);
        FinalizeDisciplined(inner, h.list);
        ThenDisciplined(inner, fin, fin);
        var item := Only(Lockers(h.list), Touch(h.event)).Then(Only(Lockers(h.list), Done));
        ThenDisciplined(inner, Only(Lockers(h.list), Touch(h.event)), Only(Lockers(h.list), Done));
        var after := if h.last then fin.Then(fin) else Done;
        ThenDisciplined(inner, item, after);
        ThenDisciplined(inner, Misses(d.misses), item.Then(after));
    }
  }

  lemma GetLockerDisciplined(held: seq<Lock>, d: Deletion, list: int, listing: Listing)
    requires Low(held)
    ensures Disciplined(held, GetLockerScopes(d, list, listing))
  {
    var inner := held + [Items];
    DeletionDisciplined(inner, d);
    FinalizeDisciplined(inner, list);
    ThenDisciplined(inner, Only(Timers, Done), Only(Lockers(list), Done));
    ThenDisciplined(inner, Only(Timers, Done), FinalizeList(list));
    var tail := match listing
      case Found => Only(Lockers(list), Done)
      case Made => Only(Timers, Done).Then(Only(Lockers(list), Done))
      case Refused => Only(Timers, Done).Then(FinalizeList(list));
    ThenDisciplined(inner, DeletionScopes(d), tail);
  }

  lemma {:induction false} FiringDisciplined(held: seq<Lock>, fired: seq<Firing>)
    requires forall h | h in held :: h.Rank() < 3
    ensures Disciplined(held, FiringScopes(fired))
  {
    if fired != [] {
      FiringDisciplined(held, fired[1..]);
      var wakes := match fired[0].wakes case None => Done case Some(e) => Touch(e);
      ThenDisciplined(held, Touch(fired[0].event), wakes);
      ThenDisciplined(held, Touch(fired[0].event).Then(wakes), FiringScopes(fired[1..]));
    }
  }

  lemma {:induction false} DeletionsDisciplined(held: seq<Lock>, ds: seq<Deletion>)
    requires Low(held)
    ensures Disciplined(held, Deletions(ds))
  {
    if ds != [] {
      DeletionDisciplined(held, ds[0]);
      DeletionsDisciplined(held, ds[1..]);
      ThenDisciplined(held, DeletionScopes(ds[0]), Deletions(ds[1..]));
    }
  }

  /** Every entry point follows the order, from a fresh thread and from inside a work of the worker. */
  lemma {:induction false} SourceIsDisciplined(held: seq<Lock>, c: Call)
    requires Low(held)
    ensures Disciplined(held, Body(c))
    decreases c
  {
    match c
    case DeleteLocker(d) => DeletionDisciplined(held, d);
    case GetLocker(d, list, listing) => GetLockerDisciplined(held, d, list, listing);
    case OsCallback(list, present, fired) => FiringDisciplined(held + [Items] + [Lockers(list)], fired);
    case AddWork(present, d, list, listing) =>
      GetLockerDisciplined(held, d, list, listing);
      ThenDisciplined(held, Only(Repeat, Done), GetLockerScopes(d, list, listing));
    case DeleteWork(registered, d) =>
      DeletionDisciplined(held, d);
      ThenDisciplined(held, DeletionScopes(d), Only(Repeat, Done));
    case Deactivate(ds, event) =>
      DeletionsDisciplined(held, ds);
      ThenDisciplined(held, Deletions(ds), Touch(event));
    case WaitOrWake(event) =>
    case WorkerPass(event, stopping, works) =>
      BodiesDisciplined(held + [Repeat], works);
      ThenDisciplined(held, Touch(event), if stopping then Done else Only(Repeat, Bodies(works)));
  }

  lemma {:induction false} BodiesDisciplined(held: seq<Lock>, cs: seq<Call>)
    requires Low(held)
    ensures Disciplined(held, Bodies(cs))
    decreases cs
  {
    if cs != [] {
      SourceIsDisciplined(held, cs[0]);
      BodiesDisciplined(held, cs[1..]);
      ThenDisciplined(held, Body(cs[0]), Bodies(cs[1..]));
    }
  }

  // ---------------------------------------------------------------- deadlock freedom

  ghost predicate Inv(s: State) {
    && (forall t | t in s :: Ordered(s[t].held, s[t].todo))
    && (forall t, u, l | t in s && u in s && t != u && l in s[t].held :: l !in s[u].held)
    && (WORKER in s ==> Join !in s[WORKER].todo)
  }

  lemma {:induction false} FlattenJoinsNobody(p: Scopes)
    ensures Join !in Flatten(p)
  {
    if p.Guard? {
      FlattenJoinsNobody(p.body);
      FlattenJoinsNobody(p.next);
    }
  }

  lemma ProgramOrdered(c: Call)
    ensures Ordered([], Program(c)) && (!c.Deactivate? ==> Join !in Program(c))
  {
    SourceIsDisciplined([], c);
    FlattenJoinsNobody(Body(c));
    var end: seq<Act> := if c.Deactivate? then [Join] else [];
    assert c.Deactivate? ==> end[1..] == [];
    FlattenOrdered([], Body(c), end);
  }

  lemma {:induction false} InvHolds(trace: seq<Step>)
    requires Possible(trace) && FromSource(trace)
    ensures Inv(After(trace))
  {
    if trace != [] {
      var prefix, e := trace[..|trace| - 1], trace[|trace| - 1];
      InvHolds(prefix);
      match e
      case Start(t, c) => ProgramOrdered(c);
      case Move(t) =>
    }
  }

  /** `t` is blocked on a lock that `u` holds, or waits for the worker `u` to end its pass. */
  ghost predicate WaitsFor(s: State, t: int, u: int) {
    && t in s && u in s && t != u && s[t].todo != []
    && match s[t].todo[0]
       case Acquire(l) => l in s[u].held
       case Release => false
       case Join => u == WORKER && s[u].todo != []
  }

  ghost predicate CircularWait(s: State, cycle: seq<int>) {
    && cycle != []
    && (forall i | 0 <= i < |cycle| - 1 :: WaitsFor(s, cycle[i], cycle[i + 1]))
    && WaitsFor(s, cycle[|cycle| - 1], cycle[0])
  }

  ghost function AwaitedRank(s: State, t: int): nat {
    if t in s && s[t].todo != [] && s[t].todo[0].Acquire? then 1 + s[t].todo[0].lock.Rank() else 0
  }

  /** Whoever one waits for can itself only wait for a lock, of a higher rank if it was for a lock. */
  lemma WaitingClimbs(s: State, t: int, u: int, v: int)
    requires Inv(s) && WaitsFor(s, t, u) && WaitsFor(s, u, v)
    ensures AwaitedRank(s, t) < AwaitedRank(s, u)
  {
    assert Ordered(s[u].held, s[u].todo);
    assert s[u].todo[0] in s[u].todo;
    if s[u].todo[0].Acquire? {
      assert Allowed(s[u].held, s[u].todo[0].lock);
      assert s[u].todo[0].lock !in s[u].held;
    }
  }

  lemma {:induction false} RanksAlongCycle(s: State, cycle: seq<int>, i: nat)
    requires Inv(s) && CircularWait(s, cycle) && i < |cycle|
    ensures AwaitedRank(s, cycle[i]) >= AwaitedRank(s, cycle[0]) + i
  {
    if i > 0 {
      RanksAlongCycle(s, cycle, i - 1);
      WaitingClimbs(s, cycle[i - 1], cycle[i], if i + 1 < |cycle| then cycle[i + 1] else cycle[0]);
    }
  }

  /** No reachable state has a circular wait, whatever the number of threads and their interleaving. */
  lemma NoCircularWait(trace: seq<Step>, cycle: seq<int>)
    requires Possible(trace) && FromSource(trace)
    ensures !CircularWait(After(trace), cycle)
  {
    InvHolds(trace);
    var s := After(trace);
    if CircularWait(s, cycle) {
      RanksAlongCycle(s, cycle, |cycle| - 1);
      WaitingClimbs(s, cycle[|cycle| - 1], cycle[0], cycle[1]);
    }
  }

  /** Who a thread waits for that cannot move. */
  lemma Blocker(s: State, t: int) returns (u: int)
    requires Inv(s) && t in s && s[t].todo != [] && !CanMove(s, t)
    ensures WaitsFor(s, t, u)
  {
    assert Ordered(s[t].held, s[t].todo);
    match s[t].todo[0]
    case Acquire(l) =>
      assert Allowed(s[t].held, l);
      u :| u in s && u != t && l in s[u].held;
    case Join =>
      assert Join in s[t].todo;
      u := WORKER;
  }

  lemma HoldersAreUnfinished(s: State, t: int, u: int)
    requires Inv(s) && WaitsFor(s, t, u)
    ensures s[u].todo != []
  {
    assert Ordered(s[u].held, s[u].todo);
  }

  /** From an unfinished thread, following whom it waits for ends at a thread that can move. */
  lemma {:induction false} SomeoneMoves(s: State, t: int) returns (mover: int)
    requires Inv(s) && t in s && s[t].todo != []
    ensures CanMove(s, mover)
    decreases 5 - AwaitedRank(s, t)
  {
    if CanMove(s, t) {
      return t;
    }
    var u := Blocker(s, t);
    HoldersAreUnfinished(s, t, u);
    if CanMove(s, u) {
      return u;
    }
    var v := Blocker(s, u);
    WaitingClimbs(s, t, u, v);
    mover := SomeoneMoves(s, u);
  }

  /**
   Deadlock freedom: as long as some thread is inside an entry point, the join at the end of Deactivate included,
   some thread can proceed.
   */
  lemma DeadlockFree(trace: seq<Step>, t: int)
    requires Possible(trace) && FromSource(trace)
    requires !Idle(After(trace), t)
    ensures exists mover :: Enabled(After(trace), Move(mover))
  {
    InvHolds(trace);
    var mover := SomeoneMoves(After(trace), t);
    assert Enabled(After(trace), Move(mover));
  }
}
