/**
 The two maps of include/common/RepeatWorkProc.cpp and the timer lockers behind them, while any number of
 threads are inside AddWork and DeleteWork and one is inside Deactivate.

 Each line that touches a map or the timer manager is one atomic step. `live` holds the lockers that exist in
 the manager under a work's name, by the address that tells one from its successor.
 */
module WorkRegistry {
  import opened Common

  /** A call in progress, and the line that it executes next. */
  datatype Call =
    | AddInsert(id: int)                        // line 59
    | AddCreate(id: int)                        // line 69
    | AddStore(id: int, timer: Option<int>)     // line 71, with what line 69 returned
    | DropTimer(id: int)                        // line 87
    | EraseEntry(id: int)                       // line 88
    | EraseWork(id: int)                        // line 92

  /** Where Deactivate is: in its loop, past the last entry visited; between lines 31 and 32; elsewhere. */
  datatype Clearing = Outside | Visiting(after: Option<int>) | Emptied

  /** `broken` is set by a step that follows a null or dangling locker pointer or an invalid iterator. */
  datatype Registry = Registry(
    works: set<int>,                    // keys of m_map_work
    entries: map<int, Option<int>>,     // m_map_timer
    live: map<int, int>,
    calls: map<int, Call>,              // by thread
    clearing: Clearing,
    next: int,                          // the next address
    broken: bool)

  const EMPTY := Registry({}, map[], map[], map[], Outside, 0, false)

  datatype Step =
    | BeginAdd(thread: int, id: int) | Insert(thread: int) | Create(thread: int, osOk: bool) | Store(thread: int)
    | BeginDelete(thread: int, id: int) | Drop(thread: int) | Erase(thread: int) | Forget(thread: int)
    | BeginClear | Visit(id: int) | ClearEntries | ClearWorks

  predicate IsAhead(after: Option<int>, id: int) {
    after.None? || after.value < id
  }

  /** The entries that the loop of Deactivate has still to visit, in ascending order. */
  function Ahead(r: Registry): set<int>
    requires r.clearing.Visiting?
  {
    set id | id in r.entries && IsAhead(r.clearing.after, id)
  }

  predicate Enabled(r: Registry, e: Step) {
    match e
    case BeginAdd(t, _) => t !in r.calls
    case BeginDelete(t, _) => t !in r.calls
    case Insert(t) => t in r.calls && r.calls[t].AddInsert?
    case Create(t, _) => t in r.calls && r.calls[t].AddCreate?
    case Store(t) => t in r.calls && r.calls[t].AddStore?
    case Drop(t) => t in r.calls && r.calls[t].DropTimer?
    case Erase(t) => t in r.calls && r.calls[t].EraseEntry?
    case Forget(t) => t in r.calls && r.calls[t].EraseWork?
    case BeginClear => r.clearing.Outside?
    case Visit(id) => r.clearing.Visiting? && id in Ahead(r) && forall j | j in Ahead(r) :: id <= j
    case ClearEntries => r.clearing.Visiting? && Ahead(r) == {}
    case ClearWorks => r.clearing.Emptied?
  }

  /** `DeleteTimerLocker` on the pointer stored for `id`: it must point at the locker that lives now. */
  function DeleteByPointer(r: Registry, id: int): Registry {
    if id in r.entries && r.entries[id].Some? && id in r.live && r.live[id] == r.entries[id].value
    then r.(live := r.live - {id})
    else r.(broken := true)
  }

  function Next(r: Registry, e: Step): Registry
    requires Enabled(r, e)
  {
    match e
    case BeginAdd(t, id) => if id in r.works then r else r.(calls := r.calls[t := AddInsert(id)])
    case Insert(t) =>
      var id := r.calls[t].id;
      r.(works := r.works + {id}, calls := r.calls[t := AddCreate(id)])
    case Create(t, osOk) =>
      var id := r.calls[t].id;
      if osOk then r.(live := r.live[id := r.next], next := r.next + 1,
        calls := r.calls[t := AddStore(id, Some(r.next))])
      else r.(live := r.live - {id}, calls := r.calls[t := AddStore(id, None)])
    case Store(t) =>
      r.(entries := r.entries[r.calls[t].id := r.calls[t].timer], calls := r.calls - {t})
    case BeginDelete(t, id) =>
      if id in r.works && id in r.entries then r.(calls := r.calls[t := DropTimer(id)]) else r
    case Drop(t) =>
      DeleteByPointer(r, r.calls[t].id).(calls := r.calls[t := EraseEntry(r.calls[t].id)])
    case Erase(t) =>
      var id := r.calls[t].id;
      r.(entries := r.entries - {id}, broken := r.broken || id !in r.entries, calls := r.calls[t := EraseWork(id)])
    case Forget(t) =>
      var id := r.calls[t].id;
      r.(works := r.works - {id}, broken := r.broken || id !in r.works, calls := r.calls - {t})
    case BeginClear => r.(clearing := Visiting(None))
    case Visit(id) => DeleteByPointer(r, id).(clearing := Visiting(Some(id)))
    case ClearEntries => r.(entries := map[], clearing := Emptied)
    case ClearWorks => r.(works := {}, clearing := Outside)
  }

  predicate Possible(r: Registry, trace: seq<Step>)
    decreases |trace|, 0
  {
    trace == [] || (Possible(r, trace[..|trace| - 1]) && Enabled(After(r, trace[..|trace| - 1]), trace[|trace| - 1]))
  }

  function After(r: Registry, trace: seq<Step>): Registry
    requires Possible(r, trace)
    decreases |trace|, 1
  {
    if trace == [] then r else Next(After(r, trace[..|trace| - 1]), trace[|trace| - 1])
  }

  // ---------------------------------------------------------------- agreement

  ghost predicate Calling(r: Registry, id: int) {
    exists t :: t in r.calls && r.calls[t].id == id
  }

  /** No call for `id` and no Deactivate is in progress. */
  ghost predicate Quiet(r: Registry, id: int) {
    r.clearing.Outside? && !Calling(r, id)
  }

  /** Both maps have the id or neither has; a timer entry points at the live locker, or is null and there is none. */
  ghost predicate Agrees(r: Registry, id: int) {
    && (id in r.works <==> id in r.entries)
    && if id in r.entries && r.entries[id].Some?
       then id in r.live && r.live[id] == r.entries[id].value
       else id !in r.live
  }

  ghost predicate AgreesWhenQuiet(r: Registry) {
    !r.broken && forall id | Quiet(r, id) :: Agrees(r, id)
  }

  /**
   The steps that do not race: AddWork does not pass its check while another call for the id is in progress;
   it does not insert its work while Deactivate clears; DeleteWork does not start on an id whose timer the OS
   refused, nor while another call for the id or Deactivate is in progress; and Deactivate does not start to
   clear while there is a null entry, an AddWork between lines 59 and 71, or a DeleteWork.
   */
  ghost predicate Clean(r: Registry, e: Step) {
    match e
    case BeginAdd(_, id) => id in r.works || !Calling(r, id)
    case Insert(_) => r.clearing.Outside?
    case BeginDelete(_, id) =>
      id in r.works && id in r.entries ==> r.entries[id].Some? && !Calling(r, id) && r.clearing.Outside?
    case BeginClear =>
      (forall id | id in r.entries :: r.entries[id].Some?) && forall t | t in r.calls :: r.calls[t].AddInsert?
    case _ => true
  }

  ghost predicate CleanRun(r: Registry, trace: seq<Step>)
    requires Possible(r, trace)
    decreases |trace|
  {
    trace == [] ||
    (CleanRun(r, trace[..|trace| - 1]) && Clean(After(r, trace[..|trace| - 1]), trace[|trace| - 1]))
  }

  // ---------------------------------------------------------------- what clean steps keep

  ghost predicate Matches(r: Registry, id: int, timer: Option<int>) {
    if timer.Some? then id in r.live && r.live[id] == timer.value else id !in r.live
  }

  ghost predicate CallInv(r: Registry, c: Call) {
    match c
    case AddInsert(id) => id !in r.works && id !in r.entries && id !in r.live
    case AddCreate(id) => id in r.works && id !in r.entries && id !in r.live
    case AddStore(id, timer) => id in r.works && id !in r.entries && Matches(r, id, timer)
    case DropTimer(id) => id in r.works && id in r.entries && r.entries[id].Some? && Matches(r, id, r.entries[id])
    case EraseEntry(id) => id in r.works && id in r.entries && id !in r.live
    case EraseWork(id) => id in r.works && id !in r.entries && id !in r.live
  }

  ghost predicate Settled(r: Registry, id: int) {
    match r.clearing
    case Outside => Agrees(r, id)
    case Visiting(after) =>
      if id !in r.entries then id !in r.works && id !in r.live
      else
        && id in r.works && r.entries[id].Some?
        && if IsAhead(after, id) then Matches(r, id, r.entries[id]) else id !in r.live
    case Emptied => id !in r.entries && id !in r.live
  }

  ghost predicate OneCallPerId(r: Registry) {
    forall t, u | t in r.calls && u in r.calls && t != u :: r.calls[t].id != r.calls[u].id
  }

  ghost predicate Inv(r: Registry) {
    && !r.broken && OneCallPerId(r)
    && (forall t | t in r.calls :: CallInv(r, r.calls[t]) && (r.clearing.Outside? || r.calls[t].AddInsert?))
    && forall id | !Calling(r, id) :: Settled(r, id)
  }

  lemma OthersCalling(r: Registry, r': Registry, t: int, id0: int)
    requires forall u | u != t :: (u in r.calls <==> u in r'.calls) && (u in r.calls ==> r.calls[u] == r'.calls[u])
    requires (t in r.calls ==> r.calls[t].id == id0) && (t in r'.calls ==> r'.calls[t].id == id0)
    ensures forall id | id != id0 :: Calling(r, id) <==> Calling(r', id)
  {
    forall id | id != id0
      ensures Calling(r, id) <==> Calling(r', id)
    {
      if Calling(r, id) {
        var u :| u in r.calls && r.calls[u].id == id;
        assert u in r'.calls && r'.calls[u].id == id;
      }
      if Calling(r', id) {
        var u :| u in r'.calls && r'.calls[u].id == id;
        assert u in r.calls && r.calls[u].id == id;
      }
    }
  }

  lemma BeginKeepsInv(r: Registry, e: Step)
    requires Inv(r) && Enabled(r, e) && Clean(r, e) && (e.BeginAdd? || e.BeginDelete?)
    ensures Inv(Next(r, e))
  {
    var r' := Next(r, e);
    if r' != r {
      OthersCalling(r, r', e.thread, e.id);
      assert !Calling(r, e.id) && Settled(r, e.id);
      assert r'.calls[e.thread].id == e.id;
    }
  }

  /** A step of a call that stays in progress. */
  lemma CallKeepsInv(r: Registry, e: Step)
    requires Inv(r) && Enabled(r, e) && Clean(r, e) && (e.Insert? || e.Create? || e.Drop? || e.Erase?)
    ensures Inv(Next(r, e))
  {
    var r', t := Next(r, e), e.thread;
    assert CallInv(r, r.calls[t]);
    OthersCalling(r, r', t, r.calls[t].id);
    assert r'.calls[t].id == r.calls[t].id;
  }

  /** The last step of a call. */
  lemma EndKeepsInv(r: Registry, e: Step)
    requires Inv(r) && Enabled(r, e) && (e.Store? || e.Forget?)
    ensures Inv(Next(r, e))
  {
    var r', t := Next(r, e), e.thread;
    var id0 := r.calls[t].id;
    assert CallInv(r, r.calls[t]);
    OthersCalling(r, r', t, id0);
    assert Agrees(r', id0);
  }

  lemma ClearKeepsInv(r: Registry, e: Step)
    requires Inv(r) && Enabled(r, e) && Clean(r, e) && (e.BeginClear? || e.Visit? || e.ClearEntries? || e.ClearWorks?)
    ensures Inv(Next(r, e))
  {
    var r' := Next(r, e);
    assert forall id :: Calling(r, id) <==> Calling(r', id);
    if e.Visit? {
      assert !Calling(r, e.id);
      assert Settled(r, e.id);
      forall j | j in r.entries && IsAhead(r.clearing.after, j)
        ensures e.id <= j
      {
        assert j in Ahead(r);
      }
    } else if e.ClearEntries? {
      forall id | id in r.entries
        ensures !IsAhead(r.clearing.after, id)
      {
        assert id !in Ahead(r);
      }
    }
    forall id | !Calling(r', id)
      ensures Settled(r', id)
    {
      assert Settled(r, id);
    }
  }

  lemma StepKeepsInv(r: Registry, e: Step)
    requires Inv(r) && Enabled(r, e) && Clean(r, e)
    ensures Inv(Next(r, e))
  {
    match e
    case BeginAdd(_, _) => BeginKeepsInv(r, e);
    case BeginDelete(_, _) => BeginKeepsInv(r, e);
    case Insert(_) => CallKeepsInv(r, e);
    case Create(_, _) => CallKeepsInv(r, e);
    case Drop(_) => CallKeepsInv(r, e);
    case Erase(_) => CallKeepsInv(r, e);
    case Store(_) => EndKeepsInv(r, e);
    case Forget(_) => EndKeepsInv(r, e);
    case _ => ClearKeepsInv(r, e);
  }

  lemma {:induction false} CleanRunKeepsInv(r: Registry, trace: seq<Step>)
    requires Inv(r) && Possible(r, trace) && CleanRun(r, trace)
    ensures Inv(After(r, trace))
    decreases |trace|
  {
    if trace != [] {
      CleanRunKeepsInv(r, trace[..|trace| - 1]);
      StepKeepsInv(After(r, trace[..|trace| - 1]), trace[|trace| - 1]);
    }
  }

  lemma InvAgrees(r: Registry)
    requires Inv(r)
    ensures AgreesWhenQuiet(r)
  {
    forall id | Quiet(r, id)
      ensures Agrees(r, id)
    {
      assert Settled(r, id);
    }
  }

  // ---------------------------------------------------------------- what a racing step can lead to

  lemma OneMore(r: Registry, trace: seq<Step>, e: Step)
    requires Possible(r, trace) && CleanRun(r, trace) && Enabled(After(r, trace), e) && Clean(After(r, trace), e)
    ensures Possible(r, trace + [e]) && CleanRun(r, trace + [e]) && After(r, trace + [e]) == Next(After(r, trace), e)
  {
    assert (trace + [e])[..|trace|] == trace;
  }

  /** A run goes wrong when some continuation without a further race ends in disagreement at rest. */
  ghost predicate GoesWrong(r: Registry) {
    exists future :: Possible(r, future) && CleanRun(r, future) && !AgreesWhenQuiet(After(r, future))
  }

  lemma WrongNow(r: Registry, trace: seq<Step>)
    requires Possible(r, trace) && CleanRun(r, trace) && !AgreesWhenQuiet(After(r, trace))
    ensures GoesWrong(r)
  {
  }

  lemma {:induction false} Least(ids: set<int>) returns (id: int)
    requires ids != {}
    ensures id in ids && forall j | j in ids :: id <= j
    decreases |ids|
  {
    var some := Element(ids);
    var rest := ids - {some};
    id := some;
    if rest != {} {
      var other := Least(rest);
      id := if other < some then other else some;
      assert forall j | j in ids :: j == some || j in rest;
    } else {
      assert ids == {some};
    }
  }

  /** Deactivate can run on to the end of line 32 alone; the calls in progress stay where they are. */
  lemma {:induction false} ClearingEnds(r: Registry, trace: seq<Step>) returns (longer: seq<Step>)
    requires Possible(r, trace) && CleanRun(r, trace)
    ensures Possible(r, longer) && CleanRun(r, longer)
    ensures var (before, after) := (After(r, trace), After(r, longer));
            && after.clearing.Outside? && after.calls == before.calls && after.next == before.next
            && (before.broken ==> after.broken)
            && (before.clearing.Outside? ==> after == before)
            && (!before.clearing.Outside? ==> after.works == {})
            && (before.clearing.Visiting? ==> after.entries == map[])
            && (before.clearing.Emptied? ==> after.entries == before.entries)
            && (before.clearing.Visiting? && (exists id :: id in Ahead(before) && before.entries[id].None?) ==>
              after.broken)
    decreases if After(r, trace).clearing.Visiting? then 2 + |Ahead(After(r, trace))|
              else if After(r, trace).clearing.Emptied? then 1 else 0
  {
    var before := After(r, trace);
    if before.clearing.Outside? {
      longer := trace;
      return;
    }
    var e := ClearWorks;
    if before.clearing.Visiting? {
      if Ahead(before) == {} {
        e := ClearEntries;
      } else {
        var id := Least(Ahead(before));
        e := Visit(id);
        assert Ahead(Next(before, e)) == Ahead(before) - {id};
      }
    }
    OneMore(r, trace, e);
    longer := ClearingEnds(r, trace + [e]);
  }

  /** Only `t` and `u` are in a call for `id`, at `c` and `d`. */
  ghost predicate BothAt(r: Registry, t: int, u: int, c: Call, d: Call) {
    && t != u && t in r.calls && u in r.calls && r.calls[t] == c && r.calls[u] == d
    && forall v | v in r.calls && r.calls[v].id == c.id :: v == t || v == u
  }

  /** Two AddWork calls that both passed their check: the entry points at the locker that the second replaced. */
  lemma TwoAddsGoWrong(r: Registry, t: int, u: int, id: int)
    requires BothAt(r, t, u, AddInsert(id), AddInsert(id))
    ensures GoesWrong(r)
  {
    var a := ClearingEnds(r, []);
    var b := Continue(r, a, Insert(t));
    var c := Continue(r, b, Insert(u));
    TwoCreatesGoWrong(r, c, t, u, id);
  }

  lemma TwoCreatesGoWrong(r: Registry, trace: seq<Step>, t: int, u: int, id: int)
    requires Possible(r, trace) && CleanRun(r, trace)
    requires After(r, trace).clearing.Outside? && BothAt(After(r, trace), t, u, AddCreate(id), AddCreate(id))
    ensures GoesWrong(r)
  {
    var first := After(r, trace).next;
    var a := Continue(r, trace, Create(t, true));
    var b := Continue(r, a, Create(u, true));
    TwoStoresGoWrong(r, b, t, u, id, first, first + 1);
  }

  lemma TwoStoresGoWrong(r: Registry, trace: seq<Step>, t: int, u: int, id: int, first: int, second: int)
    requires Possible(r, trace) && CleanRun(r, trace) && first != second
    requires var s := After(r, trace);
             && s.clearing.Outside? && BothAt(s, t, u, AddStore(id, Some(first)), AddStore(id, Some(second)))
             && id in s.live && s.live[id] == second
    ensures GoesWrong(r)
  {
    var a := Continue(r, trace, Store(u));
    var b := Continue(r, a, Store(t));
    var last := After(r, b);
    assert !Calling(last, id);
    assert Quiet(last, id) && !Agrees(last, id);
    WrongNow(r, b);
  }

  lemma Continue(r: Registry, trace: seq<Step>, e: Step) returns (longer: seq<Step>)
    requires Possible(r, trace) && CleanRun(r, trace) && Enabled(After(r, trace), e) && Clean(After(r, trace), e)
    ensures longer == trace + [e] && Possible(r, longer) && CleanRun(r, longer)
      && After(r, longer) == Next(After(r, trace), e)
  {
    OneMore(r, trace, e);
    longer := trace + [e];
  }

  /** An AddWork that Deactivate overtakes: its entry is stored after the work was cleared. */
  lemma AddAcrossClearGoesWrong(r: Registry, t: int)
    requires !r.clearing.Outside? && t in r.calls && (r.calls[t].AddCreate? || r.calls[t].AddStore?)
    requires forall v | v in r.calls && r.calls[v].id == r.calls[t].id :: v == t
    ensures GoesWrong(r)
  {
    var id := r.calls[t].id;
    var a := ClearingEnds(r, []);
    if r.calls[t].AddCreate? {
      a := Continue(r, a, Create(t, true));
    }
    var b := Continue(r, a, Store(t));
    assert !Calling(After(r, b), id);
    assert Quiet(After(r, b), id) && !Agrees(After(r, b), id);
    WrongNow(r, b);
  }

  /** A DeleteWork that Deactivate overtakes goes on with an iterator into a cleared map. */
  lemma DeleteAcrossClearGoesWrong(r: Registry, t: int)
    requires r.clearing.Visiting? && t in r.calls
      && (r.calls[t].DropTimer? || r.calls[t].EraseEntry? || r.calls[t].EraseWork?)
    ensures GoesWrong(r)
  {
    var a := ClearingEnds(r, []);
    var e := match r.calls[t] case DropTimer(_) => Drop(t) case EraseEntry(_) => Erase(t) case _ => Forget(t);
    var b := Continue(r, a, e);
    WrongNow(r, b);
  }

  // ---------------------------------------------------------------- the exact condition

  lemma BeginAddGoesWrong(r: Registry, e: Step)
    requires Inv(r) && Enabled(r, e) && e.BeginAdd? && !Clean(r, e)
    ensures GoesWrong(Next(r, e))
  {
    var u :| u in r.calls && r.calls[u].id == e.id;
    assert CallInv(r, r.calls[u]);
    TwoAddsGoWrong(Next(r, e), u, e.thread, e.id);
  }

  lemma InsertGoesWrong(r: Registry, e: Step)
    requires Inv(r) && Enabled(r, e) && e.Insert? && !Clean(r, e)
    ensures GoesWrong(Next(r, e))
  {
    AddAcrossClearGoesWrong(Next(r, e), e.thread);
  }

  lemma BeginDeleteGoesWrong(r: Registry, e: Step)
    requires Inv(r) && Enabled(r, e) && e.BeginDelete? && !Clean(r, e)
    ensures GoesWrong(Next(r, e))
  {
    var r', t, id := Next(r, e), e.thread, e.id;
    if r.entries[id].None? {
      var a := Continue(r', [], Drop(t));
      WrongNow(r', a);
    } else if !r.clearing.Outside? {
      assert Settled(r, id) || Calling(r, id);
      DeleteAcrossClearGoesWrong(r', t);
    } else {
      var u :| u in r.calls && r.calls[u].id == id;
      assert CallInv(r, r.calls[u]);
      var a: seq<Step> := [];
      if r.calls[u].DropTimer? {
        a := Continue(r', a, Drop(u));
      }
      var b := Continue(r', a, Drop(t));
      WrongNow(r', b);
    }
  }

  lemma BeginClearGoesWrong(r: Registry, e: Step)
    requires Inv(r) && Enabled(r, e) && e.BeginClear? && !Clean(r, e)
    ensures GoesWrong(Next(r, e))
  {
    var r' := Next(r, e);
    if id :| id in r.entries && r.entries[id].None? {
      assert id in Ahead(r');
      var a := ClearingEnds(r', []);
      WrongNow(r', a);
    } else {
      var t :| t in r.calls && !r.calls[t].AddInsert?;
      if r.calls[t].AddCreate? || r.calls[t].AddStore? {
        AddAcrossClearGoesWrong(r', t);
      } else {
        DeleteAcrossClearGoesWrong(r', t);
      }
    }
  }

  /**
   The condition is exact: after a step of a race-free run, every race-free continuation leaves the registry in
   agreement at rest, if and only if the step itself does not race.
   */
  lemma AgreementIffClean(r: Registry, before: seq<Step>, e: Step)
    requires Possible(EMPTY, before) && CleanRun(EMPTY, before) && r == After(EMPTY, before) && Enabled(r, e)
    ensures Clean(r, e) <==> !GoesWrong(Next(r, e))
  {
    EmptyInv();
    CleanRunKeepsInv(EMPTY, before);
    if Clean(r, e) {
      StepKeepsInv(r, e);
      forall future | Possible(Next(r, e), future) && CleanRun(Next(r, e), future)
        ensures AgreesWhenQuiet(After(Next(r, e), future))
      {
        CleanRunKeepsInv(Next(r, e), future);
        InvAgrees(After(Next(r, e), future));
      }
    } else {
      match e
      case BeginAdd(_, _) => BeginAddGoesWrong(r, e);
      case Insert(_) => InsertGoesWrong(r, e);
      case BeginDelete(_, _) => BeginDeleteGoesWrong(r, e);
      case BeginClear => BeginClearGoesWrong(r, e);
    }
  }

  lemma EmptyInv()
    ensures Inv(EMPTY)
  {
  }
}
