/**
 The registry of include/common/RepeatWorkProc.cpp, called from one thread at a time: which works are
 registered, and which timer lockers of the shared manager push their ids. WorkQueue.dfy models the same
 object under interleaving.
 */
module RepeatWork {
  import opened Common
  import opened Decimal
  import opened TimerSpec
  import opened TimerStack
  import O = OsTimers

  function TimerName(id: int): string {
    "RepeatTimer_" + ToString(id)
  }

  lemma TimerNameInjective(a: int, b: int)
    ensures TimerName(a) == TimerName(b) <==> a == b
  {
    AtoiAfterToString(a);
    AtoiAfterToString(b);
    assert TimerName(a)[|"RepeatTimer_"|..] == ToString(a);
    assert TimerName(b)[|"RepeatTimer_"|..] == ToString(b);
  }

  // ---------------------------------------------------------------- the registry as a relation

  ghost predicate Holds(lists: map<int, seq<Locker>>, k: int, l: Locker) {
    k in lists && l in lists[k]
  }

  /** A pointer to a locker: everything of it but the running counter stays fixed. */
  ghost predicate PointsTo(p: Locker, l: Locker) {
    p.(count := 0) == l.(count := 0)
  }

  ghost predicate Live(lists: map<int, seq<Locker>>, p: Locker) {
    exists k, l :: Holds(lists, k, l) && PointsTo(p, l)
  }

  /**
   Each non-null entry of m_map_timer points at a live locker named from its id, and each live locker that
   pushes work ids is such an entry.
   */
  ghost predicate Registry(lists: map<int, seq<Locker>>, timers: map<int, Option<Locker>>) {
    && (forall id | id in timers && timers[id].Some? :: Entry(lists, id, timers[id].value))
    && (forall k, l | Holds(lists, k, l) && l.callback.PushWork? :: Belongs(timers, l))
  }

  ghost predicate Entry(lists: map<int, seq<Locker>>, id: int, p: Locker) {
    p.name == TimerName(id) && p.callback == PushWork(id) && Live(lists, p)
  }

  ghost predicate Belongs(timers: map<int, Option<Locker>>, l: Locker)
    requires l.callback.PushWork?
  {
    l.name == TimerName(l.callback.id) && l.callback.id in timers && timers[l.callback.id].Some?
    && PointsTo(timers[l.callback.id].value, l)
  }

  /** Deleting by another name leaves a live pointer live. */
  lemma RemoveKeepsLive(lists: map<int, seq<Locker>>, name: string, p: Locker)
    requires Inv(lists) && Live(lists, p) && p.name != name
    ensures Live(Remove(lists, name), p)
  {
    RemoveKeepsInv(lists, name);
    var k, l :| Holds(lists, k, l) && PointsTo(p, l);
    assert Holds(Remove(lists, name), k, l);
  }

  lemma RemoveOnlyShrinks(lists: map<int, seq<Locker>>, name: string, k: int, l: Locker)
    requires Inv(lists) && Holds(Remove(lists, name), k, l)
    ensures Holds(lists, k, l) && l.name != name
  {
    WithoutProperties(lists[k], name);
  }

  lemma AddKeepsLive(lists: map<int, seq<Locker>>, base: int, n: Locker, p: Locker)
    requires Live(lists, p) || PointsTo(p, n)
    ensures Live(Add(lists, base, n), p)
  {
    var after := Add(lists, base, n);
    if PointsTo(p, n) {
      assert Holds(after, base, n);
    } else {
      var k, l :| Holds(lists, k, l) && PointsTo(p, l);
      assert Holds(after, k, l);
    }
  }

  lemma TickKeepsLive(lists: map<int, seq<Locker>>, base: int, p: Locker)
    requires base in lists && Live(lists, p)
    ensures Live(lists[base := TickList(lists[base], base)], p)
  {
    var k, l :| Holds(lists, k, l) && PointsTo(p, l);
    if k == base {
      var i :| 0 <= i < |lists[k]| && lists[k][i] == l;
      assert TickList(lists[k], base)[i] == TickOne(l, base);
      assert Holds(lists[base := TickList(lists[base], base)], k, TickOne(l, base));
    } else {
      assert Holds(lists[base := TickList(lists[base], base)], k, l);
    }
  }

  /** What other users of the shared manager may do: no name of a registered work, no push of a work id. */
  ghost predicate Foreign(e: Event, ids: set<int>) {
    match e
    case Create(r, _) => r.callback.NoCallback? && forall id | id in ids :: TimerName(id) != r.name
    case Delete(name) => forall id | id in ids :: TimerName(id) != name
    case _ => true
  }

  lemma RemoveForeign(lists: map<int, seq<Locker>>, timers: map<int, Option<Locker>>, name: string)
    requires Inv(lists) && Registry(lists, timers) && forall id | id in timers :: TimerName(id) != name
    ensures Registry(Remove(lists, name), timers)
  {
    var after := Remove(lists, name);
    forall id | id in timers && timers[id].Some?
      ensures Entry(after, id, timers[id].value)
    {
      assert Entry(lists, id, timers[id].value);
      RemoveKeepsLive(lists, name, timers[id].value);
    }
    forall k, l | Holds(after, k, l) && l.callback.PushWork?
      ensures Belongs(timers, l)
    {
      RemoveOnlyShrinks(lists, name, k, l);
    }
  }

  lemma AddForeign(lists: map<int, seq<Locker>>, timers: map<int, Option<Locker>>, base: int, n: Locker)
    requires Registry(lists, timers) && n.callback.NoCallback?
    ensures Registry(Add(lists, base, n), timers)
  {
    var after := Add(lists, base, n);
    forall id | id in timers && timers[id].Some?
      ensures Entry(after, id, timers[id].value)
    {
      assert Entry(lists, id, timers[id].value);
      AddKeepsLive(lists, base, n, timers[id].value);
    }
    forall k, l | Holds(after, k, l) && l.callback.PushWork?
      ensures Belongs(timers, l)
    {
      assert Holds(lists, k, l);
    }
  }

  lemma TickForeign(lists: map<int, seq<Locker>>, timers: map<int, Option<Locker>>, base: int)
    requires base in lists && Registry(lists, timers)
    ensures Registry(lists[base := TickList(lists[base], base)], timers)
  {
    var after := lists[base := TickList(lists[base], base)];
    forall id | id in timers && timers[id].Some?
      ensures Entry(after, id, timers[id].value)
    {
      assert Entry(lists, id, timers[id].value);
      TickKeepsLive(lists, base, timers[id].value);
    }
    forall k, l | Holds(after, k, l) && l.callback.PushWork?
      ensures Belongs(timers, l)
    {
      if k == base {
        var i :| 0 <= i < |after[k]| && after[k][i] == l;
        assert Holds(lists, k, lists[k][i]);
        assert Belongs(timers, lists[k][i]);
      } else {
        assert Holds(lists, k, l);
      }
    }
  }

  /** Nothing that other users of the manager do, and no tick, disturbs the registry. */
  lemma ForeignEventsKeepRegistry(st: State, e: Event, timers: map<int, Option<Locker>>)
    requires Inv(st.lists) && Registry(st.lists, timers) && Foreign(e, timers.Keys)
    ensures Registry(Step(st, e).lists, timers)
  {
    match e
    case Create(r, osOk) =>
      RemoveForeign(st.lists, timers, r.name);
      AddForeign(Remove(st.lists, r.name), timers, BaseOf(st, r), NewLocker(st, r));
    case Delete(name) => RemoveForeign(st.lists, timers, name);
    case Tick(base) => if base in st.lists { TickForeign(st.lists, timers, base); }
    case SetResolution(_) =>
  }

  /** Deleting the timer of a registered work unregisters exactly it. */
  lemma DeletingUnregisters(lists: map<int, seq<Locker>>, timers: map<int, Option<Locker>>, id: int)
    requires Inv(lists) && Registry(lists, timers)
    ensures Registry(Remove(lists, TimerName(id)), timers - {id})
  {
    var after := Remove(lists, TimerName(id));
    forall j | j in timers - {id} && timers[j].Some?
      ensures Entry(after, j, timers[j].value)
    {
      assert Entry(lists, j, timers[j].value);
      TimerNameInjective(id, j);
      RemoveKeepsLive(lists, TimerName(id), timers[j].value);
    }
    forall k, l | Holds(after, k, l) && l.callback.PushWork?
      ensures Belongs(timers - {id}, l)
    {
      RemoveOnlyShrinks(lists, TimerName(id), k, l);
      assert Belongs(timers, l);
    }
  }

  /** Creating the timer of a work registers it, with a null entry exactly when the OS refuses. */
  lemma CreatingRegisters(st: State, timers: map<int, Option<Locker>>, id: int, r: Request, osOk: bool)
    requires Inv(st.lists) && Registry(st.lists, timers)
    requires id !in timers && r.name == TimerName(id) && r.callback == PushWork(id)
    ensures Registry(CreateIn(st, r, osOk).lists, timers[id := Granted(st, r, osOk)])
  {
    DeletingUnregisters(st.lists, timers, id);
    assert timers - {id} == timers;
    var lists := Remove(st.lists, r.name);
    var n, base := NewLocker(st, r), BaseOf(st, r);
    var after, timers' := CreateIn(st, r, osOk).lists, timers[id := Granted(st, r, osOk)];
    forall j | j in timers' && timers'[j].Some?
      ensures Entry(after, j, timers'[j].value)
    {
      if base in lists || osOk {
        assert j != id ==> Entry(lists, j, timers[j].value);
        AddKeepsLive(lists, base, n, timers'[j].value);
      }
    }
    forall k, l | Holds(after, k, l) && l.callback.PushWork?
      ensures Belongs(timers', l)
    {
      assert Holds(lists, k, l) || l == n;
      if Holds(lists, k, l) {
        assert Belongs(timers, l);
      }
    }
  }

  // ---------------------------------------------------------------- the object

  /** The ids pushed by the callbacks of the fired lockers, in order. */
  function Pushes(fired: seq<Locker>): seq<int> {
    if fired == [] then []
    else
      Pushes(fired[..|fired| - 1])
      + match fired[|fired| - 1].callback case PushWork(id) => [id] case NoCallback => []
  }

  /** How often `id` is among the ids. */
  function Times(ids: seq<int>, id: int): nat {
    if ids == [] then 0 else Times(ids[..|ids| - 1], id) + if ids[|ids| - 1] == id then 1 else 0
  }

  lemma {:induction false} PushesAppend(a: seq<Locker>, b: seq<Locker>)
    ensures Pushes(a + b) == Pushes(a) + Pushes(b)
    decreases |b|
  {
    if b == [] {
      assert a + b == a;
    } else {
      assert (a + b)[..|a + b| - 1] == a + b[..|b| - 1];
      PushesAppend(a, b[..|b| - 1]);
    }
  }

  /** Only lockers that push `id` put it into the queue, and each does so once. */
  lemma {:induction false} TimesPushed(fired: seq<Locker>, id: int, name: string)
    requires forall l | l in fired && l.callback.PushWork? :: l.callback.id == id <==> l.name == name
    requires forall l | l in fired && l.name == name :: l.callback.PushWork?
    ensures Times(Pushes(fired), id) == Count(fired, name)
  {
    if fired != [] {
      var rest, last := fired[..|fired| - 1], fired[|fired| - 1];
      assert fired == rest + [last];
      TimesPushed(rest, id, name);
      CountAppend(rest, [last], name);
      assert [last][1..] == [];
      if last.callback.PushWork? {
        assert (Pushes(rest) + [last.callback.id])[..|Pushes(rest)|] == Pushes(rest);
      } else {
        assert Pushes(rest) + [] == Pushes(rest);
      }
    }
  }

  lemma {:induction false} CountAppend(a: seq<Locker>, b: seq<Locker>, name: string)
    ensures Count(a + b, name) == Count(a, name) + Count(b, name)
  {
    if a == [] {
      assert a + b == b;
    } else {
      assert (a + b)[1..] == a[1..] + b;
      CountAppend(a[1..], b, name);
    }
  }

  lemma {:induction false} FiredMembers(ls: seq<Locker>, base: int, f: Locker)
    requires f in Fired(ls, base)
    ensures exists l :: l in ls && l.name == f.name && l.callback == f.callback
  {
    if Fires(ls[0], base) && f == TickOne(ls[0], base) {
      assert ls[0] in ls;
    } else {
      FiredMembers(ls[1..], base, f);
    }
  }

  /**
   A tick queues the id of a registered work once if its locker stands in the list and has accumulated its period,
   and else not at all.
   */
  lemma TickQueuesOnce(st: State, timers: map<int, Option<Locker>>, base: int, id: int, k: int, l: Locker)
    requires Inv(st.lists) && Registry(st.lists, timers) && Holds(st.lists, k, l) && l.callback == PushWork(id)
    ensures Times(Pushes(FiredIn(st, base)), id) == if base == k && l.count + base >= l.period then 1 else 0
  {
    var fired := FiredIn(st, base);
    assert Belongs(timers, l);
    forall f | f in fired
      ensures f.callback.PushWork? ==> (f.callback.id == id <==> f.name == l.name)
      ensures f.name == l.name ==> f.callback.PushWork?
    {
      FiredMembers(st.lists[base], base, f);
      var x :| x in st.lists[base] && x.name == f.name && x.callback == f.callback;
      assert Holds(st.lists, base, x);
      SameNameSameLocker(st.lists, base, x, k, l);
      if x.callback.PushWork? {
        assert Belongs(timers, x);
        TimerNameInjective(x.callback.id, id);
      }
    }
    TimesPushed(fired, id, l.name);
    if base in st.lists {
      FiredCount(st.lists[base], base, l.name);
      if base != k {
        OtherListSilent(st.lists, base, k, l);
      }
    }
  }

  function RequestFor(id: int, ms: int, address: int): Request {
    Request(TimerName(id), ms, PushWork(id), address)
  }

  /** `Work` stands for the registered std::function; its effect is not part of this object. */
  class RepeatWorkProc<Work> {
    const manager: TimerLockerManager
    var mapWork: map<int, Work>
    var mapTimer: map<int, Option<Locker>>
    var queue: seq<int>
    var token: bool
    var running: bool

    ghost predicate Valid()
      reads this, manager, manager.Owned, manager.table.timers
    {
      && manager.Valid()
      && mapWork.Keys == mapTimer.Keys
      && Registry(manager.Lists, mapTimer)
    }

    constructor (manager: TimerLockerManager)
      requires manager.Valid() && Registry(manager.Lists, map[])
      ensures Valid() && mapWork == map[] && queue == [] && !token && !running && this.manager == manager
    {
      this.manager := manager;
      mapWork, mapTimer, queue, token, running := map[], map[], [], false, false;
    }

    method AddWork(id: int, ms: int, work: Work, address: int, osId: int) returns (ret: int)
      requires Valid() && (id !in mapWork ==> HasRoom(manager.St(), RequestFor(id, ms, address), osId))
      modifies this`mapWork, this`mapTimer, manager, manager.Owned, manager.table.timers
      ensures Valid()
      ensures ret == if id in old(mapWork) then 1 else 0
      ensures ret != 0 ==> mapWork == old(mapWork) && mapTimer == old(mapTimer) && manager.St() == old(manager.St())
      ensures ret == 0 ==>
        && mapWork == old(mapWork)[id := work]
        && mapTimer == old(mapTimer)[id := Granted(old(manager.St()), RequestFor(id, ms, address), osId != 0)]
        && manager.St() == Step(old(manager.St()), Create(RequestFor(id, ms, address), osId != 0))
      ensures ret == 0 && mapTimer[id].Some? ==>
        && mapTimer[id].value.period == Larger(ms, old(manager.resolution))
        && mapTimer[id].value.callback == PushWork(id)
    {
      if id in mapWork {
        return 1;
      }
      mapWork := mapWork[id := work];
      var timer := MakeTimer(id, RequestFor(id, ms, address), osId, mapTimer);
      mapTimer := mapTimer[id := timer];
      ret := 0;
    }

    method MakeTimer(id: int, r: Request, osId: int, ghost timers: map<int, Option<Locker>>)
      returns (timer: Option<Locker>)
      requires manager.Valid() && Registry(manager.Lists, timers) && id !in timers && HasRoom(manager.St(), r, osId)
      requires r.name == TimerName(id) && r.callback == PushWork(id)
      modifies manager, manager.Owned, manager.table.timers
      ensures manager.Valid() && Registry(manager.Lists, timers[id := timer])
      ensures timer == Granted(old(manager.St()), r, osId != 0)
      ensures manager.St() == Step(old(manager.St()), Create(r, osId != 0))
      ensures timer.Some? ==> IsAsked(timer.value, r, old(manager.resolution))
    {
      CreatingRegisters(manager.St(), timers, id, r, osId != 0);
      timer := manager.GetTimerLockerByTime(r, osId);
    }

    /** `DeleteTimerLocker` on a stored pointer: it goes by the name of the locker pointed to. */
    method DropTimer(p: Locker, ghost id: int, ghost timers: map<int, Option<Locker>>)
      requires manager.Valid() && Registry(manager.Lists, timers) && id in timers && timers[id] == Some(p)
      modifies manager`timers, manager`Lists, manager`Ids, manager`Alive, manager.Owned, manager.table.timers
      ensures manager.Valid() && Registry(manager.Lists, timers - {id})
      ensures manager.St() == Step(old(manager.St()), Delete(TimerName(id)))
      ensures KeepsSilent(old(manager.Lists), manager.Lists)
    {
      assert Entry(manager.Lists, id, p);
      DeletingUnregisters(manager.Lists, timers, id);
      KeepsOthers(manager.Lists, timers, id);
      var _ := manager.DeleteTimerLocker(p.name);
    }

    /** The program follows the stored pointer, so the entry must not be null. */
    method DeleteWork(id: int) returns (ret: int)
      requires Valid() && (id in mapTimer ==> mapTimer[id].Some?)
      modifies this`mapWork, this`mapTimer, manager, manager.Owned, manager.table.timers
      ensures Valid()
      ensures ret == if id in old(mapWork) then 0 else 1
      ensures ret != 0 ==> mapWork == old(mapWork) && mapTimer == old(mapTimer) && manager.St() == old(manager.St())
      ensures ret == 0 ==>
        && mapWork == old(mapWork) - {id} && mapTimer == old(mapTimer) - {id}
        && manager.St() == Step(old(manager.St()), Delete(TimerName(id)))
    {
      if id !in mapWork {
        return 1;
      }
      if id !in mapTimer {
        return 2;    // never taken: both maps have the same keys
      }
      DropTimer(mapTimer[id].value, id, mapTimer);
      WithoutKey(mapTimer, id);
      WithoutKey(mapWork, id);
      mapTimer := mapTimer - {id};
      mapWork := mapWork - {id};
      ret := 0;
    }

    /** The OS ticks slot `slot`: each fired work locker queues its id and wakes the worker. */
    method OsTick(slot: int)
      requires Valid() && 0 <= slot < O.SLOTS
      modifies this`queue, this`token, manager, manager.Owned
      ensures Valid()
      ensures old(manager.table.timers[slot].used) ==>
        && manager.St() == Step(old(manager.St()), Tick(old(manager.table.timers[slot].ptr)))
        && queue == old(queue) + Pushes(FiredIn(old(manager.St()), old(manager.table.timers[slot].ptr)))
      ensures !old(manager.table.timers[slot].used) ==> manager.St() == old(manager.St()) && queue == old(queue)
      ensures token == (old(token) || queue != old(queue))
    {
      var base := manager.table.timers[slot].ptr;
      ForeignEventsKeepRegistry(manager.St(), Tick(base), mapTimer);
      var fired := manager.OsCallback(slot);
      RunCallbacks(fired);
    }

    method RunCallbacks(fired: seq<Locker>)
      modifies this`queue, this`token
      ensures queue == old(queue) + Pushes(fired)
      ensures token == (old(token) || Pushes(fired) != [])
    {
      var i := 0;
      while i < |fired|
        invariant 0 <= i <= |fired|
        invariant queue == old(queue) + Pushes(fired[..i])
        invariant token == (old(token) || Pushes(fired[..i]) != [])
      {
        assert fired[..i + 1][..i] == fired[..i];
        match fired[i].callback {
          case NoCallback =>
          case PushWork(id) =>
            queue := queue + [id];
            token := true;
        }
        i := i + 1;
      }
      assert fired[..i] == fired;
    }

    /** Everything Deactivate does before it waits for the worker. */
    method StopTimers()
      requires Valid() && forall id | id in mapTimer :: mapTimer[id].Some?
      modifies this`mapWork, this`mapTimer, this`running, this`token, manager, manager.Owned, manager.table.timers
      ensures Valid() && mapWork == map[] && mapTimer == map[] && !running && token
      ensures forall k, l | Holds(manager.Lists, k, l) :: l.callback.NoCallback?
      ensures KeepsSilent(old(manager.Lists), manager.Lists)
    {
      DropTimers();
      EmptyRegistry(manager.Lists, map[]);
      mapTimer := map[];
      mapWork := map[];
      running := false;
      token := true;
    }

    method DropTimers()
      requires Valid() && forall id | id in mapTimer :: mapTimer[id].Some?
      modifies manager`timers, manager`Lists, manager`Ids, manager`Alive, manager.Owned, manager.table.timers
      ensures manager.Valid() && Registry(manager.Lists, map[]) && KeepsSilent(old(manager.Lists), manager.Lists)
    {
      var left := mapTimer;
      while left.Keys != {}
        invariant forall id | id in left :: left[id].Some?
        invariant manager.Valid() && Registry(manager.Lists, left)
        invariant KeepsSilent(old(manager.Lists), manager.Lists)
        decreases left.Keys
      {
        ghost var some := Element(left.Keys);
        var id :| id in left.Keys;
        DropTimer(left[id].value, id, left);
        WithoutKey(left, id);
        left := left - {id};
      }
      assert left == map[];
    }
  }

  /** Every locker that pushes no work id survives. */
  ghost predicate KeepsSilent(before: map<int, seq<Locker>>, after: map<int, seq<Locker>>) {
    forall k, l | Holds(before, k, l) && l.callback.NoCallback? :: Holds(after, k, l)
  }

  lemma EmptyRegistry(lists: map<int, seq<Locker>>, timers: map<int, Option<Locker>>)
    requires Registry(lists, timers) && timers.Keys == {}
    ensures timers == map[]
    ensures forall k, l | Holds(lists, k, l) :: l.callback.NoCallback?
  {
    forall k, l | Holds(lists, k, l)
      ensures l.callback.NoCallback?
    {
      assert l.callback.PushWork? ==> Belongs(timers, l);
    }
  }

  /** A locker named like a registered work is that work's own. */
  lemma KeepsOthers(lists: map<int, seq<Locker>>, timers: map<int, Option<Locker>>, id: int)
    requires Inv(lists) && Registry(lists, timers) && id in timers && timers[id].Some?
    ensures KeepsSilent(lists, Remove(lists, TimerName(id)))
  {
    var after := Remove(lists, TimerName(id));
    RemoveKeepsInv(lists, TimerName(id));
    assert Entry(lists, id, timers[id].value);
    var kk, ll :| Holds(lists, kk, ll) && PointsTo(timers[id].value, ll);
    forall k, l | Holds(lists, k, l) && l.callback.NoCallback?
      ensures Holds(after, k, l)
    {
      SameNameSameLocker(lists, k, l, kk, ll);
    }
  }

  lemma SameNameSameLocker(lists: map<int, seq<Locker>>, k1: int, l1: Locker, k2: int, l2: Locker)
    requires Inv(lists) && Holds(lists, k1, l1) && Holds(lists, k2, l2)
    ensures l1.name == l2.name ==> l1 == l2 && k1 == k2
  {
    Names(lists[k1]);
    Names(lists[k2]);
    assert HasName(lists[k1], l1.name) && HasName(lists[k2], l2.name);
  }
}
