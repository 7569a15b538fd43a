/**
 The objects behind TimerSpec: the OS timer slots of include/common/TimerEx.cpp and the base lists and the
 manager of include/common/TimerLockerManager.cpp.

 The OS is a parameter: `osId` is what timeSetEvent answers (0 for a refusal), and an OS tick is a call of
 `TimerLockerManager.OsCallback` with the slot that it carries.
 */
module TimerStack {
  import opened Common
  import opened TimerSpec
  import O = OsTimers

  class TimerTable {
    const timers: array<O.Slot>

    constructor ()
      ensures fresh(timers) && timers.Length == O.SLOTS
      ensures forall i | 0 <= i < O.SLOTS :: !timers[i].used
    {
      timers := new O.Slot[O.SLOTS](_ => O.Slot(0, 0, 0, false));
    }

    ghost predicate HasFreeSlot()
      reads this, timers
    {
      exists i :: 0 <= i < timers.Length && !timers[i].used
    }

    /** Index of the first free slot, or one past the end when every slot is used. */
    method CreateTimerId() returns (index: int)
      ensures 0 <= index <= timers.Length
      ensures forall i | 0 <= i < index :: timers[i].used
      ensures index < timers.Length ==> !timers[index].used
      ensures index < timers.Length <==> HasFreeSlot()
    {
      index := 0;
      while index < timers.Length && timers[index].used
        invariant 0 <= index <= timers.Length
        invariant forall i | 0 <= i < index :: timers[i].used
      {
        index := index + 1;
      }
    }

    /** The id is handed out even when the OS refuses; the slot is taken only when it agrees. */
    method CreateTimer(osId: int, ms: int, ptr: int) returns (ret: int, id: int)
      requires osId != 0 ==> HasFreeSlot()
      modifies timers
      ensures id == O.FirstFree(old(timers[..]))
      ensures ret == if osId == 0 then 1 else 0
      ensures ret == 0 ==> id < timers.Length && timers[..] == old(timers[..])[id := O.Slot(osId, ms, ptr, true)]
      ensures ret != 0 ==> timers[..] == old(timers[..])
    {
      id := CreateTimerId();
      O.FirstFreeIs(timers[..], id);
      if osId == 0 {
        return 1, id;
      }
      timers[id] := O.Slot(osId, ms, ptr, true);
      ret := 0;
    }

    /** The OS timer `killed` is the one recorded in the slot, which a free slot still has from its last use. */
    method DeleteTimer(id: int) returns (ret: int, killed: Option<int>)
      modifies timers
      ensures timers[..] == O.Freed(old(timers[..]), id)
      ensures ret == if 0 <= id < timers.Length then 0 else 1
      ensures killed == if 0 <= id < timers.Length then Some(old(timers[id].osId)) else None
    {
      if id < 0 || timers.Length <= id {
        return 1, None;
      }
      timers[id] := timers[id].(used := false, ptr := 0);
      ret, killed := 0, Some(timers[id].osId);
    }
  }

  lemma {:induction false} FiredPrefix(ls: seq<Locker>, base: int, i: nat)
    requires i < |ls|
    ensures Fired(ls[..i + 1], base) == Fired(ls[..i], base) + if Fires(ls[i], base) then [TickOne(ls[i], base)] else []
  {
    if i > 0 {
      assert ls[..i + 1][1..] == ls[1..][..i];
      assert ls[..i][1..] == ls[1..][..i - 1];
      FiredPrefix(ls[1..], base, i - 1);
    }
  }

  lemma {:induction false} WithoutAt(ls: seq<Locker>, name: string, i: nat)
    requires i < |ls| && ls[i].name == name
    requires forall j | 0 <= j < i :: ls[j].name != name
    ensures Without(ls, name) == ls[..i] + ls[i + 1..]
  {
    if i > 0 {
      WithoutAt(ls[1..], name, i - 1);
      assert ls[..i] == [ls[0]] + ls[1..][..i - 1];
      assert ls[1..][i..] == ls[i + 1..];
    }
  }

  lemma {:induction false} WithoutAbsent(ls: seq<Locker>, name: string)
    requires !HasName(ls, name)
    ensures Without(ls, name) == ls
  {
    if ls != [] {
      assert ls[0].name != name;
      assert forall i :: 0 <= i < |ls| - 1 ==> ls[1..][i] == ls[i + 1];
      WithoutAbsent(ls[1..], name);
    }
  }

  class TimerLockerList {
    const period: pos
    const table: TimerTable
    var timerId: int
    var lockers: seq<Locker>

    constructor (ms: pos, table: TimerTable)
      ensures period == ms && this.table == table && timerId == -1 && lockers == []
    {
      period, this.table := ms, table;
      timerId, lockers := -1, [];
    }

    method Initialize(osId: int) returns (ret: int)
      requires osId != 0 ==> table.HasFreeSlot()
      modifies this`timerId, table.timers
      ensures timerId == O.FirstFree(old(table.timers[..]))
      ensures ret == if osId == 0 then 1 else 0
      ensures ret == 0 ==> timerId < table.timers.Length
      ensures ret == 0 ==> table.timers[..] == old(table.timers[..])[timerId := O.Slot(osId, period, period, true)]
      ensures ret != 0 ==> table.timers[..] == old(table.timers[..])
    {
      var id;
      ret, id := table.CreateTimer(osId, period, period);
      timerId := id;
    }

    method Finalize() returns (killed: Option<int>)
      modifies this`lockers, table.timers
      ensures lockers == []
      ensures table.timers[..] == O.Freed(old(table.timers[..]), timerId)
      ensures killed == if 0 <= timerId < table.timers.Length then Some(old(table.timers[timerId].osId)) else None
    {
      lockers := [];
      var ret;
      ret, killed := table.DeleteTimer(timerId);
    }

    method HasTimer() returns (has: bool)
      ensures has <==> timerId != -1
    {
      has := timerId != -1;
    }

    method AddItem(item: Locker)
      modifies this`lockers
      ensures lockers == old(lockers) + [item]
    {
      lockers := lockers + [item];
    }

    /** The deleted locker is woken first, so that a thread which waits on it goes on. */
    method DeleteItem(name: string) returns (ret: bool, woken: Option<Locker>)
      modifies this`lockers
      ensures ret == HasName(old(lockers), name)
      ensures lockers == Without(old(lockers), name)
      ensures !ret ==> lockers == old(lockers) && woken.None?
      ensures ret ==> woken.Some? && woken.value in old(lockers) && woken.value.name == name
    {
      woken := None;
      var i := 0;
      while i < |lockers|
        invariant 0 <= i <= |lockers|
        invariant lockers == old(lockers)
        invariant forall j | 0 <= j < i :: lockers[j].name != name
      {
        if lockers[i].name == name {
          WithoutAt(lockers, name, i);
          woken := Some(lockers[i]);
          lockers := lockers[..i] + lockers[i + 1..];
          return true, woken;
        }
        i := i + 1;
      }
      WithoutAbsent(lockers, name);
      ret := false;
    }

    method IsEmpty() returns (empty: bool)
      ensures empty <==> lockers == []
    {
      empty := lockers == [];
    }

    /** One tick of the base timer: every locker accumulates, and the due ones wake up and run their callback. */
    method SendEvent() returns (fired: seq<Locker>)
      modifies this`lockers
      ensures lockers == TickList(old(lockers), period)
      ensures fired == Fired(old(lockers), period)
    {
      fired := [];
      var i := 0;
      while i < |lockers|
        invariant 0 <= i <= |lockers| == |old(lockers)|
        invariant forall j | 0 <= j < i :: lockers[j] == TickOne(old(lockers)[j], period)
        invariant forall j | i <= j < |lockers| :: lockers[j] == old(lockers)[j]
        invariant fired == Fired(old(lockers)[..i], period)
      {
        FiredPrefix(old(lockers), period, i);
        lockers := lockers[i := lockers[i].(count := lockers[i].count + period)];
        if lockers[i].count >= lockers[i].period {
          lockers := lockers[i := lockers[i].(count := 0)];
          fired := fired + [lockers[i]];
        }
        i := i + 1;
      }
      assert old(lockers)[..i] == old(lockers);
    }
  }

  /** Used slots and stored lists are in bijection, and each slot carries its own list's key. */
  ghost predicate SlotsAgree(slots: seq<O.Slot>, ids: map<int, int>) {
    && (forall k | k in ids :: 0 <= ids[k] < |slots| && slots[ids[k]].used && slots[ids[k]].ptr == k)
    && (forall i | 0 <= i < |slots| && slots[i].used :: slots[i].ptr in ids && ids[slots[i].ptr] == i)
  }

  class TimerLockerManager {
    var resolution: pos
    var timers: map<int, TimerLockerList>
    const table: TimerTable
    /** The contents of the lists: `State(resolution, Lists)` is the state of TimerSpec. */
    ghost var Lists: map<int, seq<Locker>>
    ghost var Ids: map<int, int>
    /** The OS timers that run. */
    ghost var Alive: set<int>
    /** Every list the manager ever stored. */
    ghost var Owned: set<TimerLockerList>

    /** The lists on the heap are the ones the ghost fields speak of. */
    ghost predicate Shape()
      reads this, Owned
    {
      && table.timers.Length == O.SLOTS
      && timers.Keys == Lists.Keys == Ids.Keys
      && forall k | k in timers ::
          && timers[k] in Owned && timers[k].period == k && timers[k].table == table
          && timers[k].lockers == Lists[k] && timers[k].timerId == Ids[k]
    }

    ghost predicate Wired()
      reads this, Owned, table.timers
    {
      Shape() && SlotsAgree(table.timers[..], Ids)
    }

    ghost predicate Valid()
      reads this, Owned, table.timers
    {
      Wired() && Inv(Lists)
    }

    ghost function St(): State
      reads this
    {
      State(resolution, Lists)
    }

    /** The slots, and the timers of the OS, as OsTimers has them. */
    ghost function Os(): O.Os
      reads this`Alive, table.timers
    {
      O.Os(table.timers[..], Alive)
    }

    constructor ()
      ensures Valid() && fresh(table.timers)
      ensures St() == INITIAL && Alive == {} && O.AllRun(Os())
    {
      resolution, timers, Lists, Ids, Alive, Owned := 10, map[], map[], map[], {}, {};
      table := new TimerTable();
    }

    method SetTimerMinResolution(ms: pos)
      requires Valid()
      modifies this`resolution
      ensures Valid() && St() == Step(old(St()), SetResolution(ms))
    {
      resolution := ms;
    }

    method GetDivisor(ms: int) returns (ret: pos)
      ensures ret == Divisor(resolution, ms)
    {
      ret := resolution;
      var ii: pos := resolution;
      while ii <= ms
        invariant DivisorFrom(ii, ms, resolution) == Divisor(resolution, ms) && ret == resolution
        decreases ms - ii
      {
        if ms % ii == 0 {
          return ii;
        }
        ii := ii + 1;
      }
    }

    /** The OS reports a tick of slot `id`: exactly the list whose timer sits in that slot is ticked. */
    method OsCallback(id: int) returns (fired: seq<Locker>)
      requires Valid() && 0 <= id < O.SLOTS
      modifies this`Lists, Owned
      ensures Valid()
      ensures old(table.timers[id].used) ==>
        && old(table.timers[id].ptr) in timers
        && timers[old(table.timers[id].ptr)].timerId == id
        && St() == Step(old(St()), Tick(old(table.timers[id].ptr)))
        && fired == FiredIn(old(St()), old(table.timers[id].ptr))
      ensures !old(table.timers[id].used) ==> St() == old(St()) && fired == []
    {
      var slot := table.timers[id];
      assert table.timers[..][id] == slot;
      fired := [];
      if slot.used {
        fired := CallbackTimer(slot.ptr);
      }
    }

    method CallbackTimer(ms: int) returns (fired: seq<Locker>)
      requires Valid()
      modifies this`Lists, Owned
      ensures Valid()
      ensures St() == Step(old(St()), Tick(ms))
      ensures fired == FiredIn(old(St()), ms)
    {
      if ms !in timers {
        return [];
      }
      TickKeepsInv(Lists, ms);
      fired := timers[ms].SendEvent();
      Lists := Lists[ms := TickList(Lists[ms], ms)];
      assert Lists.Keys == old(Lists.Keys);
    }

    method DeleteTimerLocker(name: string) returns (ret: bool)
      requires Valid()
      modifies this`timers, this`Lists, this`Ids, this`Alive, Owned, table.timers
      ensures Valid() && St() == Step(old(St()), Delete(name))
      ensures ret <==> !AbsentBut(old(Lists), name, {})
      ensures Os() == O.Run(old(Os()), Ends(old(Lists), old(Ids), name))
    {
      ghost var ids := Ids;
      ret := DeleteFirst(name);
      if !ret {
        RemoveAbsent(Lists, name);
        EndsNowhere(Lists, ids, name);
      }
    }

    /** The program visits the bases in ascending order; names are unique, so any order gives the same. */
    method DeleteFirst(name: string) returns (found: bool)
      requires Valid()
      modifies this`timers, this`Lists, this`Ids, this`Alive, Owned, table.timers
      ensures Valid() && (found <==> !AbsentBut(old(Lists), name, {}))
      ensures Lists == if found then Remove(old(Lists), name) else old(Lists)
      ensures Os() == if found then O.Run(old(Os()), Ends(old(Lists), old(Ids), name)) else old(Os())
    {
      found := false;
      var todo := timers.Keys;
      while todo != {}
        invariant Valid() && Lists == old(Lists) && todo <= timers.Keys && AbsentBut(Lists, name, todo)
        invariant Ids == old(Ids) && Os() == old(Os())
        decreases todo
      {
        found, todo := DeleteFromNext(todo, name);
        if found {
          return;
        }
      }
    }

    method DeleteFromNext(todo: set<int>, name: string) returns (found: bool, rest: set<int>)
      requires Valid() && todo != {} && todo <= timers.Keys && AbsentBut(Lists, name, todo)
      modifies this`timers, this`Lists, this`Ids, this`Alive, Owned, table.timers
      ensures Valid()
      ensures found ==> Lists == Remove(old(Lists), name) && !AbsentBut(old(Lists), name, {})
      ensures !found ==> Lists == old(Lists) && rest < todo && rest <= timers.Keys && AbsentBut(Lists, name, rest)
      ensures !found ==> Ids == old(Ids) && Os() == old(Os())
      ensures found ==> Os() == O.Run(old(Os()), Ends(old(Lists), old(Ids), name))
    {
      ghost var some := Element(todo);
      var k :| k in todo;
      found := DeleteFrom(k, name);
      rest := todo - {k};
    }

    /** `DeleteItem` on one list and, if it leaves the list empty, the end of that list. */
    method DeleteFrom(k: int, name: string) returns (found: bool)
      requires Valid() && k in timers
      modifies this`timers, this`Lists, this`Ids, this`Alive, Owned, table.timers
      ensures Valid()
      ensures found == HasName(old(Lists)[k], name)
      ensures !found ==> timers == old(timers) && Lists == old(Lists)
      ensures found ==> Lists == Remove(old(Lists), name)
      ensures !found ==> Ids == old(Ids) && Os() == old(Os())
      ensures found ==> Os() == O.Run(old(Os()), Ends(old(Lists), old(Ids), name))
    {
      ghost var lists, os := Lists, Os();
      found := DeleteItem(k, name);
      if found {
        EndsAt(lists, Ids, name, k);
        O.RunOfOne(os, O.End(Ids[k]));
        RemoveOne(lists, k, name);
        RemoveKeepsInv(lists, name);
        var empty := timers[k].IsEmpty();
        if empty {
          DropList(k, timers[k]);
        }
      } else {
        WithoutAbsent(lists[k], name);
      }
    }

    method DeleteItem(k: int, name: string) returns (found: bool)
      requires Wired() && k in timers
      modifies this`Lists, Owned
      ensures Wired() && Lists == old(Lists)[k := Without(old(Lists)[k], name)]
      ensures found == HasName(old(Lists)[k], name)
    {
      var deleted, _ := timers[k].DeleteItem(name);
      found := deleted;
      Lists := Lists[k := timers[k].lockers];
    }

    method DropList(k: int, list: TimerLockerList)
      requires Wired() && k in timers && timers[k] == list && list.lockers == []
      modifies this`timers, this`Lists, this`Ids, this`Alive, list`lockers, table.timers
      ensures Wired() && timers == old(timers) - {k} && Lists == old(Lists) - {k}
      ensures Os() == O.Next(old(Os()), O.End(old(Ids)[k]))
    {
      SlotFreed(table.timers[..], Ids, k);
      FinalizeList(list);
      Unlink(k);
      FinalizeList(list);    // by the destructor, once the map lets go of the list
    }

    /** The OS timer recorded in the slot of the list is killed. */
    method FinalizeList(list: TimerLockerList)
      requires list.table == table
      modifies this`Alive, list`lockers, table.timers
      ensures list.lockers == [] && Os() == O.Delete(old(Os()), list.timerId)
    {
      var killed := list.Finalize();
      Alive := Alive - if killed.Some? then {killed.value} else {};
    }

    method Unlink(k: int)
      requires Shape() && k in timers
      modifies this`timers, this`Lists, this`Ids
      ensures Shape()
      ensures timers == old(timers) - {k} && Lists == old(Lists) - {k} && Ids == old(Ids) - {k}
    {
      WithoutKey(timers, k);
      WithoutKey(Lists, k);
      WithoutKey(Ids, k);
      timers := timers - {k};
      Lists, Ids := Lists - {k}, Ids - {k};
    }

    /** The list of a base; a missing one is created with its OS timer, or not at all if the OS refuses. */
    method GetList(base: pos, osId: int) returns (list: TimerLockerList?)
      requires Wired()
      requires base !in timers && osId != 0 ==> |timers| < O.SLOTS
      modifies this`timers, this`Lists, this`Ids, this`Owned, this`Alive, table.timers
      ensures Wired() && fresh(Owned - old(Owned)) && (list == null <==> base !in old(timers) && osId == 0)
      ensures list == null ==> timers == old(timers) && Lists == old(Lists)
      ensures list != null ==> timers == old(timers)[base := list]
      ensures list != null ==> Lists == if base in old(Lists) then old(Lists) else old(Lists)[base := []]
      ensures base in old(timers) ==> list == old(timers)[base]
      ensures base !in old(timers) && list != null ==> fresh(list)
      ensures Os() == O.Run(old(Os()), Makes(base in old(timers), base, osId))
    {
      if base in timers {
        list := timers[base];
      } else {
        list := NewList(base, osId);
      }
    }

    method NewList(base: pos, osId: int) returns (list: TimerLockerList?)
      requires Wired() && base !in timers
      requires osId != 0 ==> |timers| < O.SLOTS
      modifies this`timers, this`Lists, this`Ids, this`Owned, this`Alive, table.timers
      ensures Wired() && fresh(Owned - old(Owned)) && (list == null <==> osId == 0)
      ensures list == null ==> timers == old(timers) && Lists == old(Lists)
      ensures list != null ==> fresh(list) && timers == old(timers)[base := list] && Lists == old(Lists)[base := []]
      ensures Os() == O.Next(old(Os()), if osId == 0 then O.Refuse else O.Grant(osId, base))
    {
      ghost var slots := table.timers[..];
      if osId != 0 {
        FreeSlotExists(slots, Ids);
      }
      var newList, ret := Initialized(base, osId);
      if ret != 0 {
        Discard(newList);
        return null;
      }
      SlotTaken(slots, Ids, newList.timerId, osId, base);
      Store(newList, base, osId);
      list := newList;
    }

    method Initialized(base: pos, osId: int) returns (list: TimerLockerList, ret: int)
      requires Shape() && (osId != 0 ==> table.HasFreeSlot())
      modifies table.timers
      ensures Shape() && fresh(list) && list.period == base && list.table == table && list.lockers == []
      ensures list.timerId == O.FirstFree(old(table.timers[..])) && ret == if osId == 0 then 1 else 0
      ensures osId == 0 ==> table.timers[..] == old(table.timers[..])
      ensures osId != 0 ==>
        && list.timerId < O.SLOTS
        && table.timers[..] == old(table.timers[..])[list.timerId := O.Slot(osId, base, base, true)]
    {
      list := new TimerLockerList(base, table);
      ret := list.Initialize(osId);
    }

    /** The destructor of a list whose timer the OS refused. */
    method Discard(list: TimerLockerList)
      requires Wired() && list !in Owned && list.table == table && list.timerId == O.FirstFree(table.timers[..])
      modifies this`Alive, list`lockers, table.timers
      ensures Wired() && Os() == O.Next(old(Os()), O.Refuse)
    {
      UnusedSlotFreed(table.timers[..], Ids, list.timerId);
      FinalizeList(list);
    }

    method Store(list: TimerLockerList, base: int, ghost osId: int)
      requires Shape() && list.period == base && SlotsAgree(table.timers[..], Ids[base := list.timerId])
      requires base !in timers && list.table == table && list.lockers == []
      modifies this`timers, this`Lists, this`Ids, this`Owned, this`Alive
      ensures Wired() && Owned == old(Owned) + {list} && Alive == old(Alive) + {osId}
      ensures timers == old(timers)[base := list] && Lists == old(Lists)[base := []]
    {
      Alive := Alive + {osId};
      timers, Lists := timers[base := list], Lists[base := []];
      Ids, Owned := Ids[base := list.timerId], Owned + {list};
    }

    /** The new locker, or none when the OS refuses a timer that is needed. */
    method GetTimerLockerByTime(r: Request, osId: int) returns (item: Option<Locker>)
      requires Valid() && HasRoom(St(), r, osId)
      modifies this`timers, this`Lists, this`Ids, this`Owned, this`Alive, Owned, table.timers
      ensures Valid() && fresh(Owned - old(Owned))
      ensures St() == Step(old(St()), Create(r, osId != 0))
      ensures item == Granted(old(St()), r, osId != 0)
      ensures item.Some? ==> IsAsked(item.value, r, old(resolution))
      ensures Os() == O.Run(old(Os()), RequestEvents(old(St()), old(Ids), r, osId))
    {
      ghost var st, ids, os := St(), Ids, Os();
      var ms := if r.ms < resolution then resolution else r.ms;
      var _ := DeleteTimerLocker(r.name);
      var base := GetDivisor(ms);
      var locker := Locker(r.name, ms, r.callback, r.address, 0);
      item := AddRequested(st, ids, os, r, base, locker, osId);
    }

    method AddRequested(ghost st: State, ghost ids: map<int, int>, ghost os: O.Os, ghost r: Request, base: pos,
                        locker: Locker, osId: int)
      returns (item: Option<Locker>)
      requires st.lists.Keys == ids.Keys && Os() == O.Run(os, Ends(st.lists, ids, r.name))
      requires Wired() && Inv(st.lists) && St() == Step(st, Delete(r.name)) && HasRoom(st, r, osId)
      requires base == Divisor(resolution, locker.period) && locker == NewLocker(st, r)
      modifies this`timers, this`Lists, this`Ids, this`Owned, this`Alive, Owned, table.timers
      ensures Valid() && fresh(Owned - old(Owned))
      ensures St() == Step(st, Create(r, osId != 0)) && item == Granted(st, r, osId != 0)
      ensures item.Some? ==> IsAsked(item.value, r, st.resolution)
      ensures Os() == O.Run(os, RequestEvents(st, ids, r, osId))
    {
      O.RunAppend(os, Ends(st.lists, ids, r.name), Makes(base in Lists, base, osId));
      CreateKeepsInv(st, r, osId != 0);
      Creates(st, r, osId != 0, base, locker);
      item := AddLocker(base, locker, osId);
    }

    method AddLocker(base: pos, locker: Locker, osId: int) returns (item: Option<Locker>)
      requires Wired() && (base !in Lists && osId != 0 ==> |Lists| < O.SLOTS)
      modifies this`timers, this`Lists, this`Ids, this`Owned, this`Alive, Owned, table.timers
      ensures Wired() && fresh(Owned - old(Owned))
      ensures Lists == Added(old(Lists), base, locker, osId != 0)
      ensures Os() == O.Run(old(Os()), Makes(base in old(Lists), base, osId))
      ensures item == if base in old(Lists) || osId != 0 then Some(locker) else None
    {
      assert |timers| == |timers.Keys| == |Lists.Keys| == |Lists|;
      var list := GetList(base, osId);
      if list == null {
        return None;
      }
      AddToStored(old(Lists), base, locker);
      item := AddItem(base, list, locker);
    }

    method AddItem(base: int, list: TimerLockerList, locker: Locker) returns (item: Option<Locker>)
      requires Wired() && base in timers && timers[base] == list
      modifies this`Lists, list`lockers
      ensures Wired() && Lists == old(Lists)[base := old(Lists)[base] + [locker]] && item == Some(locker)
    {
      assert list.timerId == Ids[base];
      var has := list.HasTimer();
      if !has {
        return None;    // never taken: a stored list has a slot
      }
      list.AddItem(locker);
      Lists := Lists[base := Lists[base] + [locker]];
      item := Some(locker);
    }
  }

  /** What a request for a base does to the OS timers: nothing when its list exists. */
  ghost function Makes(stored: bool, base: int, osId: int): seq<O.Event> {
    if stored then [] else [if osId == 0 then O.Refuse else O.Grant(osId, base)]
  }

  ghost predicate Empties(lists: map<int, seq<Locker>>, name: string, k: int) {
    k in lists && Without(lists[k], name) == []
  }

  /** What deleting by a name does to the OS timers: the list that it leaves empty ends. */
  ghost function Ends(lists: map<int, seq<Locker>>, ids: map<int, int>, name: string): seq<O.Event>
    requires lists.Keys == ids.Keys
  {
    if k :| Empties(lists, name, k) then [O.End(ids[k])] else []
  }

  ghost function RequestEvents(st: State, ids: map<int, int>, r: Request, osId: int): seq<O.Event>
    requires st.lists.Keys == ids.Keys
  {
    Ends(st.lists, ids, r.name) + Makes(BaseOf(st, r) in Remove(st.lists, r.name), BaseOf(st, r), osId)
  }

  /**
   A request leaves every stored list with a running OS timer of its own if and only if it is not refused while
   some list has the OS id that the first free slot still records.
   */
  lemma RequestKeepsRunningIff(os: O.Os, ids: map<int, int>, st: State, r: Request, osId: int)
    requires st.lists.Keys == ids.Keys && O.AllRun(os) && O.PossibleRun(os, RequestEvents(st, ids, r, osId))
    ensures var events := RequestEvents(st, ids, r, osId);
            O.AllRun(O.Run(os, events)) <==> O.HarmlessRun(os, events)
  {
    O.LastRefusalShows(os, RequestEvents(st, ids, r, osId));
  }

  lemma EndsAt(lists: map<int, seq<Locker>>, ids: map<int, int>, name: string, k: int)
    requires Inv(lists) && lists.Keys == ids.Keys && k in lists && HasName(lists[k], name)
    ensures Ends(lists, ids, name) == if Without(lists[k], name) == [] then [O.End(ids[k])] else []
  {
    forall j | Empties(lists, name, j)
      ensures j == k
    {
      if j != k {
        WithoutAbsent(lists[j], name);
      }
    }
    assert Without(lists[k], name) == [] ==> Empties(lists, name, k);
  }

  lemma EndsNowhere(lists: map<int, seq<Locker>>, ids: map<int, int>, name: string)
    requires Inv(lists) && lists.Keys == ids.Keys && AbsentBut(lists, name, {})
    ensures Ends(lists, ids, name) == []
  {
    forall j | j in lists
      ensures !Empties(lists, name, j)
    {
      WithoutAbsent(lists[j], name);
    }
  }

  function Added(lists: map<int, seq<Locker>>, base: int, l: Locker, osOk: bool): map<int, seq<Locker>> {
    if base in lists || osOk then Add(lists, base, l) else lists
  }

  /** A new locker with the larger of the period asked for and the resolution. */
  ghost predicate IsAsked(l: Locker, r: Request, resolution: int) {
    && l.name == r.name && l.callback == r.callback && l.address == r.address && l.count == 0
    && l.period == Larger(r.ms, resolution)
  }

  /** A slot is free for the request, or none is needed: an existing list serves it, or the OS refuses. */
  ghost predicate HasRoom(st: State, r: Request, osId: int) {
    osId == 0 || BaseOf(st, r) in Remove(st.lists, r.name) || |Remove(st.lists, r.name)| < O.SLOTS
  }

  lemma Creates(st: State, r: Request, osOk: bool, base: pos, l: Locker)
    requires base == Divisor(st.resolution, l.period) && l == NewLocker(st, r)
    ensures Step(st, Create(r, osOk)) == st.(lists := Added(Remove(st.lists, r.name), base, l, osOk))
    ensures base == BaseOf(st, r)
  {
  }

  lemma AddToStored(lists: map<int, seq<Locker>>, base: int, l: Locker)
    ensures base in lists ==> Add(lists, base, l) == lists[base := lists[base] + [l]]
    ensures base !in lists ==> Add(lists, base, l) == lists[base := []][base := [] + [l]]
  {
  }

  lemma SlotFreed(slots: seq<O.Slot>, ids: map<int, int>, k: int)
    requires SlotsAgree(slots, ids) && k in ids
    ensures SlotsAgree(O.Freed(slots, ids[k]), ids - {k})
    ensures O.Freed(O.Freed(slots, ids[k]), ids[k]) == O.Freed(slots, ids[k])
  {
  }

  lemma UnusedSlotFreed(slots: seq<O.Slot>, ids: map<int, int>, id: int)
    requires SlotsAgree(slots, ids) && (0 <= id < |slots| ==> !slots[id].used)
    ensures SlotsAgree(O.Freed(slots, id), ids)
  {
  }

  lemma SlotTaken(slots: seq<O.Slot>, ids: map<int, int>, id: nat, osId: int, k: int)
    requires SlotsAgree(slots, ids) && id < |slots| && !slots[id].used && k !in ids
    ensures SlotsAgree(slots[id := O.Slot(osId, k, k, true)], ids[k := id])
  {
  }

  /** Fewer lists than slots leave a slot free, since every used slot carries a different key. */
  lemma FreeSlotExists(slots: seq<O.Slot>, ids: map<int, int>)
    requires SlotsAgree(slots, ids) && |ids| < |slots|
    ensures exists i :: 0 <= i < |slots| && !slots[i].used
  {
    if forall i | 0 <= i < |slots| :: slots[i].used {
      AllUsed(slots, ids, |slots|);
    }
  }

  lemma {:induction false} AllUsed(slots: seq<O.Slot>, ids: map<int, int>, n: nat)
    requires n <= |slots| && forall i | 0 <= i < n :: slots[i].ptr in ids && ids[slots[i].ptr] == i
    ensures n <= |ids|
    decreases n
  {
    if n > 0 {
      var key := slots[n - 1].ptr;
      WithoutKey(ids, key);
      AllUsed(slots, ids - {key}, n - 1);
      assert |ids - {key}| == |(ids - {key}).Keys| == |ids.Keys| - 1;
    }
  }

  lemma WithoutKey<T>(m: map<int, T>, k: int)
    ensures (m - {k}).Keys == m.Keys - {k}
    ensures forall j | j in m && j != k :: j in m - {k} && (m - {k})[j] == m[j]
  {
  }

  /** Only the lists of these bases can hold the name. */
  ghost predicate AbsentBut(lists: map<int, seq<Locker>>, name: string, bases: set<int>) {
    forall k | k in lists && k !in bases :: !HasName(lists[k], name)
  }

  lemma RemoveAbsent(lists: map<int, seq<Locker>>, name: string)
    requires Inv(lists) && AbsentBut(lists, name, {})
    ensures Remove(lists, name) == lists
  {
    forall k | k in lists
      ensures Without(lists[k], name) == lists[k] && lists[k] != []
    {
      WithoutAbsent(lists[k], name);
    }
  }

  /** Names are unique, so deleting from the list that holds the name is deleting it everywhere. */
  lemma RemoveOne(lists: map<int, seq<Locker>>, k: int, name: string)
    requires Inv(lists) && k in lists && HasName(lists[k], name)
    ensures var rest := Without(lists[k], name);
            Remove(lists, name) == if rest == [] then lists[k := rest] - {k} else lists[k := rest]
  {
    assert lists[k := []] - {k} == lists - {k};
    forall j | j in lists && j != k
      ensures Without(lists[j], name) == lists[j] && lists[j] != []
    {
      WithoutAbsent(lists[j], name);
    }
  }
}
