/**
 What the slot table of include/common/TimerEx.cpp does to the timers of the OS: a slot that was freed keeps the
 OS id of its last timer, and deleting it again kills whatever timer has that id by then. The manager of
 TimerStack.dfy makes exactly these steps.
 */
module OsTimers {

  const SLOTS := 64

  datatype Slot = Slot(osId: int, ms: int, ptr: int, used: bool)

  /** The slots after DeleteTimer, lines 173-189. */
  function Freed(slots: seq<Slot>, id: int): seq<Slot> {
    if 0 <= id < |slots| then slots[id := slots[id].(used := false, ptr := 0)] else slots
  }

  /** `alive`: the ids of the OS timers that run. */
  datatype Os = Os(slots: seq<Slot>, alive: set<int>)

  function FirstFree(slots: seq<Slot>): (i: nat)
    ensures i <= |slots| && (i < |slots| ==> !slots[i].used)
    ensures forall j | 0 <= j < i :: slots[j].used
  {
    if slots == [] || !slots[0].used then 0 else 1 + FirstFree(slots[1..])
  }

  lemma FirstFreeIs(slots: seq<Slot>, i: nat)
    requires i <= |slots| && (i < |slots| ==> !slots[i].used) && forall j | 0 <= j < i :: slots[j].used
    ensures FirstFree(slots) == i
  {
  }

  /** DeleteTimer: the slot is freed and the OS id that it records is killed. */
  function Delete(o: Os, id: int): Os {
    if 0 <= id < |o.slots| then Os(Freed(o.slots, id), o.alive - {o.slots[id].osId}) else o
  }

  /** A new list, and one that ends: its slot is deleted by Finalize and again by the destructor. */
  datatype Event = Grant(osId: int, key: int) | Refuse | End(id: int)

  predicate Possible(o: Os, e: Event) {
    match e
    case Grant(osId, _) => osId !in o.alive && FirstFree(o.slots) < |o.slots|
    case Refuse => true
    case End(id) => 0 <= id < |o.slots| && o.slots[id].used
  }

  /** A refused timer still has the id of the first free slot, which the destructor of its list deletes. */
  function Next(o: Os, e: Event): Os {
    var free := FirstFree(o.slots);
    match e
    case Grant(osId, key) =>
      if free < |o.slots| then Os(o.slots[free := Slot(osId, key, key, true)], o.alive + {osId}) else o
    case Refuse => Delete(o, free)
    case End(id) => Delete(Delete(o, id), id)
  }

  /** Every stored list has an OS timer of its own that runs. */
  ghost predicate AllRun(o: Os) {
    && (forall i | 0 <= i < |o.slots| && o.slots[i].used :: o.slots[i].osId in o.alive)
    && (forall i, j | 0 <= i < j < |o.slots| && o.slots[i].used && o.slots[j].used ::
      o.slots[i].osId != o.slots[j].osId)
  }

  /** A refusal is harmless when no stored list has the OS id left over in the first free slot. */
  ghost predicate Harmless(o: Os, e: Event) {
    var free := FirstFree(o.slots);
    e.Refuse? && free < |o.slots| ==>
      forall i | 0 <= i < |o.slots| && o.slots[i].used :: o.slots[i].osId != o.slots[free].osId
  }

  /** A step leaves the OS timer of every stored list running if and only if it is harmless. */
  lemma StepKeepsRunningIff(o: Os, e: Event)
    requires AllRun(o) && Possible(o, e)
    ensures AllRun(Next(o, e)) <==> Harmless(o, e)
  {
    var o' := Next(o, e);
    if !Harmless(o, e) {
      var i :| 0 <= i < |o.slots| && o.slots[i].used && o.slots[i].osId == o.slots[FirstFree(o.slots)].osId;
      assert o'.slots[i] == o.slots[i] && o'.slots[i].osId !in o'.alive;
    }
  }

  ghost predicate HarmlessRun(o: Os, events: seq<Event>)
    decreases |events|
  {
    events == [] || (Possible(o, events[0]) && Harmless(o, events[0]) && HarmlessRun(Next(o, events[0]), events[1..]))
  }

  function Run(o: Os, events: seq<Event>): Os
    decreases |events|
  {
    if events == [] then o else Run(Next(o, events[0]), events[1..])
  }

  lemma RunOfOne(o: Os, e: Event)
    ensures Run(o, [e]) == Next(o, e)
  {
    assert Run(Next(o, e), [e][1..]) == Next(o, e);
  }

  lemma {:induction false} RunAppend(o: Os, a: seq<Event>, b: seq<Event>)
    ensures Run(o, a + b) == Run(Run(o, a), b)
    decreases |a|
  {
    if a == [] {
      assert a + b == b;
    } else {
      assert (a + b)[1..] == a[1..] + b;
      RunAppend(Next(o, a[0]), a[1..], b);
    }
  }

  lemma {:induction false} HarmlessRunsKeepRunning(o: Os, events: seq<Event>)
    requires AllRun(o) && HarmlessRun(o, events)
    ensures AllRun(Run(o, events))
    decreases |events|
  {
    if events != [] {
      StepKeepsRunningIff(o, events[0]);
      HarmlessRunsKeepRunning(Next(o, events[0]), events[1..]);
    }
  }

  predicate PossibleRun(o: Os, events: seq<Event>)
    decreases |events|
  {
    events == [] || (Possible(o, events[0]) && PossibleRun(Next(o, events[0]), events[1..]))
  }

  ghost predicate RunThroughout(o: Os, events: seq<Event>)
    decreases |events|
  {
    AllRun(o) && (events == [] || RunThroughout(Next(o, events[0]), events[1..]))
  }

  /** Over any run every stored list has a running OS timer all the time if and only if each step is harmless. */
  lemma {:induction false} KeepRunningIff(o: Os, events: seq<Event>)
    requires AllRun(o) && PossibleRun(o, events)
    ensures RunThroughout(o, events) <==> HarmlessRun(o, events)
    decreases |events|
  {
    if events != [] {
      StepKeepsRunningIff(o, events[0]);
      if Harmless(o, events[0]) {
        KeepRunningIff(Next(o, events[0]), events[1..]);
      }
    }
  }

  /** When nothing is done after a refusal, what it did shows in the end. */
  lemma {:induction false} LastRefusalShows(o: Os, events: seq<Event>)
    requires AllRun(o) && PossibleRun(o, events) && forall i | 0 <= i < |events| - 1 :: !events[i].Refuse?
    ensures AllRun(Run(o, events)) <==> HarmlessRun(o, events)
    decreases |events|
  {
    if events != [] {
      StepKeepsRunningIff(o, events[0]);
      if |events| == 1 {
        RunOfOne(o, events[0]);
        assert events[1..] == [];
      } else {
        LastRefusalShows(Next(o, events[0]), events[1..]);
      }
    }
  }

  // ---------------------------------------------------------------- a harmful run

  /** The whole table, with these first two slots and the others never used. */
  function Table(a: Slot, b: Slot): seq<Slot> {
    [a, b] + seq(SLOTS - 2, _ => Slot(0, 0, 0, false))
  }

  lemma GrantFirst(a: Slot, b: Slot, alive: set<int>, osId: int, key: int)
    requires !a.used && osId !in alive
    ensures Possible(Os(Table(a, b), alive), Grant(osId, key))
    ensures Next(Os(Table(a, b), alive), Grant(osId, key)) == Os(Table(Slot(osId, key, key, true), b), alive + {osId})
  {
    FirstFreeIs(Table(a, b), 0);
    assert Table(a, b)[0 := Slot(osId, key, key, true)] == Table(Slot(osId, key, key, true), b);
  }

  lemma GrantSecond(a: Slot, b: Slot, alive: set<int>, osId: int, key: int)
    requires a.used && !b.used && osId !in alive
    ensures Possible(Os(Table(a, b), alive), Grant(osId, key))
    ensures Next(Os(Table(a, b), alive), Grant(osId, key)) == Os(Table(a, Slot(osId, key, key, true)), alive + {osId})
  {
    FirstFreeIs(Table(a, b), 1);
    assert Table(a, b)[1 := Slot(osId, key, key, true)] == Table(a, Slot(osId, key, key, true));
  }

  lemma EndFirst(a: Slot, b: Slot, alive: set<int>)
    ensures Next(Os(Table(a, b), alive), End(0)) == Os(Table(a.(used := false, ptr := 0), b), alive - {a.osId})
  {
    assert Freed(Table(a, b), 0) == Table(a.(used := false, ptr := 0), b);
    assert Freed(Freed(Table(a, b), 0), 0) == Freed(Table(a, b), 0);
    assert alive - {a.osId} - {a.osId} == alive - {a.osId};
  }

  lemma EndSecond(a: Slot, b: Slot, alive: set<int>)
    ensures Next(Os(Table(a, b), alive), End(1)) == Os(Table(a, b.(used := false, ptr := 0)), alive - {b.osId})
  {
    assert Freed(Table(a, b), 1) == Table(a, b.(used := false, ptr := 0));
    assert Freed(Freed(Table(a, b), 1), 1) == Freed(Table(a, b), 1);
    assert alive - {b.osId} - {b.osId} == alive - {b.osId};
  }

  const FREE := Slot(0, 0, 0, false)
  const HARMFUL := [Grant(7, 10), Grant(8, 11), End(0), End(1), Grant(8, 13)]
  const REUSED := Os(Table(Slot(8, 13, 13, true), Slot(8, 11, 0, false)), {8})

  function EmptyTable(): Os { Os(Table(FREE, FREE), {}) }
  function OneList(): Os { Os(Table(Slot(7, 10, 10, true), FREE), {7}) }
  function TwoLists(): Os { Os(Table(Slot(7, 10, 10, true), Slot(8, 11, 11, true)), {7, 8}) }
  function FirstEnded(): Os { Os(Table(Slot(7, 10, 0, false), Slot(8, 11, 11, true)), {8}) }
  function BothEnded(): Os { Os(Table(Slot(7, 10, 0, false), Slot(8, 11, 0, false)), {}) }

  lemma ListsCome()
    ensures Possible(EmptyTable(), Grant(7, 10)) && Next(EmptyTable(), Grant(7, 10)) == OneList()
    ensures Possible(OneList(), Grant(8, 11)) && Next(OneList(), Grant(8, 11)) == TwoLists()
  {
    GrantFirst(FREE, FREE, {}, 7, 10);
    GrantSecond(Slot(7, 10, 10, true), FREE, {7}, 8, 11);
  }

  lemma ListsGo()
    ensures Possible(TwoLists(), End(0)) && Next(TwoLists(), End(0)) == FirstEnded()
    ensures Possible(FirstEnded(), End(1)) && Next(FirstEnded(), End(1)) == BothEnded()
  {
    EndFirst(Slot(7, 10, 10, true), Slot(8, 11, 11, true), {7, 8});
    assert {7, 8} - {7} == {8};
    EndSecond(Slot(7, 10, 0, false), Slot(8, 11, 11, true), {8});
    assert {8} - {8} == {};
  }

  lemma OsReuses()
    ensures Possible(BothEnded(), Grant(8, 13)) && Next(BothEnded(), Grant(8, 13)) == REUSED
  {
    GrantFirst(Slot(7, 10, 0, false), Slot(8, 11, 0, false), {}, 8, 13);
  }

  lemma ReachReused()
    ensures HarmlessRun(EmptyTable(), HARMFUL) && Run(EmptyTable(), HARMFUL) == REUSED
  {
    ListsCome();
    ListsGo();
    OsReuses();
    FiveSteps(EmptyTable(), OneList(), TwoLists(), FirstEnded(), BothEnded(), REUSED, HARMFUL);
  }

  /**
   Two lists end, a new one takes slot 0 and gets from the OS the id that slot 1 still records, and a refused
   request then kills the timer of that list.
   */
  lemma RefusalKillsAnotherList()
    ensures HarmlessRun(EmptyTable(), HARMFUL) && AllRun(Run(EmptyTable(), HARMFUL))
    ensures !AllRun(Next(Run(EmptyTable(), HARMFUL), Refuse))
  {
    ReachReused();
    HarmlessRunsKeepRunning(EmptyTable(), HARMFUL);
    FirstFreeIs(REUSED.slots, 1);
    StepKeepsRunningIff(REUSED, Refuse);
    assert REUSED.slots[0].used && REUSED.slots[0].osId == REUSED.slots[1].osId;
  }

  lemma FiveSteps(o0: Os, o1: Os, o2: Os, o3: Os, o4: Os, o5: Os, events: seq<Event>)
    requires |events| == 5 && Next(o0, events[0]) == o1 && Next(o1, events[1]) == o2 && Next(o2, events[2]) == o3
    requires Next(o3, events[3]) == o4 && Next(o4, events[4]) == o5
    requires forall i | 0 <= i < 5 :: !events[i].Refuse?
    requires Possible(o0, events[0]) && Possible(o1, events[1]) && Possible(o2, events[2])
    requires Possible(o3, events[3]) && Possible(o4, events[4])
    ensures HarmlessRun(o0, events) && Run(o0, events) == o5
  {
    assert HarmlessRun(o5, events[5..]) && Run(o5, events[5..]) == o5;
    assert events[4..][1..] == events[5..] && HarmlessRun(o4, events[4..]) && Run(o4, events[4..]) == o5;
    assert events[3..][1..] == events[4..] && HarmlessRun(o3, events[3..]) && Run(o3, events[3..]) == o5;
    assert events[2..][1..] == events[3..] && HarmlessRun(o2, events[2..]) && Run(o2, events[2..]) == o5;
    assert events[1..][1..] == events[2..] && HarmlessRun(o1, events[1..]) && Run(o1, events[1..]) == o5;
    assert events[0..][1..] == events[1..] && events[0..] == events;
  }
}
