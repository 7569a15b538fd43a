/**
 What a request to the timer manager is worth over a whole run: which lockers live, with which period, in which
 list and in which order. Everything is read off the events of the run.
 */
module TimerRequests {
  import opened Common
  import opened TimerSpec

  // ---------------------------------------------------------------- reading the events

  /** What the last SetTimerMinResolution said; 10 ms before the first. */
  function ResolutionAfter(trace: seq<Event>): int {
    if trace == [] then 10
    else
      match trace[|trace| - 1]
      case SetResolution(ms) => ms
      case _ => ResolutionAfter(trace[..|trace| - 1])
  }

  predicate Concerns(e: Event, name: string) {
    match e case Create(r, _) => r.name == name case Delete(n) => n == name case _ => false
  }

  /** Index of the last creation or deletion of `name`, or -1. */
  function LastIndex(trace: seq<Event>, name: string): (i: int)
    ensures -1 <= i < |trace| && (i >= 0 ==> Concerns(trace[i], name))
  {
    if trace == [] then -1
    else if Concerns(trace[|trace| - 1], name) then |trace| - 1
    else LastIndex(trace[..|trace| - 1], name)
  }

  /** The period that the i-th event asks for, given the resolution at that moment. */
  function PeriodAsked(trace: seq<Event>, i: nat): int
    requires i < |trace| && trace[i].Create?
  {
    Larger(trace[i].request.ms, ResolutionAfter(trace[..i]))
  }

  ghost predicate LivesIn(trace: seq<Event>, base: int, name: string) {
    base in Run(trace).lists && HasName(Run(trace).lists[base], name)
  }

  ghost predicate Lives(trace: seq<Event>, name: string) {
    exists base :: LivesIn(trace, base, name)
  }

  /** The OS grants a timer, or the list for the period has another member already. */
  ghost predicate CanBeServed(trace: seq<Event>, i: nat)
    requires i < |trace| && trace[i].Create?
  {
    trace[i].osOk || exists d, other :: Serves(trace, i, d, other)
  }

  ghost predicate Serves(trace: seq<Event>, i: nat, d: int, other: string)
    requires i < |trace| && trace[i].Create?
  {
    && LeastDivisor(d, ResolutionAfter(trace[..i]), PeriodAsked(trace, i))
    && other != trace[i].request.name && LivesIn(trace[..i], d, other)
  }

  // ---------------------------------------------------------------- period, callback and list of a live locker

  lemma {:induction false} ResolutionIs(trace: seq<Event>)
    ensures Run(trace).resolution == ResolutionAfter(trace)
  {
    if trace != [] {
      ResolutionIs(trace[..|trace| - 1]);
    }
  }

  /** The locker is the one that the i-th event asked for. */
  ghost predicate AsAsked(trace: seq<Event>, i: int, base: int, l: Locker) {
    && 0 <= i < |trace| && trace[i].Create? && trace[i].request.name == l.name
    && l.period == PeriodAsked(trace, i)
    && l.callback == trace[i].request.callback && l.address == trace[i].request.address
    && LeastDivisor(base, ResolutionAfter(trace[..i]), PeriodAsked(trace, i))
  }

  lemma StillAsAsked(trace: seq<Event>, i: int, base: int, before: Locker, l: Locker)
    requires trace != [] && AsAsked(trace[..|trace| - 1], i, base, before) && l == before.(count := l.count)
    ensures AsAsked(trace, i, base, l)
  {
    assert trace[..|trace| - 1][..i] == trace[..i];
  }

  lemma NewAsAsked(trace: seq<Event>, base: int, l: Locker)
    requires trace != [] && trace[|trace| - 1].Create? && l.name == trace[|trace| - 1].request.name
    requires base in Run(trace).lists && l in Run(trace).lists[base]
    ensures AsAsked(trace, |trace| - 1, base, l)
  {
    var prefix := trace[..|trace| - 1];
    var st, r, osOk := Run(prefix), trace[|trace| - 1].request, trace[|trace| - 1].osOk;
    InvHoldsOnRuns(prefix);
    ResolutionIs(prefix);
    CreatedAtBase(st, r, osOk, base, l);
    DivisorProperties(st.resolution, r.ms);
  }

  lemma CreatedAtBase(st: State, r: Request, osOk: bool, base: int, l: Locker)
    requires Inv(st.lists) && l.name == r.name
    requires var lists := CreateIn(st, r, osOk).lists; base in lists && l in lists[base]
    ensures base == BaseOf(st, r) && l == NewLocker(st, r)
  {
    CreatedOrKept(st, r, osOk, base, l);
    RemoveKeepsInv(st.lists, r.name);
    var lists := Remove(st.lists, r.name);
    if base != BaseOf(st, r) {
      Names(lists[base]);
    }
  }

  /**
   In every run a live locker has the larger of the milliseconds that its name was last requested for and the
   resolution at that request, it carries the callback of that request, and it stands in the list of the least
   divisor of its period that is not below that resolution.
   */
  lemma {:induction false} LiveAsLastAsked(trace: seq<Event>, base: int, l: Locker)
    requires base in Run(trace).lists && l in Run(trace).lists[base]
    ensures AsAsked(trace, LastIndex(trace, l.name), base, l)
  {
    var prefix, e := trace[..|trace| - 1], trace[|trace| - 1];
    var st := Run(prefix);
    InvHoldsOnRuns(prefix);
    if e.Create? && e.request.name == l.name {
      NewAsAsked(trace, base, l);
    } else {
      var before := l;
      match e {
        case Create(r, osOk) => CreatedOrKept(st, r, osOk, base, l);
        case Delete(name) => WithoutProperties(st.lists[base], name);
        case Tick(b) => if b == base { before := BeforeTick(st.lists[base], base, l); }
        case SetResolution(_) =>
      }
      LiveAsLastAsked(prefix, base, before);
      StillAsAsked(trace, LastIndex(prefix, l.name), base, before, l);
    }
  }

  /** The law of MultiplexingRefinesIndependentTimers in terms of the request. */
  lemma FiresAsAsked(trace: seq<Event>, base: int, l: Locker)
    requires base in Run(trace).lists && l in Run(trace).lists[base]
    ensures var i := LastIndex(trace, l.name);
            && i >= 0 && trace[i].Create? && PeriodAsked(trace, i) > 0
            && FiringsSince(trace, l.name) == (TicksSince(trace, l.name, base) * base) / PeriodAsked(trace, i)
            && l.count == (TicksSince(trace, l.name, base) * base) % PeriodAsked(trace, i)
  {
    LiveAsLastAsked(trace, base, l);
    MultiplexingRefinesIndependentTimers(trace, base, l);
  }

  // ---------------------------------------------------------------- which lockers live

  lemma RemoveNames(lists: map<int, seq<Locker>>, name: string, base: int, other: string)
    requires Inv(lists)
    ensures base in Remove(lists, name) && HasName(Remove(lists, name)[base], other)
       <==> base in lists && HasName(lists[base], other) && other != name
  {
    if base in lists {
      WithoutProperties(lists[base], name);
    }
  }

  lemma AddNames(lists: map<int, seq<Locker>>, d: int, l: Locker, base: int, other: string)
    ensures base in Add(lists, d, l) && HasName(Add(lists, d, l)[base], other)
       <==> (base in lists && HasName(lists[base], other)) || (base == d && other == l.name)
  {
    var before := if d in lists then lists[d] else [];
    Names(before);
    Names(before + [l]);
  }

  lemma TickNames(lists: map<int, seq<Locker>>, d: int, base: int, other: string)
    requires d in lists && base in lists
    ensures HasName(lists[d := TickList(lists[d], d)][base], other) <==> HasName(lists[base], other)
  {
    var ls := lists[d];
    assert forall i :: 0 <= i < |ls| ==> TickList(ls, d)[i].name == ls[i].name;
  }

  /** What one more event does to the members of one list. */
  lemma LivesStep(trace: seq<Event>, base: int, name: string)
    requires trace != []
    ensures var prefix, e := trace[..|trace| - 1], trace[|trace| - 1];
            !Concerns(e, name) ==> (LivesIn(trace, base, name) <==> LivesIn(prefix, base, name))
    ensures trace[|trace| - 1] == Delete(name) ==> !LivesIn(trace, base, name)
    ensures trace[|trace| - 1].Create? && trace[|trace| - 1].request.name == name ==>
              var st, r := Run(trace[..|trace| - 1]), trace[|trace| - 1].request;
              (LivesIn(trace, base, name) <==>
                 base == BaseOf(st, r) && (trace[|trace| - 1].osOk || base in Remove(st.lists, name)))
  {
    var prefix, e := trace[..|trace| - 1], trace[|trace| - 1];
    var st := Run(prefix);
    InvHoldsOnRuns(prefix);
    match e
    case Create(r, osOk) =>
      RemoveNames(st.lists, r.name, base, name);
      AddNames(Remove(st.lists, r.name), BaseOf(st, r), NewLocker(st, r), base, name);
    case Delete(n) => RemoveNames(st.lists, n, base, name);
    case Tick(b) => if b in st.lists && base in st.lists { TickNames(st.lists, b, base, name); }
    case SetResolution(_) =>
  }

  lemma LeastDivisorUnique(d: int, e: int, low: int, ms: int)
    requires LeastDivisor(d, low, ms) && LeastDivisor(e, low, ms)
    ensures d == e
  {
  }

  /** A list outlives the removal of a name exactly when it has a member of another name. */
  lemma OtherMember(lists: map<int, seq<Locker>>, name: string, base: int)
    requires Inv(lists)
    ensures base in Remove(lists, name)
       <==> base in lists && exists other :: other != name && HasName(lists[base], other)
  {
    RemoveKeepsInv(lists, name);
    if base in Remove(lists, name) {
      var l := Remove(lists, name)[base][0];
      assert HasName(Remove(lists, name)[base], l.name);
      RemoveNames(lists, name, base, l.name);
    } else if base in lists {
      forall other | other != name
        ensures !HasName(lists[base], other)
      {
        RemoveNames(lists, name, base, other);
      }
    }
  }

  lemma ServedAtOnce(trace: seq<Event>)
    requires trace != [] && trace[|trace| - 1].Create?
    ensures var name := trace[|trace| - 1].request.name;
            Lives(trace, name) <==> CanBeServed(trace, |trace| - 1)
  {
    var n, prefix := |trace| - 1, trace[..|trace| - 1];
    var st, r := Run(prefix), trace[n].request;
    var d := BaseOf(st, r);
    InvHoldsOnRuns(prefix);
    ResolutionIs(prefix);
    DivisorProperties(st.resolution, r.ms);
    OtherMember(st.lists, r.name, d);
    LivesStep(trace, d, r.name);
    forall base | LivesIn(trace, base, r.name)
      ensures base == d
    {
      LivesStep(trace, base, r.name);
    }
    if d in Remove(st.lists, r.name) {
      var other :| other != r.name && HasName(st.lists[d], other);
      assert Serves(trace, n, d, other);
    }
    forall e, other | Serves(trace, n, e, other)
      ensures e == d
    {
      LeastDivisorUnique(e, d, ResolutionAfter(prefix), PeriodAsked(trace, n));
    }
  }

  lemma ServedBefore(trace: seq<Event>, i: nat)
    requires i + 1 < |trace| && trace[i].Create?
    ensures CanBeServed(trace, i) <==> CanBeServed(trace[..|trace| - 1], i)
  {
    var prefix := trace[..|trace| - 1];
    assert prefix[..i] == trace[..i];
    assert forall d, other :: Serves(trace, i, d, other) <==> Serves(prefix, i, d, other);
  }

  /** In every run a name lives if and only if it was created last and that request could be served. */
  lemma {:induction false} LivesIff(trace: seq<Event>, name: string)
    ensures var i := LastIndex(trace, name);
            Lives(trace, name) <==> i >= 0 && trace[i].Create? && CanBeServed(trace, i)
  {
    if trace != [] {
      var prefix, e := trace[..|trace| - 1], trace[|trace| - 1];
      if Concerns(e, name) {
        if e.Create? {
          ServedAtOnce(trace);
        } else {
          forall base
            ensures !LivesIn(trace, base, name)
          {
            LivesStep(trace, base, name);
          }
        }
      } else {
        forall base
          ensures LivesIn(trace, base, name) <==> LivesIn(prefix, base, name)
        {
          LivesStep(trace, base, name);
        }
        LivesIff(prefix, name);
        var i := LastIndex(prefix, name);
        if i >= 0 && trace[i].Create? {
          ServedBefore(trace, i);
        }
      }
    }
  }

  // ---------------------------------------------------------------- order

  /** Those requested earlier come first. */
  ghost predicate InOrder(trace: seq<Event>, ls: seq<Locker>) {
    forall i, j | 0 <= i < j < |ls| :: LastIndex(trace, ls[i].name) < LastIndex(trace, ls[j].name)
  }

  ghost predicate Before(trace: seq<Event>, l: Locker, ls: seq<Locker>) {
    forall x | x in ls :: LastIndex(trace, l.name) < LastIndex(trace, x.name)
  }

  lemma RestInOrder(trace: seq<Event>, ls: seq<Locker>)
    requires ls != [] && InOrder(trace, ls) && UniqueNames(ls)
    ensures InOrder(trace, ls[1..]) && UniqueNames(ls[1..]) && Before(trace, ls[0], ls[1..])
  {
    forall x | x in ls[1..]
      ensures LastIndex(trace, ls[0].name) < LastIndex(trace, x.name)
    {
      var i :| 0 <= i < |ls| - 1 && ls[1..][i] == x;
      assert ls[i + 1] == x;
    }
  }

  lemma ConsInOrder(trace: seq<Event>, l: Locker, ls: seq<Locker>)
    requires InOrder(trace, ls) && Before(trace, l, ls)
    ensures InOrder(trace, [l] + ls)
  {
  }

  lemma {:induction false} WithoutInOrder(trace: seq<Event>, ls: seq<Locker>, name: string)
    requires InOrder(trace, ls) && UniqueNames(ls)
    ensures InOrder(trace, Without(ls, name))
  {
    if ls != [] {
      RestInOrder(trace, ls);
      if ls[0].name != name {
        WithoutInOrder(trace, ls[1..], name);
        WithoutMembers(ls[1..], name);
        ConsInOrder(trace, ls[0], Without(ls[1..], name));
      }
    }
  }

  /** Events that do not concern any of the names do not change their order. */
  lemma OthersInOrder(trace: seq<Event>, ls: seq<Locker>, ls': seq<Locker>)
    requires trace != [] && InOrder(trace[..|trace| - 1], ls)
    requires |ls'| == |ls| && forall i | 0 <= i < |ls| :: ls'[i].name == ls[i].name
    requires forall i | 0 <= i < |ls| :: !Concerns(trace[|trace| - 1], ls[i].name)
    ensures InOrder(trace, ls')
  {
  }

  lemma RemovedInOrder(trace: seq<Event>, name: string, ls: seq<Locker>)
    requires trace != [] && Concerns(trace[|trace| - 1], name)
    requires InOrder(trace[..|trace| - 1], ls) && UniqueNames(ls)
    ensures InOrder(trace, Without(ls, name))
  {
    WithoutInOrder(trace[..|trace| - 1], ls, name);
    WithoutProperties(ls, name);
    forall i | 0 <= i < |Without(ls, name)|
      ensures !Concerns(trace[|trace| - 1], Without(ls, name)[i].name)
    {
      assert Without(ls, name)[i] in Without(ls, name);
    }
    OthersInOrder(trace, Without(ls, name), Without(ls, name));
  }

  lemma AppendedInOrder(trace: seq<Event>, ls: seq<Locker>, l: Locker)
    requires trace != [] && Concerns(trace[|trace| - 1], l.name) && InOrder(trace, ls)
    requires forall x | x in ls :: !Concerns(trace[|trace| - 1], x.name)
    ensures InOrder(trace, ls + [l])
  {
  }

  /** In every run the lockers of a list stand, and so run their callbacks, in the order of their requests. */
  lemma {:induction false} ListsInOrder(trace: seq<Event>, base: int)
    requires base in Run(trace).lists
    ensures InOrder(trace, Run(trace).lists[base])
  {
    var prefix, e := trace[..|trace| - 1], trace[|trace| - 1];
    var st := Run(prefix);
    InvHoldsOnRuns(prefix);
    if base in st.lists {
      ListsInOrder(prefix, base);
    }
    match e
    case Create(r, osOk) => CreatedInOrder(trace, base);
    case Delete(name) => RemovedInOrder(trace, name, st.lists[base]);
    case Tick(b) => OthersInOrder(trace, st.lists[base], Run(trace).lists[base]);
    case SetResolution(_) => OthersInOrder(trace, st.lists[base], st.lists[base]);
  }

  lemma CreatedInOrder(trace: seq<Event>, base: int)
    requires trace != [] && trace[|trace| - 1].Create? && base in Run(trace).lists
    requires base in Run(trace[..|trace| - 1]).lists ==>
               InOrder(trace[..|trace| - 1], Run(trace[..|trace| - 1]).lists[base])
    ensures InOrder(trace, Run(trace).lists[base])
  {
    var prefix := trace[..|trace| - 1];
    var st, r := Run(prefix), trace[|trace| - 1].request;
    InvHoldsOnRuns(prefix);
    RemoveKeepsInv(st.lists, r.name);
    var lists := Remove(st.lists, r.name);
    var before := if base in lists then lists[base] else [];
    if base in lists {
      RemovedInOrder(trace, r.name, st.lists[base]);
      Names(before);
    }
    if Run(trace).lists[base] != before {
      AppendedInOrder(trace, before, NewLocker(st, r));
    }
  }

  predicate IsDue(l: Locker, base: int) {
    l.count + base >= l.period
  }

  ghost predicate FiresAt(ls: seq<Locker>, base: int, fired: Locker, i: nat) {
    i < |ls| && IsDue(ls[i], base) && fired == ls[i].(count := 0)
  }

  /** `due` are the positions in `ls` of the `fired` lockers. */
  ghost predicate Positions(ls: seq<Locker>, base: int, fired: seq<Locker>, due: seq<nat>) {
    && |due| == |fired|
    && (forall k | 0 <= k < |due| :: FiresAt(ls, base, fired[k], due[k]))
    && (forall j, k | 0 <= j < k < |due| :: due[j] < due[k])
  }

  ghost predicate AllDue(ls: seq<Locker>, base: int, due: seq<nat>) {
    forall i | 0 <= i < |ls| && IsDue(ls[i], base) :: i in due
  }

  function Shifted(due: seq<nat>): seq<nat> {
    seq(|due|, k requires 0 <= k < |due| => due[k] + 1)
  }

  lemma ShiftedPositions(ls: seq<Locker>, base: int, fired: seq<Locker>, due: seq<nat>)
    requires ls != [] && Positions(ls[1..], base, fired, due)
    ensures Positions(ls, base, fired, Shifted(due))
  {
    forall k | 0 <= k < |due|
      ensures FiresAt(ls, base, fired[k], Shifted(due)[k])
    {
      assert FiresAt(ls[1..], base, fired[k], due[k]);
    }
  }

  lemma ShiftedAllDue(ls: seq<Locker>, base: int, due: seq<nat>)
    requires ls != [] && AllDue(ls[1..], base, due)
    ensures forall i | 0 < i < |ls| && IsDue(ls[i], base) :: i in Shifted(due)
  {
    forall i | 0 < i < |ls| && IsDue(ls[i], base)
      ensures i in Shifted(due)
    {
      assert ls[1..][i - 1] == ls[i];
      var k :| 0 <= k < |due| && due[k] == i - 1;
      assert Shifted(due)[k] == i;
    }
  }

  /** A tick fires the due members of the list, each once, in their order. */
  lemma {:induction false} FiredAreTheDue(ls: seq<Locker>, base: int) returns (due: seq<nat>)
    ensures Positions(ls, base, Fired(ls, base), due) && AllDue(ls, base, due)
  {
    due := [];
    if ls != [] {
      var rest := FiredAreTheDue(ls[1..], base);
      ShiftedPositions(ls, base, Fired(ls[1..], base), rest);
      ShiftedAllDue(ls, base, rest);
      due := Shifted(rest);
      assert [] + Fired(ls[1..], base) == Fired(ls[1..], base);
      if IsDue(ls[0], base) {
        FirstPosition(ls, base, Fired(ls[1..], base), due);
        due := [0] + due;
      }
    }
  }

  lemma FirstPosition(ls: seq<Locker>, base: int, fired: seq<Locker>, due: seq<nat>)
    requires ls != [] && IsDue(ls[0], base) && Positions(ls, base, fired, due)
    requires forall k | 0 <= k < |due| :: due[k] > 0
    ensures Positions(ls, base, [ls[0].(count := 0)] + fired, [0] + due)
  {
  }
}
