/**
 The multiplexing of timers in include/common/TimerLockerManager.cpp, as a state machine on values.

 A base list for `base` milliseconds is ticked by one OS timer and serves every locker whose period is a
 multiple of `base`. The classes in TimerStack.dfy are proved against these functions; this module proves
 what the source promises about every run of them.
 */
module TimerSpec {
  import opened Arithmetic
  import opened Common

  type pos = x: int | x > 0 witness 1

  /** What a locker runs when it fires: nothing, or the push of a work id made by RepeatWorkProc. */
  datatype Callback = NoCallback | PushWork(id: int)

  /** What the requester of a locker chooses, and where the allocator puts the object. */
  datatype Request = Request(name: string, ms: int, callback: Callback, address: int)

  /** A named timer: `count` is the time accumulated since it last fired. */
  datatype Locker = Locker(name: string, period: pos, callback: Callback, address: int, count: int)

  /** `lists` maps a base period to the lockers that share its OS timer, in order of insertion. */
  datatype State = State(resolution: pos, lists: map<int, seq<Locker>>)

  /** `osOk` tells whether the OS grants a new timer, should one be needed. */
  datatype Event =
    | Create(request: Request, osOk: bool)
    | Delete(name: string)
    | Tick(base: int)
    | SetResolution(resolution: pos)

  const INITIAL := State(10, map[])

  // ---------------------------------------------------------------- choice of the base period

  function DivisorFrom(candidate: pos, ms: int, resolution: pos): pos
    decreases ms - candidate
  {
    if candidate > ms then resolution
    else if ms % candidate == 0 then candidate
    else DivisorFrom(candidate + 1, ms, resolution)
  }

  function Divisor(resolution: pos, ms: int): pos {
    DivisorFrom(resolution, ms, resolution)
  }

  /** The period is raised to the resolution first (TimerLockerManager.cpp:256-257). */
  function Clamp(resolution: pos, ms: int): pos {
    if ms < resolution then resolution else ms
  }

  ghost predicate LeastDivisor(d: int, low: int, ms: int) {
    && 0 < low <= d <= ms && ms % d == 0
    && forall e | low <= e <= ms && ms % e == 0 :: d <= e
  }

  lemma {:induction false} DivisorFromIsLeast(candidate: pos, ms: int, resolution: pos)
    requires candidate <= ms
    ensures LeastDivisor(DivisorFrom(candidate, ms, resolution), candidate, ms)
    decreases ms - candidate
  {
    if ms % candidate != 0 {
      assert ms % ms == 0;
      DivisorFromIsLeast(candidate + 1, ms, resolution);
    }
  }

  /** The base chosen for a request: the least divisor not below the resolution, and a fixed point. */
  lemma DivisorProperties(resolution: pos, ms: int)
    ensures var p, d := Clamp(resolution, ms), Divisor(resolution, Clamp(resolution, ms));
            && LeastDivisor(d, resolution, p)
            && Divisor(resolution, d) == d
  {
    var p := Clamp(resolution, ms);
    DivisorFromIsLeast(resolution, p, resolution);
    var d := Divisor(resolution, p);
    DivisorFromIsLeast(resolution, d, resolution);
    DividesTrans(Divisor(resolution, d), d, p);
  }

  // ---------------------------------------------------------------- operations

  predicate Fires(l: Locker, base: int) {
    l.count + base >= l.period
  }

  function TickOne(l: Locker, base: int): Locker {
    l.(count := if Fires(l, base) then 0 else l.count + base)
  }

  function TickList(ls: seq<Locker>, base: int): seq<Locker> {
    seq(|ls|, i requires 0 <= i < |ls| => TickOne(ls[i], base))
  }

  /** The lockers that wake up and run their callback, in list order. */
  function Fired(ls: seq<Locker>, base: int): seq<Locker> {
    if ls == [] then []
    else (if Fires(ls[0], base) then [TickOne(ls[0], base)] else []) + Fired(ls[1..], base)
  }

  predicate HasName(ls: seq<Locker>, name: string) {
    exists i :: 0 <= i < |ls| && ls[i].name == name
  }

  /** `ls` without its first locker called `name`. */
  function Without(ls: seq<Locker>, name: string): seq<Locker> {
    if ls == [] then []
    else if ls[0].name == name then ls[1..]
    else [ls[0]] + Without(ls[1..], name)
  }

  /** A base list that becomes empty disappears with its OS timer. */
  function Remove(lists: map<int, seq<Locker>>, name: string): map<int, seq<Locker>> {
    map k | k in lists && Without(lists[k], name) != [] :: Without(lists[k], name)
  }

  function Add(lists: map<int, seq<Locker>>, base: int, l: Locker): map<int, seq<Locker>> {
    lists[base := (if base in lists then lists[base] else []) + [l]]
  }

  /** Replaces any locker of that name; nothing is added when a new OS timer is needed and refused. */
  function CreateIn(st: State, r: Request, osOk: bool): State {
    var lists := Remove(st.lists, r.name);
    var base := BaseOf(st, r);
    st.(lists := if base in lists || osOk then Add(lists, base, NewLocker(st, r)) else lists)
  }

  /** The locker that a request yields. */
  function Granted(st: State, r: Request, osOk: bool): Option<Locker> {
    if BaseOf(st, r) in Remove(st.lists, r.name) || osOk then Some(NewLocker(st, r)) else None
  }

  function BaseOf(st: State, r: Request): pos {
    Divisor(st.resolution, Clamp(st.resolution, r.ms))
  }

  function NewLocker(st: State, r: Request): Locker {
    Locker(r.name, Clamp(st.resolution, r.ms), r.callback, r.address, 0)
  }

  function TickIn(st: State, base: int): State {
    if base in st.lists then st.(lists := st.lists[base := TickList(st.lists[base], base)]) else st
  }

  function FiredIn(st: State, base: int): seq<Locker> {
    if base in st.lists then Fired(st.lists[base], base) else []
  }

  function Step(st: State, e: Event): State {
    match e
    case Create(r, osOk) => CreateIn(st, r, osOk)
    case Delete(name) => st.(lists := Remove(st.lists, name))
    case Tick(base) => TickIn(st, base)
    case SetResolution(ms) => st.(resolution := ms)
  }

  function Run(trace: seq<Event>): State {
    if trace == [] then INITIAL else Step(Run(trace[..|trace| - 1]), trace[|trace| - 1])
  }

  // ---------------------------------------------------------------- the manager's invariant

  ghost predicate LockerInv(l: Locker, base: int) {
    && base > 0
    && l.period % base == 0
    && l.count % base == 0
    && 0 <= l.count < l.period
  }

  ghost predicate UniqueNames(ls: seq<Locker>) {
    forall i, j | 0 <= i < j < |ls| :: ls[i].name != ls[j].name
  }

  ghost predicate Inv(lists: map<int, seq<Locker>>) {
    && (forall k | k in lists :: lists[k] != [] && UniqueNames(lists[k]))
    && (forall k, l | k in lists && l in lists[k] :: LockerInv(l, k))
    && (forall k1, k2, name | k1 in lists && k2 in lists && k1 != k2 && HasName(lists[k1], name) ::
      !HasName(lists[k2], name))
  }

  lemma WithoutProperties(ls: seq<Locker>, name: string)
    requires UniqueNames(ls)
    ensures UniqueNames(Without(ls, name))
    ensures forall l :: l in Without(ls, name) <==> l in ls && l.name != name
    ensures forall n :: HasName(Without(ls, name), n) <==> HasName(ls, n) && n != name
    ensures !HasName(ls, name) ==> Without(ls, name) == ls
    ensures HasName(ls, name) ==> |Without(ls, name)| == |ls| - 1
  {
    WithoutMembers(ls, name);
    WithoutUnique(ls, name);
    WithoutLength(ls, name);
    Names(ls);
    Names(Without(ls, name));
  }

  lemma {:induction false} WithoutMembers(ls: seq<Locker>, name: string)
    requires UniqueNames(ls)
    ensures forall l :: l in Without(ls, name) <==> l in ls && l.name != name
  {
    if ls != [] {
      var rest := ls[1..];
      assert forall i :: 0 <= i < |rest| ==> rest[i] == ls[i + 1];
      assert ls == [ls[0]] + rest;
      WithoutMembers(rest, name);
    }
  }

  lemma {:induction false} WithoutUnique(ls: seq<Locker>, name: string)
    requires UniqueNames(ls)
    ensures UniqueNames(Without(ls, name))
  {
    if ls != [] {
      var rest := ls[1..];
      assert forall i :: 0 <= i < |rest| ==> rest[i] == ls[i + 1];
      WithoutUnique(rest, name);
      WithoutMembers(rest, name);
      FrontUnique(ls[0], Without(rest, name));
    }
  }

  lemma FrontUnique(l: Locker, ls: seq<Locker>)
    requires UniqueNames(ls)
    ensures (forall x | x in ls :: x.name != l.name) ==> UniqueNames([l] + ls)
  {
  }

  lemma {:induction false} WithoutLength(ls: seq<Locker>, name: string)
    ensures !HasName(ls, name) ==> Without(ls, name) == ls
    ensures HasName(ls, name) ==> |Without(ls, name)| == |ls| - 1
  {
    if ls != [] {
      var rest := ls[1..];
      assert forall i :: 0 <= i < |rest| ==> rest[i] == ls[i + 1];
      assert ls == [ls[0]] + rest;
      WithoutLength(rest, name);
    }
  }

  lemma Names(ls: seq<Locker>)
    ensures forall n :: HasName(ls, n) <==> exists l :: l in ls && l.name == n
  {
    forall n | HasName(ls, n)
      ensures exists l :: l in ls && l.name == n
    {
      var i :| 0 <= i < |ls| && ls[i].name == n;
      assert ls[i] in ls;
    }
  }

  lemma RemoveKeepsInv(lists: map<int, seq<Locker>>, name: string)
    requires Inv(lists)
    ensures Inv(Remove(lists, name))
    ensures forall k | k in Remove(lists, name) :: !HasName(Remove(lists, name)[k], name)
    ensures forall k, l | k in lists && l in lists[k] && l.name != name ::
      k in Remove(lists, name) && l in Remove(lists, name)[k]
  {
    forall k | k in lists
      ensures UniqueNames(Without(lists[k], name))
      ensures forall l :: l in Without(lists[k], name) <==> l in lists[k] && l.name != name
      ensures forall n :: HasName(Without(lists[k], name), n) <==> HasName(lists[k], n) && n != name
    {
      WithoutProperties(lists[k], name);
    }
  }

  lemma AddKeepsInv(lists: map<int, seq<Locker>>, base: int, l: Locker)
    requires Inv(lists) && LockerInv(l, base)
    requires forall k | k in lists :: !HasName(lists[k], l.name)
    ensures Inv(Add(lists, base, l))
  {
    var lists' := Add(lists, base, l);
    var old_ := if base in lists then lists[base] else [];
    forall n
      ensures HasName(lists'[base], n) <==> HasName(old_, n) || n == l.name
    {
      Names(old_);
      Names(lists'[base]);
    }
  }

  lemma TickKeepsInv(lists: map<int, seq<Locker>>, base: int)
    requires Inv(lists) && base in lists
    ensures Inv(lists[base := TickList(lists[base], base)])
  {
    var ls := lists[base];
    var ls' := TickList(ls, base);
    forall l' | l' in ls'
      ensures LockerInv(l', base)
    {
      var i :| 0 <= i < |ls'| && ls'[i] == l';
      assert ls[i] in ls;
      NextCount(ls[i], base);
    }
    assert forall n :: HasName(ls', n) <==> HasName(ls, n) by {
      assert forall i :: 0 <= i < |ls| ==> ls'[i].name == ls[i].name;
    }
  }

  /** A locker fires exactly when its accumulated time reaches the period, never later. */
  lemma NextCount(l: Locker, base: int)
    requires LockerInv(l, base)
    ensures Fires(l, base) <==> l.count + base == l.period
    ensures LockerInv(TickOne(l, base), base)
  {
    MultiplesApart(l.count, l.period, base);
    if l.count + base < l.period {
      MultiplesApart(l.count + base, l.period, base);
    }
  }

  /**
   Manager invariant: in every run names are unique across lists, no stored list is empty, each base divides
   every member's period, and each counter is a multiple of the base below the period.
   */
  lemma {:induction false} InvHoldsOnRuns(trace: seq<Event>)
    ensures Inv(Run(trace).lists)
  {
    if trace != [] {
      var st := Run(trace[..|trace| - 1]);
      InvHoldsOnRuns(trace[..|trace| - 1]);
      match trace[|trace| - 1]
      case Create(r, osOk) => CreateKeepsInv(st, r, osOk);
      case Delete(name) => RemoveKeepsInv(st.lists, name);
      case Tick(base) => if base in st.lists { TickKeepsInv(st.lists, base); }
      case SetResolution(_) =>
    }
  }

  lemma CreateKeepsInv(st: State, r: Request, osOk: bool)
    requires Inv(st.lists)
    ensures Inv(CreateIn(st, r, osOk).lists)
  {
    RemoveKeepsInv(st.lists, r.name);
    DivisorProperties(st.resolution, r.ms);
    var lists := Remove(st.lists, r.name);
    if BaseOf(st, r) in lists || osOk {
      AddKeepsInv(lists, BaseOf(st, r), NewLocker(st, r));
    }
  }

  // ---------------------------------------------------------------- multiplexed timers refine independent ones

  /** How many of the lockers are called `name`. */
  function Count(ls: seq<Locker>, name: string): nat {
    if ls == [] then 0 else (if ls[0].name == name then 1 else 0) + Count(ls[1..], name)
  }

  /** Ticks of `base` since `name` was last requested. */
  function TicksSince(trace: seq<Event>, name: string, base: int): nat {
    if trace == [] then 0
    else
      var before := TicksSince(trace[..|trace| - 1], name, base);
      match trace[|trace| - 1]
      case Create(r, _) => if r.name == name then 0 else before
      case Tick(b) => if b == base then before + 1 else before
      case _ => before
  }

  /** How often `name` has fired, on any list, since it was last requested. */
  function FiringsSince(trace: seq<Event>, name: string): nat {
    if trace == [] then 0
    else
      var prefix := trace[..|trace| - 1];
      match trace[|trace| - 1]
      case Create(r, _) => if r.name == name then 0 else FiringsSince(prefix, name)
      case Tick(b) => FiringsSince(prefix, name) + Count(FiredIn(Run(prefix), b), name)
      case _ => FiringsSince(prefix, name)
  }

  lemma {:induction false} FiredCount(ls: seq<Locker>, base: int, name: string)
    requires UniqueNames(ls)
    ensures !HasName(ls, name) ==> Count(Fired(ls, base), name) == 0
    ensures forall l | l in ls && l.name == name :: Count(Fired(ls, base), name) == if Fires(l, base) then 1 else 0
  {
    if ls != [] {
      var rest := ls[1..];
      assert forall i :: 0 <= i < |rest| ==> rest[i] == ls[i + 1];
      FiredCount(rest, base, name);
      Names(ls);
      Names(rest);
      assert ls == [ls[0]] + rest;
      var t := TickOne(ls[0], base);
      assert ([t] + Fired(rest, base))[1..] == Fired(rest, base);
      assert [] + Fired(rest, base) == Fired(rest, base);
    }
  }

  lemma NextMultiple(n: nat, base: int, period: int, count: int)
    requires base > 0 && 0 <= count < period && count == (n * base) % period && count + base <= period
    ensures ((n + 1) * base) % period == (if count + base == period then 0 else count + base)
    ensures ((n + 1) * base) / period == (n * base) / period + (if count + base == period then 1 else 0)
  {
    var q := (n * base) / period;
    assert n * base == q * period + count;
    MulStep(n, base);
    if count + base == period {
      MulStep(q, period);
      DivModUnique((n + 1) * base, period, q + 1, 0);
    } else {
      DivModUnique((n + 1) * base, period, q, count + base);
    }
  }

  /** `l`, seen after `ticks` ticks of its base, has fired `firings` times like a timer of its own. */
  ghost predicate Independent(l: Locker, base: int, ticks: nat, firings: nat) {
    firings == (ticks * base) / l.period && l.count == (ticks * base) % l.period
  }

  lemma TickStaysIndependent(l: Locker, base: int, ticks: nat, firings: nat)
    requires LockerInv(l, base) && Independent(l, base, ticks, firings)
    ensures Independent(TickOne(l, base), base, ticks + 1, firings + if Fires(l, base) then 1 else 0)
  {
    NextCount(l, base);
    NextMultiple(ticks, base, l.period, l.count);
  }

  /** The locker that a tick of `base` turned into `l`. */
  lemma BeforeTick(ls: seq<Locker>, base: int, l: Locker) returns (before: Locker)
    requires UniqueNames(ls) && l in TickList(ls, base)
    ensures before in ls && TickOne(before, base) == l
    ensures Count(Fired(ls, base), l.name) == if Fires(before, base) then 1 else 0
  {
    var i :| 0 <= i < |ls| && TickList(ls, base)[i] == l;
    before := ls[i];
    FiredCount(ls, base, l.name);
  }

  lemma TickCounts(trace: seq<Event>, base: int, before: Locker, l: Locker)
    requires trace != [] && trace[|trace| - 1] == Tick(base) && LockerInv(before, base) && TickOne(before, base) == l
    requires Count(FiredIn(Run(trace[..|trace| - 1]), base), l.name) == if Fires(before, base) then 1 else 0
    requires Independent(before, base, TicksSince(trace[..|trace| - 1], l.name, base),
      FiringsSince(trace[..|trace| - 1], l.name))
    ensures Independent(l, base, TicksSince(trace, l.name, base), FiringsSince(trace, l.name))
  {
    var prefix := trace[..|trace| - 1];
    TickStaysIndependent(before, base, TicksSince(prefix, l.name, base), FiringsSince(prefix, l.name));
  }

  lemma NewIsIndependent(st: State, r: Request, base: int, l: Locker, trace: seq<Event>)
    requires trace != [] && trace[|trace| - 1].Create? && trace[|trace| - 1].request == r
    requires l == NewLocker(st, r) && l.name == r.name
    ensures Independent(l, base, TicksSince(trace, l.name, base), FiringsSince(trace, l.name))
  {
    assert TicksSince(trace, l.name, base) == FiringsSince(trace, l.name) == 0;
  }

  lemma OtherTickCounts(trace: seq<Event>, b: int, base: int, l: Locker)
    requires trace != [] && trace[|trace| - 1] == Tick(b) && b != base
    requires Inv(Run(trace[..|trace| - 1]).lists) && base in Run(trace[..|trace| - 1]).lists
    requires l in Run(trace[..|trace| - 1]).lists[base]
    ensures TicksSince(trace, l.name, base) == TicksSince(trace[..|trace| - 1], l.name, base)
    ensures FiringsSince(trace, l.name) == FiringsSince(trace[..|trace| - 1], l.name)
  {
    OtherListSilent(Run(trace[..|trace| - 1]).lists, b, base, l);
  }

  /**
   Whatever creations, deletions and ticks of other bases are interleaved, a locker of period P in the list
   of base d behaves like a timer of its own: after n ticks of d since it was requested it has fired exactly
   floor(n * d / P) times, and its counter is the remainder.
   */
  lemma {:induction false} MultiplexingRefinesIndependentTimers(trace: seq<Event>, base: int, l: Locker)
    requires base in Run(trace).lists && l in Run(trace).lists[base]
    ensures Independent(l, base, TicksSince(trace, l.name, base), FiringsSince(trace, l.name))
  {
    var prefix := trace[..|trace| - 1];
    var st := Run(prefix);
    InvHoldsOnRuns(prefix);
    match trace[|trace| - 1]
    case SetResolution(_) =>
      MultiplexingRefinesIndependentTimers(prefix, base, l);
    case Delete(name) =>
      WithoutProperties(st.lists[base], name);
      MultiplexingRefinesIndependentTimers(prefix, base, l);
    case Create(r, osOk) =>
      CreatedOrKept(st, r, osOk, base, l);
      if l.name != r.name {
        MultiplexingRefinesIndependentTimers(prefix, base, l);
      } else {
        NewIsIndependent(st, r, base, l, trace);
      }
    case Tick(b) =>
      if b == base {
        var before := BeforeTick(st.lists[base], base, l);
        MultiplexingRefinesIndependentTimers(prefix, base, before);
        TickCounts(trace, base, before, l);
      } else {
        MultiplexingRefinesIndependentTimers(prefix, base, l);
        OtherTickCounts(trace, b, base, l);
      }
  }

  lemma OtherListSilent(lists: map<int, seq<Locker>>, b: int, base: int, l: Locker)
    requires Inv(lists) && base in lists && l in lists[base] && b != base
    ensures b in lists ==> Count(Fired(lists[b], b), l.name) == 0
  {
    Names(lists[base]);
    if b in lists {
      FiredCount(lists[b], b, l.name);
    }
  }

  lemma CreatedOrKept(st: State, r: Request, osOk: bool, base: int, l: Locker)
    requires Inv(st.lists)
    requires var lists := CreateIn(st, r, osOk).lists; base in lists && l in lists[base]
    ensures l.name == r.name ==> l == NewLocker(st, r)
    ensures l.name != r.name ==> base in st.lists && l in st.lists[base]
  {
    RemoveKeepsInv(st.lists, r.name);
    var lists := Remove(st.lists, r.name);
    if base in lists && l in lists[base] {
      WithoutProperties(st.lists[base], r.name);
      Names(lists[base]);
    }
  }

  /** A tick of its base makes a live locker fire exactly at the multiples of its period. */
  lemma FiresExactlyAtMultiples(trace: seq<Event>, base: int, l: Locker)
    requires base in Run(trace).lists && l in Run(trace).lists[base]
    ensures Count(FiredIn(Run(trace), base), l.name) == 1
      <==> ((TicksSince(trace, l.name, base) + 1) * base) % l.period == 0
  {
    InvHoldsOnRuns(trace);
    MultiplexingRefinesIndependentTimers(trace, base, l);
    NextCount(l, base);
    FiredCount(Run(trace).lists[base], base, l.name);
    NextMultiple(TicksSince(trace, l.name, base), base, l.period, l.count);
  }

  /**
   No drift: let the OS tick `base` at the instants phase + j * base, and let a locker be requested at
   instant `added`, between ticks j and j + 1. Its k-th firing falls in (added + k*P - base, added + k*P].
   */
  lemma FiringsDoNotDrift(trace: seq<Event>, base: int, l: Locker, added: real, phase: real, j: int)
    requires base in Run(trace).lists && l in Run(trace).lists[base]
    requires phase + (j * base) as real <= added < phase + ((j + 1) * base) as real
    requires Count(FiredIn(Run(trace), base), l.name) == 1
    ensures var k := FiringsSince(trace + [Tick(base)], l.name);
            var now := phase + ((j + TicksSince(trace, l.name, base) + 1) * base) as real;
            added + (k * l.period) as real - base as real < now <= added + (k * l.period) as real
  {
    var n := TicksSince(trace, l.name, base);
    var k := FiringsSince(trace + [Tick(base)], l.name);
    FiringFallsOnMultiple(trace, base, l);
    assert (j + n + 1) * base == j * base + (n + 1) * base;
    MulStep(j, base);
  }

  lemma FiringFallsOnMultiple(trace: seq<Event>, base: int, l: Locker)
    requires base in Run(trace).lists && l in Run(trace).lists[base]
    requires Count(FiredIn(Run(trace), base), l.name) == 1
    ensures FiringsSince(trace + [Tick(base)], l.name) * l.period == (TicksSince(trace, l.name, base) + 1) * base
  {
    InvHoldsOnRuns(trace);
    FiresExactlyAtMultiples(trace, base, l);
    var n, firings := TicksSince(trace, l.name, base), FiringsSince(trace, l.name);
    MultiplexingRefinesIndependentTimers(trace, base, l);
    TickStaysIndependent(l, base, n, firings);
    FiredCount(Run(trace).lists[base], base, l.name);
    assert (trace + [Tick(base)])[..|trace|] == trace;
    assert FiringsSince(trace + [Tick(base)], l.name) == firings + 1;
    ExactDivision((n + 1) * base, l.period);
  }
}
