/**
 The thread of src/decoder/Decoder.cpp under every interleaving: its running flag, the frame timer that it waits
 for at the end of each pass, and a Deactivate that lowers the flag and joins.

 All decoders ask the timer manager for a locker of the same name, so that the locker of one is deleted when
 another asks for its own; and the OS timer behind a locker can be killed by a request of somebody else, as in
 OsTimers.dfy.
 */
module DecoderThread {

  datatype Worker =
    | NotStarted
    | Starting    // lines 247-263: the flag is not stored yet
    | AtTest      // line 265
    | InLoop      // lines 267-322
    | AtWait      // line 324
    | Exited

  /** The locker of the frame timer: its OS timer runs, or was killed; or the locker was deleted by its name. */
  datatype Timer = Ticking | Silent | Gone

  /** `token`: the event of the locker. */
  datatype State = State(running: bool, worker: Worker, joining: bool, timer: Timer, token: bool)

  const INITIAL := State(false, NotStarted, false, Gone, false)

  /** Lines 312-314: a changed frame rate exchanges the locker, for one whose OS timer runs or does not. */
  datatype Exchange = Kept | Renewed(ticking: bool)

  datatype Step =
    | Activate | StoreRunning | Enter | Pass(exchange: Exchange) | Wait | Leave | LowerFlag | Join
    | Tick
    | Silence    // the OS timer is killed
    | Lose       // the locker is deleted by its name, which wakes it once more
  {
    predicate OfWorker() { StoreRunning? || Enter? || Pass? || Wait? || Leave? }

    /** Done to the frame timer by somebody else. */
    predicate Disturbs() { Silence? || Lose? }
  }

  predicate Enabled(s: State, e: Step) {
    match e
    case Activate => s.worker.NotStarted? && !s.joining
    case StoreRunning => s.worker.Starting?
    case Enter => s.worker.AtTest? && s.running
    case Pass(exchange) => s.worker.InLoop? && (exchange.Renewed? ==> !s.timer.Gone?)
    case Wait => s.worker.AtWait? && s.token
    case Leave => s.worker.AtTest? && !s.running
    case LowerFlag => !s.joining
    case Join => s.joining && (s.worker.Exited? || s.worker.NotStarted?)
    case Tick => s.timer.Ticking?
    case Silence => s.timer.Ticking?
    case Lose => !s.timer.Gone?
  }

  function Next(s: State, e: Step): State
    requires Enabled(s, e)
  {
    match e
    case Activate => s.(worker := Starting, timer := Ticking, token := false)
    case StoreRunning => s.(worker := AtTest, running := true)
    case Enter => s.(worker := InLoop)
    case Pass(exchange) =>
      if exchange.Kept? then s.(worker := AtWait)
      else s.(worker := AtWait, timer := if exchange.ticking then Ticking else Silent, token := false)
    case Wait => s.(worker := AtTest, token := false)
    case Leave => s.(worker := Exited)
    case LowerFlag => s.(running := false, joining := true)
    case Join => s.(worker := NotStarted, joining := false)
    case Tick => s.(token := true)
    case Silence => s.(timer := Silent)
    case Lose => s.(timer := Gone, token := true)
  }

  predicate Possible(s: State, trace: seq<Step>)
    decreases |trace|
  {
    trace == [] || (Enabled(s, trace[0]) && Possible(Next(s, trace[0]), trace[1..]))
  }

  function After(s: State, trace: seq<Step>): State
    requires Possible(s, trace)
    decreases |trace|
  {
    if trace == [] then s else After(Next(s, trace[0]), trace[1..])
  }

  function WorkerSteps(trace: seq<Step>): nat {
    if trace == [] then 0 else (if trace[0].OfWorker() then 1 else 0) + WorkerSteps(trace[1..])
  }

  predicate Undisturbed(trace: seq<Step>) {
    forall e | e in trace :: !e.Disturbs()
  }

  /** What the thread has still to do once the flag is down for good. */
  function StepsToExit(w: Worker): nat {
    match w case AtTest => 1 case AtWait => 2 case InLoop => 3 case Starting => 4 case _ => 0
  }

  /** With the frame timer left alone from now on. */
  ghost predicate CanReturn(s: State) {
    exists future :: Possible(s, future) && Undisturbed(future) && Enabled(After(s, future), Join)
  }

  // ---------------------------------------------------------------- the two ways to hang

  /** The flag was raised again, or will be, and nobody lowers it while Deactivate waits. */
  ghost predicate Overtaken(s: State) {
    s.joining && (s.worker.Starting? || (s.running && (s.worker.AtTest? || s.worker.InLoop? || s.worker.AtWait?)))
  }

  lemma {:induction false} OvertakenHangs(s: State, future: seq<Step>)
    requires Overtaken(s) && Possible(s, future)
    ensures Overtaken(After(s, future)) && !Enabled(After(s, future), Join)
    decreases |future|
  {
    if future != [] {
      OvertakenHangs(Next(s, future[0]), future[1..]);
    }
  }

  /** At the wait, or on the way to it, for an event that nobody will set. */
  predicate Stranded(s: State) {
    !s.token && match s.worker case AtWait => !s.timer.Ticking? case InLoop => s.timer.Gone? case _ => false
  }

  /** The wait never ends while the frame timer is left alone; with the locker gone it never ends at all. */
  lemma {:induction false} StrandedHangs(s: State, future: seq<Step>)
    requires Stranded(s) && Possible(s, future) && (Undisturbed(future) || s.timer.Gone?)
    ensures Stranded(After(s, future)) && !Enabled(After(s, future), Join)
    decreases |future|
  {
    if future != [] {
      assert future[0] in future;
      StrandedHangs(Next(s, future[0]), future[1..]);
    }
  }

  // ---------------------------------------------------------------- the way out

  ghost predicate Stopping(s: State) {
    s.joining && !s.running && !s.worker.Starting?
  }

  /** What a thread that is not stranded does next, or the tick that it waits for. */
  function OnItsWay(s: State): Step {
    match s.worker
    case AtTest => Leave
    case AtWait => if s.token then Wait else Tick
    case _ => Pass(if s.token || s.timer.Gone? then Kept else Renewed(true))
  }

  lemma {:induction false} StoppingEnds(s: State) returns (future: seq<Step>)
    requires Stopping(s) && !Stranded(s)
    ensures Possible(s, future) && Undisturbed(future) && Enabled(After(s, future), Join)
    decreases StepsToExit(s.worker), if s.token then 0 else 1
  {
    future := [];
    if StepsToExit(s.worker) > 0 {
      var rest := StoppingEnds(Next(s, OnItsWay(s)));
      future := [OnItsWay(s)] + rest;
    }
  }

  /** A thread that is stopping makes at most three more steps, whatever happens to its timer. */
  lemma {:induction false} StoppingIsBounded(s: State, future: seq<Step>)
    requires Stopping(s) && Possible(s, future) && Join !in future
    ensures WorkerSteps(future) + StepsToExit(After(s, future).worker) == StepsToExit(s.worker)
    decreases |future|
  {
    if future != [] {
      assert future[0] in future && Join !in future[1..];
      StoppingIsBounded(Next(s, future[0]), future[1..]);
    }
  }

  /**
   With the frame timer left alone from then on, Deactivate can return if and only if, when the flag was lowered, the
   thread had executed line 264, or was never started, and was not stranded; this holds for every state, so for
   every reachable one.
   */
  lemma DeactivateReturnsIff(s: State)
    requires Enabled(s, LowerFlag)
    ensures CanReturn(Next(s, LowerFlag)) <==> !s.worker.Starting? && !Stranded(s)
  {
    var next := Next(s, LowerFlag);
    if s.worker.Starting? || Stranded(s) {
      forall future | Possible(next, future) && Undisturbed(future)
        ensures !Enabled(After(next, future), Join)
      {
        if Stranded(s) {
          StrandedHangs(next, future);
        } else {
          OvertakenHangs(next, future);
        }
      }
    } else {
      var future := StoppingEnds(next);
    }
  }

  // ---------------------------------------------------------------- reachable failures

  /** `states` are passed through on the steps of `trace`. */
  ghost predicate Passes(states: seq<State>, trace: seq<Step>) {
    && |states| == |trace| + 1
    && forall i | 0 <= i < |trace| :: Enabled(states[i], trace[i]) && states[i + 1] == Next(states[i], trace[i])
  }

  lemma {:induction false} PassedThrough(states: seq<State>, trace: seq<Step>)
    requires Passes(states, trace)
    ensures Possible(states[0], trace) && After(states[0], trace) == states[|trace|]
    decreases |trace|
  {
    if trace != [] {
      PassedThrough(states[1..], trace[1..]);
    }
  }

  const STARTED := State(false, Starting, false, Ticking, false)
  const TESTING := State(true, AtTest, false, Ticking, false)
  const LOOPING := State(true, InLoop, false, Ticking, false)
  const WAITING := State(true, AtWait, false, Ticking, false)

  /** Activate, and Deactivate before the new thread runs. */
  lemma ActivateThenDeactivateHangs()
    ensures Possible(INITIAL, [Activate, LowerFlag]) && !CanReturn(After(INITIAL, [Activate, LowerFlag]))
  {
    PassedThrough([INITIAL, STARTED, Next(STARTED, LowerFlag)], [Activate, LowerFlag]);
    DeactivateReturnsIff(STARTED);
  }

  lemma {:induction false} Joined(s: State, a: seq<Step>, b: seq<Step>)
    requires Possible(s, a) && Possible(After(s, a), b)
    ensures Possible(s, a + b) && After(s, a + b) == After(After(s, a), b)
    decreases |a|
  {
    if a == [] {
      assert a + b == b;
    } else {
      assert (a + b)[1..] == a[1..] + b;
      Joined(Next(s, a[0]), a[1..], b);
    }
  }

  const TO_WAIT := [Activate, StoreRunning, Enter, Pass(Kept)]

  lemma ReachWaiting()
    ensures Possible(INITIAL, TO_WAIT) && After(INITIAL, TO_WAIT) == WAITING
  {
    PassedThrough([INITIAL, STARTED, TESTING, LOOPING, WAITING], TO_WAIT);
  }

  /** Line 264 was executed, but the OS timer is killed while the thread waits. */
  lemma KilledTimerHangs() returns (trace: seq<Step>)
    ensures trace == TO_WAIT + [Silence, LowerFlag]
    ensures Possible(INITIAL, trace) && !CanReturn(After(INITIAL, trace))
  {
    var killed := WAITING.(timer := Silent);
    trace := TO_WAIT + [Silence, LowerFlag];
    ReachWaiting();
    PassedThrough([WAITING, killed, Next(killed, LowerFlag)], [Silence, LowerFlag]);
    Joined(INITIAL, TO_WAIT, [Silence, LowerFlag]);
    DeactivateReturnsIff(killed);
  }

  const REPLACED := State(false, AtWait, true, Gone, false)
  const REPLACING := [Lose, Wait, Enter, Pass(Kept), LowerFlag]

  lemma ReachReplaced()
    ensures Possible(WAITING, REPLACING) && After(WAITING, REPLACING) == REPLACED
  {
    var woken := WAITING.(timer := Gone, token := true);
    var testing, looping, waiting := TESTING.(timer := Gone), LOOPING.(timer := Gone), WAITING.(timer := Gone);
    PassedThrough([WAITING, woken, testing, looping, waiting, REPLACED], REPLACING);
  }

  /** Line 264 was executed, but another decoder asks for the locker: one last pass, and no future returns. */
  lemma ReplacedTimerHangs() returns (trace: seq<Step>)
    ensures trace == TO_WAIT + REPLACING && Possible(INITIAL, trace)
    ensures forall future | Possible(After(INITIAL, trace), future) ::
      !Enabled(After(After(INITIAL, trace), future), Join)
  {
    trace := TO_WAIT + REPLACING;
    ReachWaiting();
    ReachReplaced();
    Joined(INITIAL, TO_WAIT, REPLACING);
    forall future | Possible(REPLACED, future)
      ensures !Enabled(After(REPLACED, future), Join)
    {
      StrandedHangs(REPLACED, future);
    }
  }
}
