/**
 The event of include/common/Locker.cpp, as atomic operations under its mutex: WakeUp fills the count, a wait
 goes through when it can take one from it. WorkQueue.dfy uses it with a maximum of one, as a token.
 */
module Lockers {
  import opened Common

  class Locker {
    var lockCount: int
    var lockMaxCount: int

    constructor ()
      ensures lockCount == 0 && lockMaxCount == 1
    {
      lockCount, lockMaxCount := 0, 1;
    }

    /** The condition of the condition variable: true lets the waiting thread go. */
    method WaitProc() returns (ret: bool)
      modifies this`lockCount
      ensures ret == Passes(old(lockCount)) && lockCount == Taken(old(lockCount))
    {
      ret := false;
      if lockCount > 0 {
        lockCount := lockCount - 1;
        ret := true;
      }
    }

    method WakeUp()
      modifies this`lockCount
      ensures lockCount == lockMaxCount
    {
      lockCount := lockMaxCount;
    }

    method SetWakeUpCount(count: int)
      modifies this`lockMaxCount
      ensures lockMaxCount == count
    {
      lockMaxCount := count;
    }
  }

  predicate Passes(count: int) {
    count > 0
  }

  function Taken(count: int): int {
    if count > 0 then count - 1 else count
  }

  // ---------------------------------------------------------------- every run at a fixed maximum

  datatype Operation = Wake | TryWait

  function CountAfter(max: int, ops: seq<Operation>): int {
    if ops == [] then 0
    else
      var before := CountAfter(max, ops[..|ops| - 1]);
      match ops[|ops| - 1] case Wake => max case TryWait => Taken(before)
  }

  /** Waits tried since the last WakeUp, or none when there was no WakeUp. */
  function TriesSinceWake(ops: seq<Operation>): Option<nat> {
    if ops == [] then None
    else
      match ops[|ops| - 1]
      case Wake => Some(0)
      case TryWait => match TriesSinceWake(ops[..|ops| - 1]) case None => None case Some(n) => Some(n + 1)
  }

  /**
   In every run the next wait goes through exactly when fewer waits than the maximum were tried since the last
   WakeUp: wakeups do not add up, and none is lost.
   */
  lemma {:induction false} PassesUpToMaximum(max: int, ops: seq<Operation>)
    requires max >= 0
    ensures Passes(CountAfter(max, ops)) <==> TriesSinceWake(ops).Some? && TriesSinceWake(ops).value < max
    ensures CountAfter(max, ops)
         == match TriesSinceWake(ops) case None => 0 case Some(n) => if n < max then max - n else 0
  {
    if ops != [] {
      PassesUpToMaximum(max, ops[..|ops| - 1]);
    }
  }

  /** With a maximum of one: exactly when there was a WakeUp and no wait since, as an auto-reset event. */
  lemma AutoResetEvent(ops: seq<Operation>)
    ensures Passes(CountAfter(1, ops)) <==> ops != [] && ops[|ops| - 1] == Wake
  {
    PassesUpToMaximum(1, ops);
  }
}
