/** SyncPoint of threading.hpp as a machine of atomic steps: each stretch between taking the mutex and waiting or
    returning is one step, and the wake-up from a wait is a step guarded by its predicate. */
module SyncPoints {

  datatype Caller = NotCalled | Waiting | Returned

  datatype Sync = Sync(expectedThreads: int, callers: seq<Caller>)

  datatype Step = Enter(i: nat) | Wake(i: nat)

  predicate Enabled(s: Sync, step: Step) {
    && step.i < |s.callers|
    && match step
       case Enter(i) => s.callers[i] == NotCalled
       case Wake(i) => s.callers[i] == Waiting && s.expectedThreads == 0
  }

  function Apply(s: Sync, step: Step): Sync
    requires Enabled(s, step)
  {
    match step
    case Enter(i) =>
      var left := s.expectedThreads - 1;
      Sync(left, s.callers[i := if left == 0 then Returned else Waiting])
    case Wake(i) => s.(callers := s.callers[i := Returned])
  }

  /** `callers` threads about to call sync() on a point that expects `expected`. */
  function Start(expected: int, callers: nat): Sync {
    Sync(expected, seq(callers, _ => NotCalled))
  }

  /** The steps can be taken one after the other. */
  predicate CanRun(s: Sync, steps: seq<Step>)
    decreases |steps|
  {
    |steps| == 0 || (Enabled(s, steps[0]) && CanRun(Apply(s, steps[0]), steps[1..]))
  }

  function After(s: Sync, steps: seq<Step>): Sync
    requires CanRun(s, steps)
    decreases |steps|
  {
    if |steps| == 0 then s else After(Apply(s, steps[0]), steps[1..])
  }

  function Count(s: Sync, c: Caller): nat {
    multiset(s.callers)[c]
  }

  function Entered(s: Sync): nat {
    Count(s, Waiting) + Count(s, Returned)
  }

  ghost predicate Inv(expected: int, n: nat, s: Sync) {
    && |s.callers| == n == Count(s, NotCalled) + Entered(s)
    && s.expectedThreads == expected - Entered(s)
    && (Count(s, Returned) > 0 ==> Entered(s) >= expected)
    && (Entered(s) > expected && Entered(s) > 0 ==> Count(s, Waiting) > 0)
  }

  lemma {:induction false} StartCounts(n: nat)
    ensures multiset(seq(n, _ => NotCalled)) == multiset{}[NotCalled := n]
  {
    if n > 0 {
      StartCounts(n - 1);
      assert seq<Caller>(n, _ => NotCalled) == seq<Caller>(n - 1, _ => NotCalled) + [NotCalled];
    }
  }

  lemma StepKeepsInv(expected: int, n: nat, s: Sync, step: Step)
    requires Inv(expected, n, s) && Enabled(s, step)
    ensures Inv(expected, n, Apply(s, step))
  {
    assert s.callers[step.i] in multiset(s.callers);
  }

  lemma {:induction false} RunKeepsInv(expected: int, n: nat, s: Sync, steps: seq<Step>)
    requires Inv(expected, n, s) && CanRun(s, steps)
    ensures Inv(expected, n, After(s, steps))
    decreases |steps|
  {
    if |steps| > 0 {
      StepKeepsInv(expected, n, s, steps[0]);
      RunKeepsInv(expected, n, Apply(s, steps[0]), steps[1..]);
    }
  }

  lemma Reachable(expected: int, n: nat, steps: seq<Step>)
    requires CanRun(Start(expected, n), steps)
    ensures Inv(expected, n, After(Start(expected, n), steps))
  {
    StartCounts(n);
    RunKeepsInv(expected, n, Start(expected, n), steps);
  }

  /** In every run, no call returns before as many as expected have entered. */
  lemma NoEarlyReturn(expected: int, n: nat, steps: seq<Step>)
    requires CanRun(Start(expected, n), steps)
    ensures var s := After(Start(expected, n), steps); Returned in s.callers ==> Entered(s) >= expected
  {
    Reachable(expected, n, steps);
  }

  /** With exactly as many callers as expected, the guard of every waiter stays true once the last has entered. */
  lemma GuardIsStable(n: nat, s: Sync, steps: seq<Step>)
    requires Inv(n, n, s) && s.expectedThreads == 0 && CanRun(s, steps)
    ensures After(s, steps).expectedThreads == 0
    decreases |steps|
  {
    if |steps| > 0 {
      assert s.callers[steps[0].i] in multiset(s.callers);
      StepKeepsInv(n, n, s, steps[0]);
      GuardIsStable(n, Apply(s, steps[0]), steps[1..]);
    }
  }

  /** What is still to do: a call not made counts two, one that waits counts one. */
  function Measure(s: Sync): nat {
    2 * Count(s, NotCalled) + Count(s, Waiting)
  }

  lemma StepDecreases(s: Sync, step: Step)
    requires Enabled(s, step)
    ensures Measure(Apply(s, step)) < Measure(s)
  {
    assert s.callers[step.i] in multiset(s.callers);
  }

  /** So no run is longer than two steps a caller. */
  lemma {:induction false} RunsAreShort(s: Sync, steps: seq<Step>)
    requires CanRun(s, steps)
    ensures |steps| + Measure(After(s, steps)) <= Measure(s)
    decreases |steps|
  {
    if |steps| > 0 {
      StepDecreases(s, steps[0]);
      RunsAreShort(Apply(s, steps[0]), steps[1..]);
    }
  }

  predicate AllReturned(s: Sync) {
    forall i :: 0 <= i < |s.callers| ==> s.callers[i] == Returned
  }

  ghost predicate Stuck(s: Sync) {
    forall step :: !Enabled(s, step)
  }

  /** Where a run ends, every call has returned exactly if there were as many callers as expected: with fewer
      nobody is released, with more the last to enter waits for ever. */
  lemma AllReturnIff(expected: int, n: nat, steps: seq<Step>)
    requires CanRun(Start(expected, n), steps) && n > 0 && Stuck(After(Start(expected, n), steps))
    ensures AllReturned(After(Start(expected, n), steps)) <==> n == expected
  {
    var s := After(Start(expected, n), steps);
    Reachable(expected, n, steps);
    if AllReturned(s) {
      AllReturnedCounts(s);
    }
    if n == expected {
      forall i | 0 <= i < |s.callers|
        ensures s.callers[i] == Returned
      {
        NobodyLeft(expected, n, s, i);
      }
    }
  }

  lemma NobodyLeft(expected: int, n: nat, s: Sync, i: nat)
    requires Inv(expected, n, s) && n == expected && Stuck(s) && i < |s.callers|
    ensures s.callers[i] == Returned
  {
    assert !Enabled(s, Enter(i)) && !Enabled(s, Wake(i));
    if Count(s, NotCalled) > 0 {
      assert NotCalled in multiset(s.callers);
      var j :| 0 <= j < |s.callers| && s.callers[j] == NotCalled;
      assert Enabled(s, Enter(j));
    }
  }

  lemma AllReturnedCounts(s: Sync)
    requires AllReturned(s)
    ensures Count(s, NotCalled) == 0 && Count(s, Waiting) == 0
  {
    assert NotCalled !in s.callers && Waiting !in s.callers;
  }

  /** Every run goes on to an end. */
  lemma {:induction false} RunsEnd(s: Sync) returns (steps: seq<Step>)
    ensures CanRun(s, steps) && Stuck(After(s, steps))
    decreases Measure(s)
  {
    if step :| Enabled(s, step) {
      hide Measure, Apply, Enabled;
      StepDecreases(s, step);
      var rest := RunsEnd(Apply(s, step));
      steps := [step] + rest;
      assert steps[1..] == rest;
    } else {
      steps := [];
    }
  }

  /** So with any other number of callers than expected there is a run at whose end some caller still waits, and with
      the expected number there is none. */
  lemma SomeWaitForEver(expected: int, n: nat)
    requires n > 0
    ensures n != expected <==>
            exists steps :: CanRun(Start(expected, n), steps) && Stuck(After(Start(expected, n), steps)) &&
                            Waiting in After(Start(expected, n), steps).callers
  {
    hide After, CanRun, Stuck, Inv, Enabled;
    var steps := RunsEnd(Start(expected, n));
    AllReturnIff(expected, n, steps);
    if n != expected {
      SomeWait(After(Start(expected, n), steps));
    } else {
      forall steps | CanRun(Start(expected, n), steps) && Stuck(After(Start(expected, n), steps))
        ensures Waiting !in After(Start(expected, n), steps).callers
      {
        AllReturnIff(expected, n, steps);
      }
    }
  }

  lemma SomeWait(s: Sync)
    requires Stuck(s) && !AllReturned(s)
    ensures Waiting in s.callers
  {
    var i :| 0 <= i < |s.callers| && s.callers[i] != Returned;
    assert !Enabled(s, Enter(i));
  }
}
