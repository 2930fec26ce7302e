/** The waits of pause(), resume() and stop(): how far they are from being over, when they end, when they never do, and
    which steps that end one also wake the waiting thread. */
module PoolWaits {
  import opened Pools
  import opened PoolSafety

  // ----- sums over the workers

  function Total(ws: seq<Worker>, rank: Worker -> nat): nat {
    if |ws| == 0 then 0 else rank(ws[0]) + Total(ws[1..], rank)
  }

  lemma {:induction false} TotalMove(ws: seq<Worker>, rank: Worker -> nat, w: nat, to: Worker)
    requires w < |ws|
    ensures Total(ws[w := to], rank) == Total(ws, rank) - rank(ws[w]) + rank(to)
  {
    if w == 0 {
      assert ws[0 := to][1..] == ws[1..];
    } else {
      assert ws[w := to][1..] == ws[1..][w - 1 := to];
      TotalMove(ws[1..], rank, w - 1, to);
    }
  }

  lemma {:induction false} TotalPositive(ws: seq<Worker>, rank: Worker -> nat) returns (w: nat)
    requires Total(ws, rank) > 0
    ensures w < |ws| && rank(ws[w]) > 0
  {
    if rank(ws[0]) > 0 {
      w := 0;
    } else {
      var w' := TotalPositive(ws[1..], rank);
      w := w' + 1;
    }
  }

  lemma {:induction false} TotalZero(ws: seq<Worker>, rank: Worker -> nat, w: nat)
    requires Total(ws, rank) == 0 && w < |ws|
    ensures rank(ws[w]) == 0
  {
    if w > 0 {
      TotalZero(ws[1..], rank, w - 1);
    }
  }

  // ----- how far a wait is from being over

  /** How many steps a worker is away from the wait the controller is in being over. */
  function Rank(c: Controller, pc: Worker): nat {
    match c
    case Pausing =>
      (match pc
       case AtStop => 4 case AtPop => 3 case Running(_) => 2 case AtPause => 1 case _ => 0)
    case Resuming => if pc == Blocked then 1 else 0
    case Stopping =>
      (match pc
       case AtPop => 6 case Running(_) => 5 case AtPause => 4 case Blocked => 4 case AtStop => 3 case Leaving => 1
       case Finished => 0)
    case _ => 0
  }

  function RankIn(c: Controller): Worker -> nat {
    pc => Rank(c, pc)
  }

  /** How many counts add_thread still owes for the thread it just started. */
  function Owed(a: Adder): nat {
    if a == Started then 2 else if a == HalfCounted then 1 else 0
  }

  function Remaining(s: Pool): nat {
    Total(s.workers, RankIn(s.controller)) + Owed(s.adder)
  }

  predicate InWait(c: Controller) {
    c == Pausing || c == Resuming || c == Stopping
  }

  /** The controller is in one of its three waits; a stop() called while the pool is held is the exception. */
  predicate Waiting(s: Pool) {
    InWait(s.controller) && (s.controller == Stopping ==> !s.pause)
  }

  /** The step that ends the wait, and where it leads. */
  function Return(c: Controller): Step {
    match c
    case Pausing => PauseReturns
    case Resuming => ResumeReturns
    case _ => StopReturns
  }

  function Returned(c: Controller): Controller {
    match c
    case Pausing => Held
    case Resuming => Idle
    case _ => Stopped
  }

  /** The steps that bring the end of the wait nearer: any worker step, but only wake-ups during a resume, and the
      counting of a thread just started. */
  predicate Progress(c: Controller, step: Step) {
    step.AddFanIn? || step.AddPause? || (IsWorkerStep(step) && (c == Resuming ==> step.Wake?))
  }

  lemma WorkerNearer(s: Pool, step: Step)
    requires Inv(s) && Waiting(s) && Enabled(s, step) && IsWorkerStep(step)
    ensures var s' := Apply(s, step);
            && s'.controller == s.controller && Waiting(s') && s'.adder == s.adder
            && Rank(s.controller, s'.workers[step.w]) <= Rank(s.controller, s.workers[step.w])
            && (Progress(s.controller, step) ==>
                  Rank(s.controller, s'.workers[step.w]) < Rank(s.controller, s.workers[step.w]))
  {
    hide Conserved, Fifo, Counted, Count;
    CountOf(s, step.w);
  }

  lemma CountOf(s: Pool, w: nat)
    requires w < |s.workers|
    ensures Count(s, s.workers[w]) > 0
  {
    assert s.workers[w] in multiset(s.workers);
  }

  lemma {:induction false} TotalAppend(ws: seq<Worker>, rank: Worker -> nat, pc: Worker)
    ensures Total(ws + [pc], rank) == Total(ws, rank) + rank(pc)
  {
    if |ws| == 0 {
      assert ws + [pc] == [pc];
    } else {
      assert (ws + [pc])[1..] == ws[1..] + [pc];
      TotalAppend(ws[1..], rank, pc);
    }
  }

  /** Until the wait is over, every step that makes progress brings its end nearer, and only the start of another
      thread moves it away, by at most six steps. */
  lemma WaitShrinks(s: Pool, step: Step)
    requires Inv(s) && Waiting(s) && Enabled(s, step) && step != Return(s.controller)
    ensures var s' := Apply(s, step);
            && Inv(s') && Waiting(s') && s'.controller == s.controller
            && Remaining(s') + (if Progress(s.controller, step) then 1 else 0)
            <= Remaining(s) + (if step == Spawn then 6 else 0)
  {
    hide Total, Rank, Count, Inv;
    StepKeepsInv(s, step);
    if IsWorkerStep(step) {
      WorkerStepMoves(s, step);
      TotalMove(s.workers, RankIn(s.controller), step.w, Apply(s, step).workers[step.w]);
      WorkerNearer(s, step);
    } else {
      OtherShrinks(s, step);
    }
  }

  lemma OtherShrinks(s: Pool, step: Step)
    requires Waiting(s) && Enabled(s, step) && step != Return(s.controller) && !IsWorkerStep(step)
    ensures var s' := Apply(s, step);
            && Waiting(s') && s'.controller == s.controller
            && Remaining(s') + (if Progress(s.controller, step) then 1 else 0)
            <= Remaining(s) + (if step == Spawn then 6 else 0)
  {
    hide Total;
    TotalAppend(s.workers, RankIn(s.controller), AtPause);
  }

  /** With nothing remaining, the guard of the wait holds. */
  lemma WaitOver(s: Pool)
    requires Inv(s) && InWait(s.controller) && Remaining(s) == 0
    ensures Enabled(s, Return(s.controller))
  {
    hide Conserved, Fifo, Total;
    forall w | 0 <= w < |s.workers|
      ensures Rank(s.controller, s.workers[w]) == 0
      ensures s.controller == Pausing ==> s.workers[w] == Blocked
    {
      TotalZero(s.workers, RankIn(s.controller), w);
      CountOf(s, w);
    }
    CountIsAll(s.workers, Blocked);
    CountIsAll(s.workers, Finished);
    assert Blocked in s.workers <==> Blocked in multiset(s.workers);
  }

  /** With something remaining, some thread can make progress. */
  lemma WaitGoesOn(s: Pool) returns (step: Step)
    requires Inv(s) && Waiting(s) && Remaining(s) > 0
    ensures Enabled(s, step) && Progress(s.controller, step)
  {
    hide Conserved, Fifo, Total, Count;
    if s.adder == Started {
      step := AddFanIn;
    } else if s.adder == HalfCounted {
      step := AddPause;
    } else {
      var w := TotalPositive(s.workers, RankIn(s.controller));
      match s.workers[w] {
        case AtPause => step := CheckPause(w);
        case Blocked => step := Wake(w);
        case AtStop => step := CheckStop(w);
        case AtPop => step := Pop(w);
        case Running(_) => step := Finish(w);
        case Leaving => step := Done(w);
        case Finished => assert false;
      }
    }
  }

  /** The number of steps of a run that make progress. */
  function ProgressSteps(c: Controller, steps: seq<Step>): nat {
    if |steps| == 0 then 0 else (if Progress(c, steps[0]) then 1 else 0) + ProgressSteps(c, steps[1..])
  }

  function Spawns(steps: seq<Step>): nat {
    if |steps| == 0 then 0 else (if steps[0] == Spawn then 1 else 0) + Spawns(steps[1..])
  }

  /** Whatever the scheduling, and however many tasks are pushed meanwhile, only so many progress steps fit before the
      wait is over, and at most six more for each thread added meanwhile. */
  lemma {:induction false} WaitIsBounded(s: Pool, steps: seq<Step>)
    requires Inv(s) && Waiting(s) && CanRun(s, steps) && Return(s.controller) !in steps
    ensures var s' := After(s, steps);
            Waiting(s') && s'.controller == s.controller &&
            ProgressSteps(s.controller, steps) + Remaining(s') <= Remaining(s) + 6 * Spawns(steps)
    decreases |steps|
  {
    hide Inv, Apply, Enabled, Waiting, Remaining, Progress;
    if |steps| > 0 {
      WaitShrinks(s, steps[0]);
      WaitIsBounded(Apply(s, steps[0]), steps[1..]);
    }
  }

  /** And from every such wait there is a run that ends it. */
  lemma {:induction false} WaitCanEnd(s: Pool) returns (steps: seq<Step>)
    requires Inv(s) && Waiting(s)
    ensures CanRun(s, steps) && After(s, steps).controller == Returned(s.controller)
    decreases Remaining(s)
  {
    hide Inv, Remaining;
    if Remaining(s) == 0 {
      WaitOver(s);
      steps := [Return(s.controller)];
      assert steps[1..] == [];
    } else {
      var step := WaitGoesOn(s);
      WaitShrinks(s, step);
      var rest := WaitCanEnd(Apply(s, step));
      steps := [step] + rest;
      assert steps[1..] == rest;
    }
  }

  // ----- stop() on a held pool

  /** A worker that does not get to see the stop flag while the pool is paused. */
  predicate Stuck(pc: Worker) {
    pc == AtPause || pc == Blocked || pc == AtPop || pc.Running?
  }

  /** A stop() called on a held pool of `n` threads: worker `w`, which was among them, never gets to see the stop flag,
      and neither does any thread added since. */
  ghost predicate StopHangs(s: Pool, w: nat, n: nat) {
    && (s.controller == StopCalled || s.controller == Stopping) && s.pause
    && w < n <= |s.workers| && Stuck(s.workers[w])
    && (forall i :: n <= i < |s.workers| ==> s.workers[i] == AtPause || s.workers[i] == Blocked)
    && (s.adder == Started ==> n < |s.workers|)
  }

  lemma HangingStep(s: Pool, w: nat, n: nat, step: Step)
    requires StopHangs(s, w, n) && Enabled(s, step) && step != StopReturns
    ensures StopHangs(Apply(s, step), w, n)
  {
  }

  lemma HangingIsNotOver(s: Pool, w: nat, n: nat)
    requires StopHangs(s, w, n) && Counted(s)
    ensures s.fanInExpected > 0
  {
    CountIsAll(s.workers, Finished);
    if s.adder == Started {
      var front, last := s.workers[..|s.workers| - 1], s.workers[|s.workers| - 1];
      assert s.workers == front + [last];
      assert front[w] == s.workers[w];
      CountIsAll(front, Finished);
    }
  }

  lemma {:induction false} StopWhileHeldHangs(s: Pool, w: nat, n: nat, steps: seq<Step>)
    requires Inv(s) && StopHangs(s, w, n) && CanRun(s, steps)
    ensures StopHangs(After(s, steps), w, n)
    decreases |steps|
  {
    hide Apply, Conserved, Fifo, Phased, Counted, StopHangs;
    if |steps| > 0 {
      NotReturning(s, w, n, steps[0]);
      HangingStep(s, w, n, steps[0]);
      StepKeepsInv(s, steps[0]);
      StopWhileHeldHangs(Apply(s, steps[0]), w, n, steps[1..]);
    }
  }

  lemma NotReturning(s: Pool, w: nat, n: nat, step: Step)
    requires Counted(s) && StopHangs(s, w, n) && Enabled(s, step)
    ensures step != StopReturns
  {
    HangingIsNotOver(s, w, n);
  }

  /** stop() is waiting and no worker is stuck: all are past their pause points or out of their loops. */
  predicate NoneStuck(s: Pool) {
    s.controller == Stopping && s.adder == Free && forall w :: 0 <= w < |s.workers| ==> Leaves(s.workers[w])
  }

  predicate Leaves(pc: Worker) {
    pc == AtStop || pc == Leaving || pc == Finished
  }

  lemma LeavingGoesOn(s: Pool) returns (step: Step)
    requires Inv(s) && NoneStuck(s) && Remaining(s) > 0
    ensures Enabled(s, step) && NoneStuck(Apply(s, step)) && Remaining(Apply(s, step)) < Remaining(s)
  {
    hide Counted, Conserved, Fifo, Total, Count;
    var w := TotalPositive(s.workers, RankIn(Stopping));
    step := if s.workers[w] == AtStop then CheckStop(w) else Done(w);
    TotalMove(s.workers, RankIn(Stopping), w, Apply(s, step).workers[w]);
  }

  lemma {:induction false} StopCanEnd(s: Pool) returns (steps: seq<Step>)
    requires Inv(s) && NoneStuck(s)
    ensures CanRun(s, steps) && After(s, steps).controller == Stopped
    decreases Remaining(s)
  {
    hide Inv, Remaining, Leaves;
    if Remaining(s) == 0 {
      WaitOver(s);
      NoSteps(Apply(s, StopReturns));
      OneStep(s, StopReturns, []);
      steps := [StopReturns] + [];
    } else {
      var step := LeavingGoesOn(s);
      StepKeepsInv(s, step);
      var rest := StopCanEnd(Apply(s, step));
      OneStep(s, step, rest);
      steps := [step] + rest;
    }
  }

  /** So a stop() called when no thread is being added can pass its wait exactly if the pool is not held, or every
      thread happens to be past its pause point without having asked for the stop flag yet. */
  lemma StopReturnsIff(before: seq<Step>)
    requires CanRun(START, before) && Enabled(After(START, before), CountThreads)
    ensures var s := After(START, before);
            s.controller == Idle || AllAre(s, AtStop) <==>
            exists steps :: CanRun(Apply(s, CountThreads), steps) &&
                            After(Apply(s, CountThreads), steps).controller == Stopped
  {
    hide After, CanRun;
    Reachable(before);
    var s := After(START, before);
    var s' := Apply(s, CountThreads);
    StepKeepsInv(s, CountThreads);
    if s.controller == Idle || AllAre(s, AtStop) {
      var steps := StopEnds(s);
    } else {
      var w := SomeStuck(s);
      forall steps | CanRun(s', steps)
        ensures After(s', steps).controller != Stopped
      {
        StopWhileHeldHangs(s', w, |s.workers|, steps);
      }
    }
  }

  lemma SomeStuck(s: Pool) returns (w: nat)
    requires Inv(s) && s.controller == Held && !AllAre(s, AtStop)
    ensures w < |s.workers| && Stuck(s.workers[w])
  {
    hide Counted, Fifo, Conserved, Count;
    w :| w < |s.workers| && s.workers[w] != AtStop;
    HeldNotLeaving(s, w);
  }

  lemma StopEnds(s: Pool) returns (steps: seq<Step>)
    requires Inv(s) && Enabled(s, CountThreads) && (s.controller == Idle || AllAre(s, AtStop))
    ensures CanRun(Apply(s, CountThreads), steps) && After(Apply(s, CountThreads), steps).controller == Stopped
  {
    hide After, CanRun, Counted, Fifo, Conserved, Count;
    var s' := Apply(s, CountThreads);
    StepKeepsInv(s, CountThreads);
    StepKeepsInv(s', SetStop);
    var rest;
    if s.controller == Idle {
      rest := WaitCanEnd(Apply(s', SetStop));
    } else {
      rest := StopCanEnd(Apply(s', SetStop));
    }
    OneStep(s', SetStop, rest);
    steps := [SetStop] + rest;
  }

  // ----- waking the waiting thread

  /** The guard of the controller's wait. */
  predicate Over(s: Pool) {
    Enabled(s, Return(s.controller))
  }

  /** The section of this step notifies the condition variable the controller waits on. */
  predicate Notifies(s: Pool, step: Step) {
    if s.controller == Stopping then step.Done? else (step.CheckPause? && s.pause) || step.Wake?
  }

  /** Every step that makes the guard of a wait true notifies the waiting thread, except the two counts of
      add_thread. */
  lemma NotifiedIff(s: Pool, step: Step)
    requires Inv(s) && InWait(s.controller) && Enabled(s, step) && !Over(s)
    requires Over(Apply(s, step))
    ensures Notifies(s, step) <==> step != AddFanIn && step != AddPause
  {
    hide Counted, Conserved, Fifo, Count;
  }

  /** A worker's wait is ended by resume() alone, which notifies the workers. */
  lemma WorkersAreWoken(s: Pool, w: nat, step: Step)
    requires At(s, w, Blocked) && s.pause && Enabled(s, step) && !Apply(s, step).pause
    ensures step == CallResume && Enabled(Apply(s, step), Wake(w))
  {
  }

  /** The guard of the wait holds, and nothing is left that could notify the controller of it. */
  ghost predicate Asleep(s: Pool) {
    && Over(s) && s.adder != Started
    && (|| (s.controller == Pausing && s.pause && AllAre(s, Blocked) && s.adder != HalfCounted)
        || (s.controller == Stopping && AllAre(s, Finished)))
  }

  /** If one of those two makes it true, the thread, still asleep, has missed its last notification. */
  lemma WakeUpLost(s: Pool, step: Step)
    requires Inv(s) && InWait(s.controller) && Enabled(s, step) && !Over(s)
    requires Over(Apply(s, step)) && !Notifies(s, step)
    ensures Asleep(Apply(s, step))
  {
    hide Conserved, Fifo;
    CountIsAll(s.workers, Blocked);
    CountIsAll(s.workers, Finished);
    NotifiedIff(s, step);
  }

  function Notifications(s: Pool, steps: seq<Step>): nat
    requires CanRun(s, steps)
    decreases |steps|
  {
    if |steps| == 0 then 0
    else (if Notifies(s, steps[0]) then 1 else 0) + Notifications(Apply(s, steps[0]), steps[1..])
  }

  /** Unless it wakes by itself or another thread is added, it sleeps for ever, with its guard true. */
  lemma {:induction false} SleepsOn(s: Pool, steps: seq<Step>)
    requires Asleep(s) && CanRun(s, steps) && Return(s.controller) !in steps && Spawn !in steps
    ensures Asleep(After(s, steps)) && Notifications(s, steps) == 0
    decreases |steps|
  {
    hide Asleep, Apply, Notifies;
    if |steps| > 0 {
      SleepsStep(s, steps[0]);
      SleepsOn(Apply(s, steps[0]), steps[1..]);
    }
  }

  lemma SleepsStep(s: Pool, step: Step)
    requires Asleep(s) && Enabled(s, step) && step != Return(s.controller) && step != Spawn
    ensures Asleep(Apply(s, step)) && Apply(s, step).controller == s.controller && !Notifies(s, step)
  {
  }

  /** In every run: if one of the two counts of add_thread ends a wait, the guard holds from then on and the waiting
      thread is never notified, by that step or any later one, unless it wakes by itself or another thread is added. */
  lemma NeverNotified(before: seq<Step>, step: Step, steps: seq<Step>)
    requires CanRun(START, before) && (step == AddFanIn || step == AddPause)
    requires InWait(After(START, before).controller) && Enabled(After(START, before), step)
    requires !Over(After(START, before)) && Over(Apply(After(START, before), step))
    requires CanRun(Apply(After(START, before), step), steps) && Spawn !in steps
    requires Return(After(START, before).controller) !in steps
    ensures !Notifies(After(START, before), step) && Notifications(Apply(After(START, before), step), steps) == 0
    ensures Over(After(Apply(After(START, before), step), steps))
  {
    hide After, CanRun, Notifications, Inv, AllAre;
    Reachable(before);
    var s := After(START, before);
    NotifiedIff(s, step);
    WakeUpLost(s, step);
    SleepsOn(Apply(s, step), steps);
  }
}
