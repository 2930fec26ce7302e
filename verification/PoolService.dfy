/** A pool that is neither paused nor stopping serves its queue: how far a pushed task is from being popped, and that it
    can be executed; and how little is still popped once the stop flag is set. */
module PoolService {
  import opened Pools
  import opened PoolSafety
  import opened PoolWaits

  /** Workers go round their loop without waiting or leaving. */
  predicate Serving(s: Pool) {
    !s.pause && !s.stopper
  }

  /** Neither pause() is called nor the stop flag set. */
  predicate Uninterrupted(steps: seq<Step>) {
    CallPause !in steps && SetStop !in steps
  }

  /** How many tasks have been popped. */
  function Popped(s: Pool): int {
    s.pushed - |s.queue|
  }

  predicate Queued(s: Pool, t: nat) {
    Popped(s) <= t < s.pushed
  }

  /** How many steps a worker is away from its next pop. */
  function ToPop(pc: Worker): nat {
    match pc
    case Running(_) => 3
    case AtPause => 2
    case Blocked => 2
    case AtStop => 1
    case _ => 0
  }

  /** A bound on the worker steps until task `t` is popped: four for every task up to it, and what the workers still
      have to go to their next pops. */
  function Distance(s: Pool, t: nat): nat
    requires Queued(s, t)
  {
    4 * (t + 1 - Popped(s)) + Total(s.workers, ToPop)
  }

  /** A worker step takes the worker one step nearer to its pop, or pops a task and sends it round once more. */
  lemma WorkerServes(s: Pool, step: Step)
    requires Serving(s) && |s.queue| > 0 && Enabled(s, step) && IsWorkerStep(step) && !step.Done?
    ensures var s' := Apply(s, step);
            && Serving(s') && s'.pushed == s.pushed && step.w < |s.workers| == |s'.workers|
            && s'.workers == s.workers[step.w := s'.workers[step.w]]
            && 4 * |s'.queue| + ToPop(s'.workers[step.w]) < 4 * |s.queue| + ToPop(s.workers[step.w])
  {
  }

  lemma NotDone(s: Pool, step: Step)
    requires Inv(s) && Serving(s) && Enabled(s, step)
    ensures !step.Done?
  {
    hide Inv;
    if step.Done? {
      HeldNotLeaving(s, step.w);
    }
  }

  lemma OtherServes(s: Pool, step: Step)
    requires Serving(s) && Enabled(s, step) && !IsWorkerStep(step) && step != CallPause && step != SetStop
    ensures var s' := Apply(s, step);
            && Serving(s') && Popped(s') == Popped(s) && s'.pushed >= s.pushed
            && s'.workers == if step == Spawn then s.workers + [AtPause] else s.workers
  {
  }

  /** While task `t` is queued every worker step brings its pop nearer, and only another thread moves it away, by two
      steps. */
  lemma ServedStep(s: Pool, step: Step, t: nat)
    requires Inv(s) && Serving(s) && Queued(s, t) && Enabled(s, step) && step != CallPause && step != SetStop
    ensures var s' := Apply(s, step);
            && Inv(s') && Serving(s')
            && (Queued(s', t) ==>
                  Distance(s', t) + (if IsWorkerStep(step) then 1 else 0)
                  <= Distance(s, t) + (if step == Spawn then 2 else 0))
  {
    hide Inv, Enabled, Apply, Serving, ToPop;
    StepKeepsInv(s, step);
    if IsWorkerStep(step) {
      NotDone(s, step);
      WorkerServes(s, step);
      TotalMove(s.workers, ToPop, step.w, Apply(s, step).workers[step.w]);
    } else {
      OtherServes(s, step);
      TotalAppend(s.workers, ToPop, AtPause);
      AtPauseToPop();
    }
  }

  lemma AtPauseToPop()
    ensures ToPop(AtPause) == 2
  {
  }

  function WorkerSteps(steps: seq<Step>): nat {
    if |steps| == 0 then 0 else (if IsWorkerStep(steps[0]) then 1 else 0) + WorkerSteps(steps[1..])
  }

  lemma {:induction false} PoppedGrows(s: Pool, steps: seq<Step>)
    requires CanRun(s, steps)
    ensures Popped(s) <= Popped(After(s, steps))
    decreases |steps|
  {
    hide Apply, Enabled, Popped;
    if |steps| > 0 {
      PoppedStep(s, steps[0]);
      PoppedGrows(Apply(s, steps[0]), steps[1..]);
    }
  }

  lemma PoppedStep(s: Pool, step: Step)
    requires Enabled(s, step)
    ensures Popped(s) <= Popped(Apply(s, step)) && s.pushed <= Apply(s, step).pushed
  {
  }

  /** Whatever the scheduling, and however many tasks are pushed behind it, only so many worker steps fit before task
      `t` is popped, and at most two more for each thread added meanwhile. */
  lemma {:induction false} PopIsBounded(s: Pool, t: nat, steps: seq<Step>)
    requires Inv(s) && Serving(s) && Queued(s, t) && CanRun(s, steps) && Uninterrupted(steps)
    requires Queued(After(s, steps), t)
    ensures WorkerSteps(steps) + Distance(After(s, steps), t) <= Distance(s, t) + 2 * Spawns(steps)
    decreases |steps|
  {
    hide Inv, Apply, Enabled, Serving, Distance, IsWorkerStep;
    if |steps| > 0 {
      ServedStep(s, steps[0], t);
      PoppedGrows(Apply(s, steps[0]), steps[1..]);
      PoppedStep(s, steps[0]);
      PopIsBounded(Apply(s, steps[0]), t, steps[1..]);
    }
  }

  /** And as long as there is a worker, some worker can take a step. */
  lemma ServiceGoesOn(s: Pool) returns (step: Step)
    requires Inv(s) && Serving(s) && |s.workers| > 0
    ensures Enabled(s, step) && IsWorkerStep(step)
  {
    hide Inv;
    HeldNotLeaving(s, 0);
    match s.workers[0] {
      case AtPause => step := CheckPause(0);
      case Blocked => step := Wake(0);
      case AtStop => step := CheckStop(0);
      case AtPop => step := Pop(0);
      case Running(_) => step := Finish(0);
    }
  }

  /** So every pushed task can be executed, and once popped one step of the worker that holds it is enough. */
  lemma {:induction false} CanBeExecuted(s: Pool, t: nat) returns (steps: seq<Step>)
    requires Inv(s) && Serving(s) && |s.workers| > 0 && t < s.pushed
    ensures CanRun(s, steps) && Uninterrupted(steps) && t in After(s, steps).executed
    decreases Queued(s, t), if Queued(s, t) then Distance(s, t) else 0
  {
    hide Inv, Distance, CanRun, After, Serving;
    if Queued(s, t) {
      var step := ServiceGoesOn(s);
      ServedStep(s, step, t);
      PoppedStep(s, step);
      KeepsWorkers(s, step);
      var rest := CanBeExecuted(Apply(s, step), t);
      OneStep(s, step, rest);
      steps := [step] + rest;
    } else {
      steps := HeldIsExecuted(s, t);
    }
  }

  lemma KeepsWorkers(s: Pool, step: Step)
    requires Enabled(s, step)
    ensures |Apply(s, step).workers| >= |s.workers|
  {
  }

  lemma HeldIsExecuted(s: Pool, t: nat) returns (steps: seq<Step>)
    requires Inv(s) && t < s.pushed && !Queued(s, t)
    ensures CanRun(s, steps) && Uninterrupted(steps) && t in After(s, steps).executed
  {
    hide Inv, CanRun, After;
    OnePlace(s, t);
    FifoOrder(s);
    NoSteps(s);
    steps := [];
    if t !in s.executed {
      var w :| 0 <= w < |s.workers| && s.workers[w] == Running(t);
      NoSteps(Apply(s, Finish(w)));
      OneStep(s, Finish(w), []);
      steps := [Finish(w)] + [];
    }
  }

  // ----- the order of execution

  /** With one worker, or none yet, the tasks executed are the first ones pushed, in order, and the next one is the one
      the worker holds or, if it holds none, the first in the queue. */
  ghost predicate InSequence(s: Pool) {
    |s.workers| <= 1 ==>
      && (forall i :: 0 <= i < |s.executed| ==> s.executed[i] == i)
      && (forall t :: s.workers == [Running(t)] ==> t == |s.executed|)
      && Popped(s) == |s.executed| + if |s.workers| == 1 && s.workers[0].Running? then 1 else 0
  }

  lemma WorkerSequence(s: Pool, step: Step)
    requires InSequence(s) && Fifo(s) && Enabled(s, step) && IsWorkerStep(step) && |s.workers| == 1
    ensures InSequence(Apply(s, step))
  {
    if s.workers[0].Running? {
      assert s.workers == [Running(s.workers[0].task)];
    }
  }

  lemma SequenceStep(s: Pool, step: Step)
    requires InSequence(s) && Fifo(s) && Enabled(s, step)
    ensures InSequence(Apply(s, step))
  {
    hide Fifo;
    if IsWorkerStep(step) && |s.workers| <= 1 {
      WorkerSequence(s, step);
    }
  }

  lemma {:induction false} RunKeepsSequence(s: Pool, steps: seq<Step>)
    requires Inv(s) && InSequence(s) && CanRun(s, steps)
    ensures InSequence(After(s, steps))
    decreases |steps|
  {
    hide Counted, Phased, Fifo, Conserved, InSequence, Apply, Enabled;
    if |steps| > 0 {
      SequenceStep(s, steps[0]);
      StepKeepsInv(s, steps[0]);
      RunKeepsSequence(Apply(s, steps[0]), steps[1..]);
    }
  }

  /** In every run. */
  lemma OneWorkerKeepsOrder(steps: seq<Step>)
    requires CanRun(START, steps)
    ensures InSequence(After(START, steps))
  {
    hide After, CanRun, Inv;
    StartInv(START);
    RunKeepsSequence(START, steps);
  }

  // ----- after the stop flag is set

  /** Once the stop flag is set, no more tasks are popped than there are workers about to pop, whatever is pushed and
      however many threads are added. */
  lemma {:induction false} FewPopsAfterStop(s: Pool, steps: seq<Step>)
    requires s.stopper && CanRun(s, steps)
    ensures Popped(After(s, steps)) <= Popped(s) + Count(s, AtPop)
    ensures After(s, steps).stopper
    decreases |steps|
  {
    hide Apply, Enabled, Popped, Count;
    if |steps| > 0 {
      StopStep(s, steps[0]);
      FewPopsAfterStop(Apply(s, steps[0]), steps[1..]);
    }
  }

  lemma StopStep(s: Pool, step: Step)
    requires s.stopper && Enabled(s, step)
    ensures var s' := Apply(s, step);
            s'.stopper && Popped(s') + Count(s', AtPop) <= Popped(s) + Count(s, AtPop)
  {
    if IsWorkerStep(step) {
      hide Count;
      WorkerStepMoves(s, step);
    }
  }

  /** And that many can be popped. */
  lemma {:induction false} PopsAfterStop(s: Pool) returns (steps: seq<Step>)
    ensures CanRun(s, steps) && Popped(After(s, steps)) == Popped(s) + Count(s, AtPop)
    decreases Count(s, AtPop)
  {
    hide CanRun, After, Count;
    if Count(s, AtPop) == 0 {
      NoSteps(s);
      steps := [];
    } else {
      var w := SomeAt(s, AtPop);
      var s' := Apply(s, Push);
      WorkerStepMoves(s', Pop(w));
      PushMovesNobody(s, AtPop);
      var rest := PopsAfterStop(Apply(s', Pop(w)));
      OneStep(s', Pop(w), rest);
      OneStep(s, Push, [Pop(w)] + rest);
      steps := [Push] + ([Pop(w)] + rest);
    }
  }

  lemma SomeAt(s: Pool, pc: Worker) returns (w: nat)
    requires Count(s, pc) > 0
    ensures At(s, w, pc)
  {
    assert pc in multiset(s.workers);
    w :| 0 <= w < |s.workers| && s.workers[w] == pc;
  }

  lemma PushMovesNobody(s: Pool, pc: Worker)
    ensures Count(Apply(s, Push), pc) == Count(s, pc)
  {
  }
}
