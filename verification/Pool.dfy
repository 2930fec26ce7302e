/** GenericThreadPool of threading.hpp, with its FanInPoint and PausePoint, as a machine of atomic steps: any number
    of workers, one thread that pauses, resumes and stops the pool, threads that add workers, and anybody pushing tasks.
    Each stretch between taking a mutex and waiting or releasing it is one step; the end of a wait is a step guarded by
    its predicate, so a wait may end at once or after any number of other steps.  Tasks are numbered in the order they
    are pushed. */
module Pools {

  /** Where a worker is in its loop. */
  datatype Worker =
    | AtPause              // about to call pauseIfRequred()
    | Blocked              // counted as paused, waiting for mPause to be cleared
    | AtStop               // about to ask stopRequired()
    | AtPop                // about to pop from the queue
    | Running(task: nat)   // executing a popped task
    | Leaving              // out of the loop, about to call done()
    | Finished

  /** Who holds the pool's mutex, and how far add_thread is. */
  datatype Adder =
    | Free         // the mutex is free
    | Adding       // add_thread holds it, between two threads
    | Started      // the thread just added runs, but is counted nowhere yet
    | HalfCounted  // it is counted by the fan-in point, not yet by the pause point

  /** Where the thread is that pauses, resumes and stops. */
  datatype Controller =
    | Idle
    | Pausing      // pause(): waiting until every thread is paused
    | Held         // pause() has returned
    | Resuming     // resume(): waiting until no thread is paused
    | StopCalled   // stop(): the pool has threads, the stop flag is not set yet
    | Stopping     // stop(): waiting for the fan-in
    | Stopped      // the fan-in wait is over

  datatype Pool = Pool(
    workers: seq<Worker>,
    queue: seq<nat>,
    pushed: nat,
    executed: seq<nat>,
    pause: bool,
    pausedThreads: int,
    pauseExpected: int,
    fanInExpected: int,
    stopper: bool,
    adder: Adder,
    controller: Controller)

  datatype Step =
    | Push
    | CheckPause(w: nat) | Wake(w: nat) | CheckStop(w: nat) | Pop(w: nat) | Finish(w: nat) | Done(w: nat)
    | LockAdd | Spawn | AddFanIn | AddPause | UnlockAdd
    | CallPause | PauseReturns | CallResume | ResumeReturns | CountThreads | SetStop | StopReturns

  predicate IsWorkerStep(step: Step) {
    step.CheckPause? || step.Wake? || step.CheckStop? || step.Pop? || step.Finish? || step.Done?
  }

  predicate At(s: Pool, w: nat, pc: Worker) {
    w < |s.workers| && s.workers[w] == pc
  }

  predicate Enabled(s: Pool, step: Step) {
    match step
    case Push => true
    case CheckPause(w) => At(s, w, AtPause)
    case Wake(w) => At(s, w, Blocked) && !s.pause
    case CheckStop(w) => At(s, w, AtStop)
    case Pop(w) => At(s, w, AtPop)
    case Finish(w) => w < |s.workers| && s.workers[w].Running?
    case Done(w) => At(s, w, Leaving)
    case LockAdd => s.adder == Free
    case Spawn => s.adder == Adding
    case AddFanIn => s.adder == Started
    case AddPause => s.adder == HalfCounted
    case UnlockAdd => s.adder == Adding
    case CallPause => s.controller == Idle
    case PauseReturns => s.controller == Pausing && s.pausedThreads == s.pauseExpected
    case CallResume => s.controller == Held
    case ResumeReturns => s.controller == Resuming && s.pausedThreads == 0
    case CountThreads => (s.controller == Idle || s.controller == Held) && s.adder == Free && |s.workers| > 0
    case SetStop => s.controller == StopCalled
    case StopReturns => s.controller == Stopping && s.fanInExpected == 0
  }

  function Move(s: Pool, w: nat, pc: Worker): Pool
    requires w < |s.workers|
  {
    s.(workers := s.workers[w := pc])
  }

  function Apply(s: Pool, step: Step): Pool
    requires Enabled(s, step)
  {
    match step
    case Push => s.(queue := s.queue + [s.pushed], pushed := s.pushed + 1)
    case CheckPause(w) =>
      if s.pause then Move(s, w, Blocked).(pausedThreads := s.pausedThreads + 1) else Move(s, w, AtStop)
    case Wake(w) => Move(s, w, AtStop).(pausedThreads := s.pausedThreads - 1)
    case CheckStop(w) => Move(s, w, if s.stopper then Leaving else AtPop)
    case Pop(w) =>
      if |s.queue| == 0 then Move(s, w, AtPause)
      else Move(s, w, Running(s.queue[0])).(queue := s.queue[1..])
    case Finish(w) => Move(s, w, AtPause).(executed := s.executed + [s.workers[w].task])
    case Done(w) => Move(s, w, Finished).(fanInExpected := s.fanInExpected - 1)
    case LockAdd => s.(adder := Adding)
    case Spawn => s.(workers := s.workers + [AtPause], adder := Started)
    case AddFanIn => s.(fanInExpected := s.fanInExpected + 1, adder := HalfCounted)
    case AddPause => s.(pauseExpected := s.pauseExpected + 1, adder := Adding)
    case UnlockAdd => s.(adder := Free)
    case CallPause => s.(pause := true, controller := Pausing)
    case PauseReturns => s.(controller := Held)
    case CallResume => s.(pause := false, controller := Resuming)
    case ResumeReturns => s.(controller := Idle)
    case CountThreads => s.(controller := StopCalled)
    case SetStop => s.(stopper := true, controller := Stopping)
    case StopReturns => s.(controller := Stopped)
  }

  const START := Pool([], [], 0, [], false, 0, 0, 0, false, Free, Idle)

  // ----- runs

  predicate CanRun(s: Pool, steps: seq<Step>)
    decreases |steps|
  {
    |steps| == 0 || (Enabled(s, steps[0]) && CanRun(Apply(s, steps[0]), steps[1..]))
  }

  function After(s: Pool, steps: seq<Step>): Pool
    requires CanRun(s, steps)
    decreases |steps|
  {
    if |steps| == 0 then s else After(Apply(s, steps[0]), steps[1..])
  }

  // ----- what every run keeps

  function Count(s: Pool, pc: Worker): nat {
    multiset(s.workers)[pc]
  }

  /** How many threads are started but not counted by the fan-in point. */
  function NotFannedIn(a: Adder): nat {
    if a == Started then 1 else 0
  }

  /** How many threads are started but not counted by the pause point. */
  function NotExpected(a: Adder): nat {
    if a == Started || a == HalfCounted then 1 else 0
  }

  /** The pause count is the number of blocked workers; both points expect the workers registered with them. */
  ghost predicate Counted(s: Pool) {
    && s.pausedThreads == Count(s, Blocked)
    && s.fanInExpected == |s.workers| - Count(s, Finished) - NotFannedIn(s.adder)
    && s.pauseExpected == |s.workers| - NotExpected(s.adder)
    && (s.adder == Started || s.adder == HalfCounted ==> |s.workers| > 0)
  }

  /** What the controller may rely on, phase by phase. */
  ghost predicate Phased(s: Pool) {
    && (s.controller == Idle ==> !s.pause && s.pausedThreads == 0)
    && (s.controller == Pausing || s.controller == Held ==> s.pause)
    && (s.controller == Resuming ==> !s.pause)
    && (s.stopper <==> s.controller == Stopping || s.controller == Stopped)
    && (Count(s, Leaving) + Count(s, Finished) > 0 ==> s.stopper)
  }

  /** The queue holds what was pushed and not popped yet, in push order. */
  ghost predicate Fifo(s: Pool) {
    && |s.queue| <= s.pushed
    && forall i :: 0 <= i < |s.queue| ==> s.queue[i] == s.pushed - |s.queue| + i
  }

  /** How often task `t` is queued, held by a worker, or executed. */
  function Places(s: Pool, t: nat): nat {
    multiset(s.queue)[t] + Count(s, Running(t)) + multiset(s.executed)[t]
  }

  ghost predicate Conserved(s: Pool) {
    forall t: nat :: Places(s, t) == if t < s.pushed then 1 else 0
  }

  ghost predicate Inv(s: Pool) {
    Counted(s) && Phased(s) && Fifo(s) && Conserved(s)
  }

  lemma MoveCounts(s: Pool, w: nat, to: Worker)
    requires w < |s.workers|
    ensures forall pc :: Count(Move(s, w, to), pc)
                      == Count(s, pc) - (if pc == s.workers[w] then 1 else 0) + (if pc == to then 1 else 0)
    ensures Count(s, s.workers[w]) > 0
  {
    assert s.workers[w] in multiset(s.workers);
  }

  /** A worker step moves one worker and leaves the controller and the registrations alone. */
  lemma WorkerStepMoves(s: Pool, step: Step)
    requires Enabled(s, step) && IsWorkerStep(step)
    ensures var s' := Apply(s, step);
            step.w < |s.workers| && s'.workers == Move(s, step.w, s'.workers[step.w]).workers &&
            (forall pc :: Count(s', pc) == Count(s, pc) - (if pc == s.workers[step.w] then 1 else 0)
                                                        + (if pc == s'.workers[step.w] then 1 else 0)) &&
            Count(s, s.workers[step.w]) > 0
  {
    var to := Apply(s, step).workers[step.w];
    MoveCounts(s, step.w, to);
    forall pc
      ensures Count(Apply(s, step), pc) == Count(Move(s, step.w, to), pc)
    {
    }
  }

  lemma WorkerKeepsCounted(s: Pool, step: Step)
    requires Counted(s) && Enabled(s, step) && IsWorkerStep(step)
    ensures Counted(Apply(s, step))
  {
    hide Count;
    WorkerStepMoves(s, step);
  }

  lemma OtherKeepsCounted(s: Pool, step: Step)
    requires Counted(s) && Enabled(s, step) && !IsWorkerStep(step)
    ensures Counted(Apply(s, step))
  {
  }

  lemma WorkerKeepsPhased(s: Pool, step: Step)
    requires Counted(s) && Phased(s) && Enabled(s, step) && IsWorkerStep(step)
    ensures Phased(Apply(s, step))
  {
    hide Count;
    WorkerStepMoves(s, step);
  }

  lemma OtherKeepsPhased(s: Pool, step: Step)
    requires Counted(s) && Phased(s) && Enabled(s, step) && !IsWorkerStep(step)
    ensures Phased(Apply(s, step))
  {
  }

  lemma StepKeepsFifo(s: Pool, step: Step)
    requires Fifo(s) && Enabled(s, step)
    ensures Fifo(Apply(s, step))
  {
  }

  lemma WorkerKeepsPlaces(s: Pool, step: Step, t: nat)
    requires Enabled(s, step) && IsWorkerStep(step)
    ensures Places(Apply(s, step), t) == Places(s, t)
  {
    hide Count;
    if step.Pop? {
      PopKeepsPlaces(s, step, t);
    } else {
      WorkerStepMoves(s, step);
    }
  }

  lemma PopKeepsPlaces(s: Pool, step: Step, t: nat)
    requires step.Pop? && Enabled(s, step)
    ensures Places(Apply(s, step), t) == Places(s, t)
  {
    hide Count;
    WorkerStepMoves(s, step);
    if |s.queue| > 0 {
      assert s.queue == [s.queue[0]] + s.queue[1..];
    }
  }

  /** A step moves at most one task on, from the queue to a worker or from a worker to the executed ones. */
  lemma StepKeepsPlaces(s: Pool, step: Step, t: nat)
    requires Enabled(s, step)
    ensures Places(Apply(s, step), t) == Places(s, t) + if step.Push? && t == s.pushed then 1 else 0
  {
    if IsWorkerStep(step) {
      WorkerKeepsPlaces(s, step, t);
    }
  }

  lemma StepKeepsInv(s: Pool, step: Step)
    requires Inv(s) && Enabled(s, step)
    ensures Inv(Apply(s, step))
  {
    hide Counted, Phased, Fifo, Places, Apply, Enabled;
    if IsWorkerStep(step) {
      WorkerKeepsCounted(s, step);
      WorkerKeepsPhased(s, step);
    } else {
      OtherKeepsCounted(s, step);
      OtherKeepsPhased(s, step);
    }
    StepKeepsFifo(s, step);
    PushedAfter(s, step);
    forall t: nat
      ensures Places(Apply(s, step), t) == if t < Apply(s, step).pushed then 1 else 0
    {
      StepKeepsPlaces(s, step, t);
    }
  }

  lemma PushedAfter(s: Pool, step: Step)
    requires Enabled(s, step)
    ensures Apply(s, step).pushed == s.pushed + if step.Push? then 1 else 0
  {
  }

  lemma {:induction false} RunKeepsInv(s: Pool, steps: seq<Step>)
    requires Inv(s) && CanRun(s, steps)
    ensures Inv(After(s, steps))
    decreases |steps|
  {
    hide Inv, Apply, Enabled;
    if |steps| > 0 {
      StepKeepsInv(s, steps[0]);
      RunKeepsInv(Apply(s, steps[0]), steps[1..]);
    }
  }

  lemma EmptyCounts(s: Pool, pc: Worker)
    requires s.workers == []
    ensures Count(s, pc) == 0
  {
  }

  lemma EmptyPlaces(s: Pool, t: nat)
    requires s.workers == [] && s.queue == [] && s.executed == []
    ensures Places(s, t) == 0
  {
  }

  lemma StartCounted(s: Pool)
    requires s == START
    ensures Counted(s) && Phased(s)
  {
    hide Counted, Phased;
    NothingCounted(s);
  }

  lemma NothingCounted(s: Pool)
    requires s.workers == [] && s.pausedThreads == s.pauseExpected == s.fanInExpected == 0
    requires s.adder == Free && s.controller == Idle && !s.pause && !s.stopper
    ensures Counted(s) && Phased(s)
  {
    hide Count;
    EmptyCounts(s, Blocked);
    EmptyCounts(s, Leaving);
    EmptyCounts(s, Finished);
  }

  lemma StartConserved(s: Pool)
    requires s == START
    ensures Fifo(s) && Conserved(s)
  {
    hide Places;
    forall t: nat
      ensures Places(s, t) == 0
    {
      EmptyPlaces(s, t);
    }
  }

  lemma StartInv(s: Pool)
    requires s == START
    ensures Inv(s)
  {
    hide Counted, Phased, Fifo, Conserved, START;
    StartCounted(s);
    StartConserved(s);
  }

  lemma Reachable(steps: seq<Step>)
    requires CanRun(START, steps)
    ensures Inv(After(START, steps))
  {
    hide *;
    StartInv(START);
    RunKeepsInv(START, steps);
  }

  // ----- conservation

  /** Task `t`, if it was pushed, is in exactly one place: queued, held by one worker, or executed once. */
  ghost predicate InOnePlace(s: Pool, t: nat) {
    && (t < s.pushed <==> t in s.queue || Running(t) in s.workers || t in s.executed)
    && !(t in s.queue && Running(t) in s.workers)
    && !(t in s.queue && t in s.executed)
    && !(Running(t) in s.workers && t in s.executed)
    && multiset(s.executed)[t] <= 1
    && forall v, w :: 0 <= v < w < |s.workers| ==> !(s.workers[v] == Running(t) && s.workers[w] == Running(t))
  }

  /** In every run, no task is lost or duplicated. */
  lemma TaskInOnePlace(steps: seq<Step>, t: nat)
    requires CanRun(START, steps)
    ensures InOnePlace(After(START, steps), t)
  {
    hide *;
    Reachable(steps);
    OnePlace(After(START, steps), t);
  }

  lemma OnePlace(s: Pool, t: nat)
    requires Inv(s)
    ensures InOnePlace(s, t)
  {
    hide Counted, Phased, Fifo;
    assert Places(s, t) == if t < s.pushed then 1 else 0;
    assert t in s.queue <==> t in multiset(s.queue);
    assert t in s.executed <==> t in multiset(s.executed);
    assert Running(t) in s.workers <==> Running(t) in multiset(s.workers);
    forall v, w | 0 <= v < w < |s.workers|
      ensures !(s.workers[v] == Running(t) && s.workers[w] == Running(t))
    {
      TwiceCounts(s.workers, v, w, Running(t));
    }
  }

  lemma TwiceCounts(ws: seq<Worker>, v: nat, w: nat, pc: Worker)
    requires v < w < |ws|
    ensures ws[v] == pc && ws[w] == pc ==> multiset(ws)[pc] >= 2
  {
    var front, back := ws[..w], ws[w..];
    assert ws == front + back;
    assert front[v] in multiset(front) && back[0] in multiset(back);
  }

  /** Tasks not popped yet are the latest pushed ones, in order, and the next one popped is the oldest. */
  ghost predicate InPushOrder(s: Pool) {
    && |s.queue| <= s.pushed
    && (forall t: nat :: t in s.queue <==> s.pushed - |s.queue| <= t < s.pushed)
    && (forall w: nat :: At(s, w, AtPop) && |s.queue| > 0 ==>
          Apply(s, Pop(w)).workers[w] == Running(s.pushed - |s.queue|))
  }

  /** In every run, tasks are popped in push order, and what is left, after stop() too, stays queued in order. */
  lemma PoppedInOrder(steps: seq<Step>)
    requires CanRun(START, steps)
    ensures InPushOrder(After(START, steps))
  {
    hide *;
    Reachable(steps);
    FifoOrder(After(START, steps));
  }

  lemma FifoOrder(s: Pool)
    requires Inv(s)
    ensures InPushOrder(s)
  {
    hide Counted, Phased, Conserved;
    forall t: nat
      ensures t in s.queue <==> s.pushed - |s.queue| <= t < s.pushed
    {
      if s.pushed - |s.queue| <= t < s.pushed {
        assert s.queue[t - (s.pushed - |s.queue|)] == t;
      }
    }
  }

  // ----- putting runs together

  lemma NoSteps(s: Pool)
    ensures CanRun(s, []) && After(s, []) == s
  {
  }

  lemma OneStep(s: Pool, step: Step, rest: seq<Step>)
    requires Enabled(s, step) && CanRun(Apply(s, step), rest)
    ensures CanRun(s, [step] + rest) && After(s, [step] + rest) == After(Apply(s, step), rest)
  {
    assert ([step] + rest)[1..] == rest;
  }
}
