/** Runs of the pool in which pause() or stop() goes wrong: the states the statements of PoolSafety and PoolWaits
    exclude, or name as the condition, are reached. */
module PoolRuns {
  import opened Pools
  import opened PoolSafety
  import opened PoolWaits

  /** One more step at the end of a run. */
  lemma {:induction false} Then(s: Pool, steps: seq<Step>, step: Step)
    requires CanRun(s, steps) && Enabled(After(s, steps), step)
    ensures CanRun(s, steps + [step]) && After(s, steps + [step]) == Apply(After(s, steps), step)
    decreases |steps|
  {
    if |steps| == 0 {
      NoSteps(Apply(s, step));
      OneStep(s, step, []);
      assert steps + [step] == [step] + [];
    } else {
      Then(Apply(s, steps[0]), steps[1..], step);
      assert (steps + [step])[1..] == steps[1..] + [step];
    }
  }

  lemma Go(steps: seq<Step>, step: Step) returns (steps': seq<Step>)
    requires CanRun(START, steps) && Enabled(After(START, steps), step)
    ensures steps' == steps + [step] && CanRun(START, steps')
    ensures After(START, steps') == Apply(After(START, steps), step)
  {
    hide *;
    Then(START, steps, step);
    steps' := steps + [step];
  }

  /** The first thread of a pool, started and not counted. */
  lemma FirstStarted() returns (steps: seq<Step>)
    ensures CanRun(START, steps)
    ensures After(START, steps) == START.(workers := [AtPause], adder := Started)
  {
    NoSteps(START);
    hide CanRun, After;
    steps := Go([], LockAdd);
    steps := Go(steps, Spawn);
  }

  /** A pool of one registered worker, about to look at the pause flag; add_thread goes on. */
  lemma OneRegistered() returns (steps: seq<Step>)
    ensures CanRun(START, steps)
    ensures After(START, steps) == START.(workers := [AtPause], pauseExpected := 1, fanInExpected := 1, adder := Adding)
  {
    hide CanRun, After;
    steps := FirstStarted();
    steps := Go(steps, AddFanIn);
    steps := Go(steps, AddPause);
  }

  /** pause() returns on one worker; stop() may then be called, and every worker is stuck. */
  lemma HeldIsReached() returns (steps: seq<Step>)
    ensures CanRun(START, steps)
    ensures var s := After(START, steps);
            s.controller == Held && s.workers == [Blocked] && Enabled(s, CountThreads) && !AllAre(s, AtStop)
  {
    hide CanRun, After;
    steps := OneRegistered();
    steps := Go(steps, UnlockAdd);
    steps := Go(steps, CallPause);
    assert !Over(After(START, steps));
    steps := Go(steps, CheckPause(0));
    steps := Go(steps, PauseReturns);
    assert After(START, steps).workers[0] == Blocked;
  }

  /** pause() returns at once on a pool whose first thread is not counted yet; that thread is past its pause point. */
  lemma HeldPastPausePoint() returns (steps: seq<Step>)
    ensures CanRun(START, steps)
    ensures var s := After(START, steps);
            s.controller == Held && s.workers == [AtStop] && Enabled(s, CountThreads)
  {
    hide CanRun, After;
    steps := FirstStarted();
    steps := Go(steps, CheckPause(0));
    steps := Go(steps, CallPause);
    steps := Go(steps, PauseReturns);
    steps := Go(steps, AddFanIn);
    steps := Go(steps, AddPause);
    steps := Go(steps, UnlockAdd);
  }

  /** A second thread gets to run a task before add_thread counts it. */
  lemma SecondRuns(before: seq<Step>) returns (steps: seq<Step>)
    requires CanRun(START, before)
    requires var s := After(START, before);
             s.workers == [AtPause] && s.queue == [] && s.pushed == 0 && !s.pause && !s.stopper && s.adder == Adding
    ensures CanRun(START, steps)
    ensures After(START, steps)
         == After(START, before).(workers := [AtPause, Running(0)], pushed := 1, adder := Started)
  {
    hide CanRun, After;
    steps := Go(before, Spawn);
    steps := Go(steps, CheckPause(1));
    steps := Go(steps, CheckStop(1));
    steps := Go(steps, Push);
    steps := Go(steps, Pop(1));
  }

  /** pause() can return while a worker runs a task: it has been started and not been counted. */
  lemma PauseMissesStarted() returns (steps: seq<Step>)
    ensures CanRun(START, steps)
    ensures var s := After(START, steps);
            Enabled(s, PauseReturns) && s.workers == [Blocked, Running(0)] && s.adder == Started
  {
    hide CanRun, After;
    steps := OneRegistered();
    steps := SecondRuns(steps);
    steps := Go(steps, CallPause);
    assert !Over(After(START, steps));
    steps := Go(steps, CheckPause(0));
  }

  /** The same of stop(), past its look at the number of threads: it can pass its wait while a worker runs a task. */
  lemma StopMissesStarted() returns (steps: seq<Step>)
    ensures CanRun(START, steps)
    ensures var s := After(START, steps);
            Enabled(s, StopReturns) && s.workers == [Finished, Running(0)] && s.adder == Started
  {
    hide CanRun, After;
    steps := OneRegistered();
    steps := Go(steps, UnlockAdd);
    steps := Go(steps, CountThreads);
    steps := Go(steps, LockAdd);
    steps := SecondRuns(steps);
    steps := FirstLeaves(steps);
  }

  lemma FirstLeaves(before: seq<Step>) returns (steps: seq<Step>)
    requires CanRun(START, before)
    requires var s := After(START, before);
             |s.workers| == 2 && s.workers[0] == AtPause && !s.pause && s.controller == StopCalled
    ensures CanRun(START, steps)
    ensures var s := After(START, before);
            After(START, steps) == s.(workers := [Finished, s.workers[1]], fanInExpected := s.fanInExpected - 1,
                                      stopper := true, controller := Stopping)
  {
    hide CanRun, After;
    steps := Go(before, SetStop);
    steps := Go(steps, CheckPause(0));
    steps := Go(steps, CheckStop(0));
    steps := Go(steps, Done(0));
  }

  /** The last count of add_thread makes the guard of pause() true, after the last notification. */
  lemma PauseMissesWakeUp() returns (steps: seq<Step>)
    ensures CanRun(START, steps)
    ensures var s := After(START, steps);
            s.controller == Pausing && !Over(s) && Enabled(s, AddPause) && Over(Apply(s, AddPause))
  {
    hide CanRun, After;
    steps := OneRegistered();
    steps := Go(steps, Spawn);
    steps := Go(steps, CallPause);
    assert !Over(After(START, steps));
    steps := Go(steps, CheckPause(0));
    steps := Go(steps, CheckPause(1));
    steps := Go(steps, AddFanIn);
  }

  /** The same of stop(). */
  lemma StopMissesWakeUp() returns (steps: seq<Step>)
    ensures CanRun(START, steps)
    ensures var s := After(START, steps);
            s.controller == Stopping && !Over(s) && Enabled(s, AddFanIn) && Over(Apply(s, AddFanIn))
  {
    hide CanRun, After;
    steps := OneRegistered();
    steps := Go(steps, UnlockAdd);
    steps := Go(steps, CountThreads);
    steps := Go(steps, LockAdd);
    steps := Go(steps, Spawn);
    steps := FirstLeaves(steps);
    steps := Go(steps, CheckPause(1));
    steps := Go(steps, CheckStop(1));
    steps := Go(steps, Done(1));
  }
}
