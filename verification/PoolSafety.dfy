/** What pause() and stop() promise, in every run of the pool: how exact the two counts are, with threads being added
    beside them too, and when nothing runs behind them. */
module PoolSafety {
  import opened Pools

  ghost predicate AllAre(s: Pool, pc: Worker) {
    forall w :: 0 <= w < |s.workers| ==> s.workers[w] == pc
  }

  lemma {:induction false} CountIsAll(ws: seq<Worker>, pc: Worker)
    ensures multiset(ws)[pc] <= |ws|
    ensures multiset(ws)[pc] == |ws| <==> forall i :: 0 <= i < |ws| ==> ws[i] == pc
  {
    if |ws| > 0 {
      var front, last := ws[..|ws| - 1], ws[|ws| - 1];
      assert ws == front + [last];
      CountIsAll(front, pc);
      assert forall i :: 0 <= i < |front| ==> front[i] == ws[i];
    }
  }

  // ----- pausing

  /** The pause count is the number of blocked workers, and none when the controller is idle, so no count leaks into
      the next round.  When it lets pause() pass, all workers are blocked exactly if no thread is between its start
      and its count by the pause point. */
  ghost predicate PauseExact(s: Pool) {
    && s.pausedThreads == Count(s, Blocked)
    && (Enabled(s, PauseReturns) ==> (AllAre(s, Blocked) <==> s.adder != Started && s.adder != HalfCounted))
    && (s.controller == Idle ==> Blocked !in s.workers)
  }

  /** In every run, over any number of rounds. */
  lemma PauseCountExact(steps: seq<Step>)
    requires CanRun(START, steps)
    ensures PauseExact(After(START, steps))
  {
    hide *;
    Reachable(steps);
    PauseCounts(After(START, steps));
  }

  lemma PauseCounts(s: Pool)
    requires Inv(s)
    ensures PauseExact(s)
  {
    hide Conserved, Fifo;
    CountIsAll(s.workers, Blocked);
    assert Blocked in s.workers <==> Blocked in multiset(s.workers);
  }

  /** From `s` to `s'` nothing was executed and nothing was popped: no worker holds a task and the queue only grew. */
  ghost predicate NothingRan(s: Pool, s': Pool) {
    && s'.executed == s.executed
    && s.queue <= s'.queue
    && forall w :: 0 <= w < |s'.workers| ==> !s'.workers[w].Running?
  }

  /** The pool is paused and every worker is at its pause point. */
  predicate AllTrapped(s: Pool) {
    s.pause && forall w :: 0 <= w < |s.workers| ==> s.workers[w] == AtPause || s.workers[w] == Blocked
  }

  lemma TrappedStep(s: Pool, step: Step)
    requires AllTrapped(s) && Enabled(s, step) && step != CallResume
    ensures AllTrapped(Apply(s, step)) && NothingRan(s, Apply(s, step))
  {
  }

  lemma {:induction false} TrappedRun(s: Pool, steps: seq<Step>)
    requires AllTrapped(s) && CanRun(s, steps) && CallResume !in steps
    ensures AllTrapped(After(s, steps)) && NothingRan(s, After(s, steps))
    decreases |steps|
  {
    hide Apply, Enabled;
    if |steps| > 0 {
      TrappedStep(s, steps[0]);
      TrappedRun(Apply(s, steps[0]), steps[1..]);
    }
  }

  /** When pause() returns and no thread is half added, nothing is popped and nothing executed until resume() is
      called, whatever is pushed, however many threads are added, and even if stop() is called. */
  lemma NothingRunsWhileHeld(before: seq<Step>, steps: seq<Step>)
    requires CanRun(START, before) && Enabled(After(START, before), PauseReturns)
    requires After(START, before).adder != Started && After(START, before).adder != HalfCounted
    requires CanRun(Apply(After(START, before), PauseReturns), steps) && CallResume !in steps
    ensures NothingRan(After(START, before), After(Apply(After(START, before), PauseReturns), steps))
  {
    hide After, CanRun;
    PauseCountExact(before);
    var s := Apply(After(START, before), PauseReturns);
    HeldIsPaused(before);
    TrappedRun(s, steps);
  }

  lemma HeldIsPaused(before: seq<Step>)
    requires CanRun(START, before) && After(START, before).controller == Pausing
    ensures After(START, before).pause
  {
    hide After, CanRun, Counted, Fifo, Conserved, Count;
    Reachable(before);
  }

  /** In a held pool nothing runs until resume() is called exactly if every worker is at its pause point. */
  lemma HeldIsQuietIff(s: Pool)
    requires Inv(s) && s.controller == Held
    ensures AllTrapped(s) <==>
            forall steps | CanRun(s, steps) && CallResume !in steps :: NothingRan(s, After(s, steps))
  {
    hide Counted, Fifo, Conserved, Apply, Enabled, CanRun, After;
    if AllTrapped(s) {
      forall steps | CanRun(s, steps) && CallResume !in steps
        ensures NothingRan(s, After(s, steps))
      {
        TrappedRun(s, steps);
      }
    } else {
      var w :| 0 <= w < |s.workers| && s.workers[w] != AtPause && s.workers[w] != Blocked;
      HeldNotLeaving(s, w);
      var steps := RunsOn(s, w);
    }
  }

  lemma HeldNotLeaving(s: Pool, w: nat)
    requires Inv(s) && !s.stopper && w < |s.workers|
    ensures s.workers[w] != Leaving && s.workers[w] != Finished
  {
    hide Counted, Fifo, Conserved;
    assert s.workers[w] in multiset(s.workers);
  }

  /** A worker past its pause point that does not see the stop flag can get to run a task. */
  lemma RunsOn(s: Pool, w: nat) returns (steps: seq<Step>)
    requires w < |s.workers|
    requires (s.workers[w] == AtStop && !s.stopper) || s.workers[w] == AtPop || s.workers[w].Running?
    ensures CanRun(s, steps) && CallResume !in steps
    ensures w < |After(s, steps).workers| && After(s, steps).workers[w].Running?
    decreases s.workers[w].AtStop?
  {
    hide After, CanRun;
    if s.workers[w].AtStop? {
      var rest := RunsOn(Apply(s, CheckStop(w)), w);
      OneStep(s, CheckStop(w), rest);
      steps := [CheckStop(w)] + rest;
    } else if s.workers[w].AtPop? {
      PopsNext(s, w);
      steps := [Push] + ([Pop(w)] + []);
    } else {
      NoSteps(s);
      steps := [];
    }
  }

  lemma PopsNext(s: Pool, w: nat)
    requires At(s, w, AtPop)
    ensures var steps := [Push] + ([Pop(w)] + []);
            CanRun(s, steps) && At(After(s, steps), w, Running(if s.queue == [] then s.pushed else s.queue[0]))
  {
    hide After, CanRun;
    var s' := Apply(s, Push);
    NoSteps(Apply(s', Pop(w)));
    OneStep(s', Pop(w), []);
    OneStep(s, Push, [Pop(w)] + []);
  }

  // ----- stopping

  /** The fan-in count is the registered workers less those that called done().  When it lets stop() pass its wait, all
      workers have left their loops, holding no task, exactly if no thread is between its start and its count by the
      fan-in point. */
  ghost predicate FanInExact(s: Pool) {
    && s.fanInExpected == |s.workers| - Count(s, Finished) - NotFannedIn(s.adder)
    && (Enabled(s, StopReturns) ==> (AllAre(s, Finished) <==> s.adder != Started))
  }

  /** In every run. */
  lemma StopMeansAllLeft(steps: seq<Step>)
    requires CanRun(START, steps)
    ensures FanInExact(After(START, steps))
  {
    hide *;
    Reachable(steps);
    FanInCounts(After(START, steps));
  }

  lemma FanInCounts(s: Pool)
    requires Inv(s)
    ensures FanInExact(s)
  {
    hide Conserved, Fifo;
    CountIsAll(s.workers, Finished);
  }

  /** The stop flag is set and no worker can get past it. */
  predicate NoneInside(s: Pool) {
    s.stopper && forall w :: 0 <= w < |s.workers| ==> s.workers[w] != AtPop && !s.workers[w].Running?
  }

  lemma NoneInsideStep(s: Pool, step: Step)
    requires NoneInside(s) && Enabled(s, step)
    ensures NoneInside(Apply(s, step)) && NothingRan(s, Apply(s, step))
  {
  }

  lemma {:induction false} NoneInsideRun(s: Pool, steps: seq<Step>)
    requires NoneInside(s) && CanRun(s, steps)
    ensures NoneInside(After(s, steps)) && NothingRan(s, After(s, steps))
    decreases |steps|
  {
    hide Apply, Enabled;
    if |steps| > 0 {
      NoneInsideStep(s, steps[0]);
      NoneInsideRun(Apply(s, steps[0]), steps[1..]);
    }
  }

  /** When stop() passes its wait and no thread is started and uncounted, nothing runs any more, whatever is pushed and
      however many threads are added: what was not popped stays queued. */
  lemma NothingRunsAfterStop(before: seq<Step>, steps: seq<Step>)
    requires CanRun(START, before) && Enabled(After(START, before), StopReturns)
    requires After(START, before).adder != Started
    requires CanRun(Apply(After(START, before), StopReturns), steps)
    ensures NothingRan(After(START, before), After(Apply(After(START, before), StopReturns), steps))
  {
    hide After, CanRun;
    StopMeansAllLeft(before);
    StoppingIsStopped(before);
    NoneInsideRun(Apply(After(START, before), StopReturns), steps);
  }

  lemma StoppingIsStopped(before: seq<Step>)
    requires CanRun(START, before) && After(START, before).controller == Stopping
    ensures After(START, before).stopper
  {
    hide After, CanRun, Counted, Fifo, Conserved, Count;
    Reachable(before);
  }

  /** With the stop flag set, nothing runs any more exactly if no worker is past it. */
  lemma StoppedIsQuietIff(s: Pool)
    requires s.stopper
    ensures NoneInside(s) <==> forall steps | CanRun(s, steps) :: NothingRan(s, After(s, steps))
  {
    hide Apply, Enabled, CanRun, After;
    if NoneInside(s) {
      forall steps | CanRun(s, steps)
        ensures NothingRan(s, After(s, steps))
      {
        NoneInsideRun(s, steps);
      }
    } else {
      var w :| 0 <= w < |s.workers| && (s.workers[w] == AtPop || s.workers[w].Running?);
      var steps := RunsOn(s, w);
    }
  }
}
