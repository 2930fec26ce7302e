/** The objects the threads of a pool share, in the source's form: counters and flags updated in place under a mutex
    and the queue as a SafeList on the heap.  Every method is one mutex-held section (or one atomic access): it takes
    the step of the pool machine that stands for it, and its contract says what the counters then tell about the
    workers. */
module Shared {
  import opened Lists
  import opened Pools
  import opened PoolSafety
  import SyncPoints

  class SharedPool {
    // PausePoint
    var mPause: bool
    var mPausedThreads: int
    var mPauseExpected: int
    // FanInPoint
    var mFanInExpected: int
    // ThreadControl
    var stopper: bool
    // the pool's mutex and the length of its thread vector
    var locked: bool
    var numThreads: nat
    // the function queue, and the number of the queue element each hook sits in
    const queue: SafeList
    ghost var taskOf: map<ListHook, nat>

    /** The objects are in the state `s` of the machine, one that its runs reach. */
    ghost predicate Shows(s: Pool)
      reads this, queue, queue.nodes
    {
      Inv(s) && ShowsCounts(s) && ShowsQueue(s.queue)
    }

    ghost predicate ShowsCounts(s: Pool)
      reads this
    {
      && mPause == s.pause && mPausedThreads == s.pausedThreads && mPauseExpected == s.pauseExpected
      && mFanInExpected == s.fanInExpected && stopper == s.stopper
      && locked == (s.adder != Free) && numThreads == |s.workers|
    }

    ghost predicate ShowsQueue(tasks: seq<nat>)
      reads this, queue, queue.nodes
    {
      && queue.Valid()
      && |queue.nodes| == |tasks|
      && forall i :: 0 <= i < |tasks| ==> queue.nodes[i] in taskOf && taskOf[queue.nodes[i]] == tasks[i]
    }

    constructor ()
      ensures Shows(START) && fresh(queue) && queue.nodes == []
    {
      mPause := false;
      mPausedThreads := 0;
      mPauseExpected := 0;
      mFanInExpected := 0;
      stopper := false;
      locked := false;
      numThreads := 0;
      queue := new SafeList();
      taskOf := map[];
      new;
      hide Inv;
      StartInv(START);
    }

    // ----- the sections of a worker

    /** pauseIfRequred up to its wait.  Every worker that waits, and no other, is counted. */
    method PauseIfRequired(ghost s: Pool, ghost w: nat) returns (waits: bool)
      requires Shows(s) && Enabled(s, CheckPause(w))
      modifies this`mPausedThreads
      ensures Shows(Apply(s, CheckPause(w)))
      ensures waits == (Apply(s, CheckPause(w)).workers[w] == Blocked)
      ensures mPausedThreads == Count(Apply(s, CheckPause(w)), Blocked)
    {
      hide Inv, Count;
      StepKeepsInv(s, CheckPause(w));
      PauseCounts(Apply(s, CheckPause(w)));
      waits := mPause;
      if mPause {
        mPausedThreads := mPausedThreads + 1;
      }
    }

    /** pauseIfRequred after its wait, whose predicate is `!mPause`. */
    method LeavePause(ghost s: Pool, ghost w: nat)
      requires Shows(s) && At(s, w, Blocked) && !mPause
      modifies this`mPausedThreads
      ensures Enabled(s, Wake(w)) && Shows(Apply(s, Wake(w)))
      ensures mPausedThreads == Count(Apply(s, Wake(w)), Blocked)
    {
      hide Inv, Count;
      StepKeepsInv(s, Wake(w));
      PauseCounts(Apply(s, Wake(w)));
      mPausedThreads := mPausedThreads - 1;
    }

    method StopRequired(ghost s: Pool, ghost w: nat) returns (stop: bool)
      requires Shows(s) && Enabled(s, CheckStop(w))
      ensures Shows(Apply(s, CheckStop(w))) && stop == (Apply(s, CheckStop(w)).workers[w] == Leaving)
    {
      hide Inv;
      StepKeepsInv(s, CheckStop(w));
      stop := stopper;
    }

    /** The pop of the worker loop: the hook of the oldest task not popped yet, which then is this worker's, or null if
        there is none. */
    method PopTask(ghost s: Pool, ghost w: nat) returns (hook: ListHook?)
      requires Shows(s) && Enabled(s, Pop(w))
      modifies queue, queue.nodes
      ensures Shows(Apply(s, Pop(w)))
      ensures if old(queue.nodes) == [] then hook == null && Apply(s, Pop(w)).workers[w] == AtPause
              else hook == old(queue.nodes)[0] && hook in taskOf &&
                   taskOf[hook] == s.pushed - |s.queue| && Apply(s, Pop(w)).workers[w] == Running(taskOf[hook])
      ensures forall i :: 0 <= i < |queue.nodes| ==> queue.nodes[i] in old(queue.nodes)
    {
      hide Wrap32, Linked, Distinct, Inv;
      StepKeepsInv(s, Pop(w));
      FifoOrder(s);
      hook := queue.PopFront();
      if hook != null {
        forall i | 0 <= i < |queue.nodes|
          ensures queue.nodes[i] == old(queue.nodes)[i + 1]
        {
        }
      }
    }

    method Done(ghost s: Pool, ghost w: nat)
      requires Shows(s) && Enabled(s, Step.Done(w))
      modifies this`mFanInExpected
      ensures Shows(Apply(s, Step.Done(w)))
      ensures mFanInExpected == numThreads - Count(Apply(s, Step.Done(w)), Finished) - NotFannedIn(s.adder)
    {
      hide Inv, Count;
      StepKeepsInv(s, Step.Done(w));
      FanInCounts(Apply(s, Step.Done(w)));
      mFanInExpected := mFanInExpected - 1;
    }

    // ----- anybody

    /** push_function, for a queue element that was just allocated. */
    method PushFunction(ghost s: Pool, hook: ListHook)
      requires Shows(s) && hook !in queue.nodes && hook.prev == null && hook.next == null
      modifies this`taskOf, queue, queue.nodes, hook
      ensures Shows(Apply(s, Push)) && taskOf == old(taskOf)[hook := s.pushed]
      ensures queue.nodes == old(queue.nodes) + [hook]
    {
      hide Wrap32, Linked, Distinct, Inv;
      StepKeepsInv(s, Push);
      var ok := queue.PushBack(hook);
      taskOf := taskOf[hook := s.pushed];
    }

    // ----- the sections of add_thread

    method Lock(ghost s: Pool)
      requires Shows(s) && Enabled(s, LockAdd)
      modifies this`locked
      ensures Shows(Apply(s, LockAdd))
    {
      hide Inv;
      StepKeepsInv(s, LockAdd);
      locked := true;
    }

    method StartThread(ghost s: Pool)
      requires Shows(s) && Enabled(s, Spawn)
      modifies this`numThreads
      ensures Shows(Apply(s, Spawn))
    {
      hide Inv;
      StepKeepsInv(s, Spawn);
      numThreads := numThreads + 1;
    }

    method AddFanInThread(ghost s: Pool)
      requires Shows(s) && Enabled(s, AddFanIn)
      modifies this`mFanInExpected
      ensures Shows(Apply(s, AddFanIn))
      ensures mFanInExpected == numThreads - Count(s, Finished)
    {
      hide Inv, Count;
      StepKeepsInv(s, AddFanIn);
      FanInCounts(s);
      mFanInExpected := mFanInExpected + 1;
    }

    method AddPauseThread(ghost s: Pool)
      requires Shows(s) && Enabled(s, AddPause)
      modifies this`mPauseExpected
      ensures Shows(Apply(s, AddPause)) && mPauseExpected == numThreads
    {
      hide Phased, Fifo, Conserved, Count;
      StepKeepsInv(s, AddPause);
      mPauseExpected := mPauseExpected + 1;
    }

    method Unlock(ghost s: Pool)
      requires Shows(s) && Enabled(s, UnlockAdd)
      modifies this`locked
      ensures Shows(Apply(s, UnlockAdd))
    {
      hide Inv;
      StepKeepsInv(s, UnlockAdd);
      locked := false;
    }

    // ----- the sections of the controller

    method RequestPause(ghost s: Pool)
      requires Shows(s) && Enabled(s, CallPause)
      modifies this`mPause
      ensures Shows(Apply(s, CallPause))
    {
      hide Inv;
      StepKeepsInv(s, CallPause);
      mPause := true;
    }

    /** The predicate pause() waits for: unless a thread is half added, that every worker is blocked. */
    method AllPaused(ghost s: Pool) returns (over: bool)
      requires Shows(s) && s.controller == Pausing
      ensures over <==> Count(s, Blocked) == |s.workers| - NotExpected(s.adder)
      ensures s.adder == Free || s.adder == Adding ==> (over <==> AllAre(s, Blocked))
      ensures over == Enabled(s, PauseReturns) && (over ==> Shows(Apply(s, PauseReturns)))
    {
      hide Fifo, Conserved;
      over := mPausedThreads == mPauseExpected;
      CountIsAll(s.workers, Blocked);
      if over {
        StepKeepsInv(s, PauseReturns);
      }
    }

    method RequestResume(ghost s: Pool)
      requires Shows(s) && Enabled(s, CallResume)
      modifies this`mPause
      ensures Shows(Apply(s, CallResume))
    {
      hide Inv;
      StepKeepsInv(s, CallResume);
      mPause := false;
    }

    /** The predicate resume() waits for: that no worker is blocked. */
    method NonePaused(ghost s: Pool) returns (over: bool)
      requires Shows(s) && s.controller == Resuming
      ensures over <==> Blocked !in s.workers
      ensures over == Enabled(s, ResumeReturns) && (over ==> Shows(Apply(s, ResumeReturns)))
    {
      hide Fifo, Conserved;
      over := mPausedThreads == 0;
      assert Blocked in s.workers <==> Blocked in multiset(s.workers);
      if over {
        StepKeepsInv(s, ResumeReturns);
      }
    }

    /** get_numthreads, called by stop() while nobody holds the mutex: no thread is missing from either count. */
    method GetNumThreads(ghost s: Pool) returns (n: nat)
      requires Shows(s) && s.adder == Free
      ensures n == |s.workers| == mPauseExpected && n - Count(s, Finished) == mFanInExpected
      ensures Enabled(s, CountThreads) ==> Shows(Apply(s, CountThreads))
    {
      hide Phased, Fifo, Conserved, Count;
      n := numThreads;
      if Enabled(s, CountThreads) {
        StepKeepsInv(s, CountThreads);
      }
    }

    method RequestStop(ghost s: Pool)
      requires Shows(s) && Enabled(s, SetStop)
      modifies this`stopper
      ensures Shows(Apply(s, SetStop))
    {
      hide Inv;
      StepKeepsInv(s, SetStop);
      stopper := true;
    }

    /** The predicate FanInPoint::wait waits for: unless a thread is started and uncounted, that every worker has
        finished. */
    method AllDone(ghost s: Pool) returns (over: bool)
      requires Shows(s) && s.controller == Stopping
      ensures over <==> Count(s, Finished) == |s.workers| - NotFannedIn(s.adder)
      ensures s.adder != Started ==> (over <==> AllAre(s, Finished))
      ensures over == Enabled(s, StopReturns) && (over ==> Shows(Apply(s, StopReturns)))
    {
      hide Fifo, Conserved;
      over := mFanInExpected == 0;
      CountIsAll(s.workers, Finished);
      if over {
        StepKeepsInv(s, StopReturns);
      }
    }

    // ----- what the list on the heap holds

    /** The hooks in the list sit in the latest pushed tasks, in push order, and the tasks before those are the popped
        ones: each is held by exactly one worker or executed exactly once. */
    ghost predicate HooksInOrder(s: Pool)
      reads this, queue, queue.nodes
    {
      && |queue.nodes| <= s.pushed
      && (forall i :: 0 <= i < |queue.nodes| ==>
            queue.nodes[i] in taskOf && taskOf[queue.nodes[i]] == s.pushed - |queue.nodes| + i)
      && (forall t: nat :: t < s.pushed - |queue.nodes| <==> Running(t) in s.workers || t in s.executed)
      && (forall t: nat :: InOnePlace(s, t))
    }

    lemma HooksOf(s: Pool)
      requires Shows(s)
      ensures HooksInOrder(s)
    {
      hide Inv, InOnePlace;
      FifoOrder(s);
      QueueIs(s);
      forall t: nat
        ensures InOnePlace(s, t)
        ensures t < s.pushed - |s.queue| <==> Running(t) in s.workers || t in s.executed
      {
        OnePlace(s, t);
        Popped(s, t);
      }
    }

    lemma QueueIs(s: Pool)
      requires Inv(s)
      ensures forall i :: 0 <= i < |s.queue| ==> s.queue[i] == s.pushed - |s.queue| + i
    {
      hide Counted, Phased, Conserved;
    }

    lemma Popped(s: Pool, t: nat)
      requires InOnePlace(s, t) && InPushOrder(s)
      ensures t < s.pushed - |s.queue| <==> Running(t) in s.workers || t in s.executed
    {
    }
  }

  // ----- whole runs

  /** One step of any thread, on the objects. */
  method Perform(p: SharedPool, ghost s: Pool, step: Step)
    requires p.Shows(s) && Enabled(s, step)
    modifies p, p.queue, p.queue.nodes
    ensures p.Shows(Apply(s, step))
    ensures forall i :: 0 <= i < |p.queue.nodes| ==>
              p.queue.nodes[i] in old(p.queue.nodes) || fresh(p.queue.nodes[i])
  {
    hide Wrap32, Linked, Distinct, Inv, Count;
    match step {
      case Push =>
        var hook := new ListHook();
        p.PushFunction(s, hook);
      case CheckPause(w) => var waits := p.PauseIfRequired(s, w);
      case Wake(w) => p.LeavePause(s, w);
      case CheckStop(w) => var stop := p.StopRequired(s, w);
      case Pop(w) => var hook := p.PopTask(s, w);
      case Finish(w) => StepKeepsInv(s, step);
      case Done(w) => p.Done(s, w);
      case LockAdd => p.Lock(s);
      case Spawn => p.StartThread(s);
      case AddFanIn => p.AddFanInThread(s);
      case AddPause => p.AddPauseThread(s);
      case UnlockAdd => p.Unlock(s);
      case CallPause => p.RequestPause(s);
      case PauseReturns => var over := p.AllPaused(s);
      case CallResume => p.RequestResume(s);
      case ResumeReturns => var over := p.NonePaused(s);
      case CountThreads => var n := p.GetNumThreads(s);
      case SetStop => p.RequestStop(s);
      case StopReturns => var over := p.AllDone(s);
    }
  }

  /** Every run of the machine, on the objects: they end in the state the machine ends in, with as many threads counted
      as paused as there are workers blocked, and with the hooks of exactly the tasks not popped yet in the list, in
      the order they were pushed. */
  method Execute(steps: seq<Step>) returns (p: SharedPool)
    requires CanRun(START, steps)
    ensures p.Shows(After(START, steps)) && p.HooksInOrder(After(START, steps))
    ensures p.mPausedThreads == Count(After(START, steps), Blocked)
    ensures var s := After(START, steps);
            p.mFanInExpected == p.numThreads - Count(s, Finished) - NotFannedIn(s.adder)
  {
    hide Inv, Apply, Enabled, Count;
    p := new SharedPool();
    ghost var s := START;
    var i := 0;
    assert steps[0..] == steps;
    while i < |steps|
      invariant i <= |steps| && fresh(p) && fresh(p.queue) && fresh(p.queue.nodes)
      invariant p.Shows(s) && CanRun(s, steps[i..]) && After(s, steps[i..]) == After(START, steps)
    {
      assert steps[i..][1..] == steps[i + 1..];
      Perform(p, s, steps[i]);
      s := Apply(s, steps[i]);
      i := i + 1;
    }
    p.HooksOf(s);
    PauseCounts(s);
    FanInCounts(s);
  }

  // ----- SyncPoint

  class SharedSync {
    var mExpectedThreads: int

    /** The counter of a point that expects `expected` of `n` threads, in a state the machine reaches. */
    ghost predicate Shows(expected: int, n: nat, s: SyncPoints.Sync)
      reads this
    {
      SyncPoints.Inv(expected, n, s) && mExpectedThreads == s.expectedThreads
    }

    constructor (expected: int, ghost n: nat)
      ensures Shows(expected, n, SyncPoints.Start(expected, n))
    {
      mExpectedThreads := expected;
      new;
      SyncPoints.Reachable(expected, n, []);
    }

    /** sync() up to its wait.  It comes to that except for the caller that completes the expected number. */
    method Sync(ghost expected: int, ghost n: nat, ghost s: SyncPoints.Sync, ghost i: nat) returns (waits: bool)
      requires Shows(expected, n, s) && SyncPoints.Enabled(s, SyncPoints.Enter(i))
      modifies this
      ensures Shows(expected, n, SyncPoints.Apply(s, SyncPoints.Enter(i)))
      ensures waits == (SyncPoints.Apply(s, SyncPoints.Enter(i)).callers[i] == SyncPoints.Waiting)
      ensures waits <==> SyncPoints.Entered(s) + 1 != expected
    {
      hide SyncPoints.Entered;
      SyncPoints.StepKeepsInv(expected, n, s, SyncPoints.Enter(i));
      mExpectedThreads := mExpectedThreads - 1;
      waits := mExpectedThreads != 0;
    }

    /** The predicate sync() waits for: that as many as expected have entered. */
    method AllEntered(ghost expected: int, ghost n: nat, ghost s: SyncPoints.Sync, ghost i: nat) returns (over: bool)
      requires Shows(expected, n, s) && i < |s.callers| && s.callers[i] == SyncPoints.Waiting
      ensures over <==> SyncPoints.Entered(s) == expected
      ensures over == SyncPoints.Enabled(s, SyncPoints.Wake(i))
      ensures over ==> Shows(expected, n, SyncPoints.Apply(s, SyncPoints.Wake(i)))
    {
      over := mExpectedThreads == 0;
      if over {
        SyncPoints.StepKeepsInv(expected, n, s, SyncPoints.Wake(i));
      }
    }
  }
}
