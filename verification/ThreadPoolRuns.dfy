/**
 What the thread pool promises about whole runs: where each request is, what happens to it, that no
 state is a deadlock, and that shutting down releases every worker.
 */
module ThreadPoolRuns {
  import opened ThreadPool
  import opened ThreadPoolSafety

  // ---------- every request is in exactly one place ----------

  /** The spots in which a request can be found. */
  datatype Spot = InPool(k: nat) | WithWorker(i: nat) | WithLoop(l: nat) | InCompletion(l: nat, k: nat) | Reported

  /** Request `r` is at `spot`, read off the queues and program counters alone. */
  predicate At(s: State, r: Id, spot: Spot) {
    match spot
    case InPool(k) => k < |s.pool| && s.pool[k] == Req(r)
    case WithWorker(i) => i < |s.workers| && PcPlace(i, s.workers[i]).Some? && PcPlace(i, s.workers[i]).value.0 == r
    case WithLoop(l) => l < |s.loops| && !s.loops[l].op.CancelIn? && OpPlace(s.loops[l].op).Some?
        && OpPlace(s.loops[l].op).value.0 == r
    case InCompletion(l, k) => l < |s.loops| && k < |s.loops[l].batch + s.loops[l].queue|
        && (s.loops[l].batch + s.loops[l].queue)[k] == r
    case Reported => r in s.reqs && s.reqs[r].done > 0
  }

  /** The spot that goes with the place of a request. */
  ghost predicate Fits(s: State, r: Id, spot: Spot)
    requires r in s.reqs
  {
    var q := s.reqs[r];
    match spot
    case InPool(k) => q.place.Pool?
    case WithWorker(i) => q.place == AtWorker(i) || q.place == RanAt(i)
    case WithLoop(l) => q.loop == l && (q.place.Posting? || q.place.Moving? || q.place.Marked?)
    case InCompletion(l, _) => q.loop == l && InCompletions(q.place)
    case Reported => q.place.Finished?
  }

  lemma AtFits(s: State, r: Id, spot: Spot)
    requires Inv(s) && At(s, r, spot)
    ensures r in s.reqs && Fits(s, r, spot)
  {
    match spot
    case InPool(k) => assert s.pool[k] in s.pool;
    case WithWorker(i) => assert PlaceHolds(PcPlace(i, s.workers[i]), s.reqs);
    case WithLoop(l) => assert OpOk(s.loops[l].op, l, s.reqs);
    case InCompletion(l, k) =>
      assert LoopPlaces(s.loops[l], l, s.reqs);
      assert (s.loops[l].batch + s.loops[l].queue)[k] in s.loops[l].batch + s.loops[l].queue;
    case Reported => assert RequestOk(s.reqs[r]);
  }

  /** In every reachable state no request is in two spots. */
  lemma OneSpot(s: State, r: Id, a: Spot, b: Spot)
    requires Inv(s) && At(s, r, a) && At(s, r, b)
    ensures a == b
  {
    AtFits(s, r, a);
    AtFits(s, r, b);
    if a.InCompletion? {
      assert LoopPlaces(s.loops[a.l], a.l, s.reqs);
    }
  }

  /** ... and each submitted request is in one. */
  lemma SomeSpot(s: State, r: Id) returns (spot: Spot)
    requires Inv(s) && r in s.reqs
    ensures At(s, r, spot)
  {
    var q := s.reqs[r];
    if q.place.Pool? {
      assert Req(r) in s.pool;
      var k :| 0 <= k < |s.pool| && s.pool[k] == Req(r);
      spot := InPool(k);
    } else if IsWorkerPlace(q.place) {
      spot := WithWorker(q.place.i);
    } else if InCompletions(q.place) {
      var lp := s.loops[q.loop];
      assert LoopPlaces(lp, q.loop, s.reqs);
      var k :| 0 <= k < |lp.batch + lp.queue| && (lp.batch + lp.queue)[k] == r;
      spot := InCompletion(q.loop, k);
    } else if q.place.Finished? {
      assert RequestOk(q);
      spot := Reported;
    } else {
      spot := WithLoop(q.loop);
    }
  }

  // ---------- what happens to a request ----------

  /** The step calls the work function of `r`. */
  predicate Works(s: State, step: Step, r: Id) {
    step.ByWorkerThread? && step.w.Work? && step.i < |s.workers| && s.workers[step.i] == Run(r)
  }

  /** The step calls the completion callback of `r`. */
  predicate Reports(s: State, step: Step, r: Id) {
    step.ByReporter? && step.d.Report? && step.l < |s.loops| && s.loops[step.l].batch != []
        && s.loops[step.l].batch[0] == r
  }

  /** The step is the return of a successful cancellation of `r`. */
  predicate Cancelling(s: State, step: Step, r: Id) {
    step.ByCanceller? && step.c.UnlockAgain? && step.l < |s.loops| && s.loops[step.l].op == CancelIn(r)
  }

  predicate IsSubmit(step: Step, r: Id) { step.ByPoster? && step.p.Submit? && step.p.r == r }

  /** What one step does to the records of one request. */
  predicate Recorded(s: State, step: Step, r: Id, q: Request, q': Request) {
    && q'.ran == q.ran + (if Works(s, step, r) then 1 else 0)
    && q'.done == q.done + (if Reports(s, step, r) then 1 else 0)
    && (q'.cancelOk <==> q.cancelOk || Cancelling(s, step, r))
    && q'.err == if Reports(s, step, r) then q.work.Cancelled? else q.err
  }

  lemma StepRecords(s: State, step: Step, r: Id)
    requires Can(s, step) && r in s.reqs
    ensures r in Do(s, step).reqs && Recorded(s, step, r, s.reqs[r], Do(s, step).reqs[r])
  {
    match step
    case ByWorkerThread(i, w) => WorkerRecords(s, i, w, r);
    case ByPoster(l, p) =>
    case ByCanceller(l, c) => CancelRecords(s, l, c, r);
    case ByReporter(l, d) =>
    case ByMainThread(e) =>
  }

  lemma WorkerRecords(s: State, i: nat, w: WorkerStep, r: Id)
    requires WorkerCan(s, i, w) && r in s.reqs
    ensures r in WorkerDo(s, i, w).reqs && Recorded(s, ByWorkerThread(i, w), r, s.reqs[r], WorkerDo(s, i, w).reqs[r])
  {
  }

  lemma CancelRecords(s: State, l: nat, c: CancelStep, r: Id)
    requires CancelCan(s, l, c) && r in s.reqs
    ensures r in CancelDo(s, l, c).reqs && Recorded(s, ByCanceller(l, c), r, s.reqs[r], CancelDo(s, l, c).reqs[r])
  {
  }

  lemma NewRecords(s: State, step: Step, r: Id)
    requires Can(s, step) && r !in s.reqs && r in Do(s, step).reqs
    ensures IsSubmit(step, r)
    ensures var q' := Do(s, step).reqs[r]; q'.ran == 0 && q'.done == 0 && !q'.cancelOk
  {
  }

  /** How often the work of `r` was called in the first `n` steps. */
  function WorkCalls(ss: seq<State>, steps: seq<Step>, r: Id, n: nat): nat
    requires n <= |steps| <= |ss|
  {
    if n == 0 then 0 else WorkCalls(ss, steps, r, n - 1) + if Works(ss[n-1], steps[n-1], r) then 1 else 0
  }

  function DoneCalls(ss: seq<State>, steps: seq<Step>, r: Id, n: nat): nat
    requires n <= |steps| <= |ss|
  {
    if n == 0 then 0 else DoneCalls(ss, steps, r, n - 1) + if Reports(ss[n-1], steps[n-1], r) then 1 else 0
  }

  /** Some cancellation of `r` returned success in the first `n` steps. */
  ghost predicate CancelledBefore(ss: seq<State>, steps: seq<Step>, r: Id, n: nat)
    requires n <= |steps| <= |ss|
  {
    exists k :: 0 <= k < n && Cancelling(ss[k], steps[k], r)
  }

  /** The records of a request count the calls made so far. */
  lemma {:induction false} RecordsCount(ss: seq<State>, steps: seq<Step>, r: Id, n: nat)
    requires IsRun(ss, steps) && n < |ss|
    ensures r in ss[n].reqs ==>
      && ss[n].reqs[r].ran == WorkCalls(ss, steps, r, n)
      && ss[n].reqs[r].done == DoneCalls(ss, steps, r, n)
      && (ss[n].reqs[r].cancelOk <==> CancelledBefore(ss, steps, r, n))
    ensures r !in ss[n].reqs ==>
      && WorkCalls(ss, steps, r, n) == 0 && DoneCalls(ss, steps, r, n) == 0
      && !CancelledBefore(ss, steps, r, n)
  {
    if n > 0 {
      RecordsCount(ss, steps, r, n - 1);
      RunsOk(ss, steps, n - 1);
      var s, step := ss[n-1], steps[n-1];
      if r in s.reqs {
        StepRecords(s, step, r);
      } else {
        NotYet(s, step, r);
        if r in ss[n].reqs { NewRecords(s, step, r); }
      }
    }
  }

  /** Nothing happens to a request that was not submitted. */
  lemma NotYet(s: State, step: Step, r: Id)
    requires Inv(s) && Can(s, step) && r !in s.reqs
    ensures !Works(s, step, r) && !Reports(s, step, r) && !Cancelling(s, step, r)
  {
    if Cancelling(s, step, r) { Holding(s, step.l); }
  }

  /**
   The outcome of every request in every run.  Its callback is called at most once, its work at most
   once, and not at all if some cancellation of it returned success before or after.
   */
  lemma Outcome(ss: seq<State>, steps: seq<Step>, r: Id)
    requires IsRun(ss, steps)
    ensures WorkCalls(ss, steps, r, |steps|) <= 1 && DoneCalls(ss, steps, r, |steps|) <= 1
    ensures CancelledBefore(ss, steps, r, |steps|) ==> WorkCalls(ss, steps, r, |steps|) == 0
  {
    var m := |steps|;
    RunsOk(ss, steps, m);
    RecordsCount(ss, steps, r, m);
    if r in ss[m].reqs { assert RequestOk(ss[m].reqs[r]); }
  }

  /**
   What the callback of a request means, at step `n` of any run: it gets the cancellation error exactly
   if some cancellation returned success, and then the work was never called; otherwise the work was
   called exactly once, before.
   */
  lemma CallbackMeans(ss: seq<State>, steps: seq<Step>, r: Id, n: nat)
    requires IsRun(ss, steps) && n < |steps| && Reports(ss[n], steps[n], r)
    ensures r in ss[n+1].reqs
    ensures ss[n+1].reqs[r].err <==> CancelledBefore(ss, steps, r, n)
    ensures ss[n+1].reqs[r].err <==> CancelledBefore(ss, steps, r, |steps|)
    ensures WorkCalls(ss, steps, r, n) == if ss[n+1].reqs[r].err then 0 else 1
    ensures DoneCalls(ss, steps, r, n) == 0
  {
    RunsOk(ss, steps, n);
    RecordsCount(ss, steps, r, n);
    NotYetReported(ss[n], steps[n], r);
    StepRecords(ss[n], steps[n], r);
    assert RequestOk(ss[n].reqs[r]);
    forall k | n <= k < |steps| ensures !Cancelling(ss[k], steps[k], r) {
      if n < k {
        FinishedStays(ss, steps, r, n + 1, k);
        RunsOk(ss, steps, k);
        if Cancelling(ss[k], steps[k], r) { Holding(ss[k], steps[k].l); }
      }
    }
  }

  lemma NotYetReported(s: State, step: Step, r: Id)
    requires Inv(s) && Can(s, step) && Reports(s, step, r)
    ensures r in s.reqs && s.reqs[r].place.Complete? && Do(s, step).reqs[r].place.Finished?
  {
    var lp := s.loops[step.l];
    assert LoopPlaces(lp, step.l, s.reqs);
    assert r == (lp.batch + lp.queue)[0];
    assert r in lp.batch + lp.queue;
    Holding(s, step.l);
  }

  /** A reported request stays reported. */
  lemma {:induction false} FinishedStays(ss: seq<State>, steps: seq<Step>, r: Id, n: nat, k: nat)
    requires IsRun(ss, steps) && n <= k < |ss| && r in ss[n].reqs && ss[n].reqs[r].place.Finished?
    ensures r in ss[k].reqs && ss[k].reqs[r].place.Finished?
  {
    if n < k {
      FinishedStays(ss, steps, r, n, k - 1);
      RunsOk(ss, steps, k - 1);
      FinishedStep(ss[k-1], steps[k-1], r);
    }
  }

  lemma FinishedStep(s: State, step: Step, r: Id)
    requires Inv(s) && Can(s, step) && r in s.reqs && s.reqs[r].place.Finished?
    ensures r in Do(s, step).reqs && Do(s, step).reqs[r].place.Finished?
  {
    StepRecords(s, step, r);
    StepKeeps(s, step);
    assert RequestOk(s.reqs[r]) && RequestOk(Do(s, step).reqs[r]);
  }

  /** The marker that stands for a cancelled request is never called as a work function. */
  lemma NeverCallsMarker(s: State, step: Step, r: Id)
    requires Inv(s) && Can(s, step) && Works(s, step, r)
    ensures r in s.reqs && s.reqs[r].work.Job?
  {
    assert PlaceHolds(PcPlace(step.i, s.workers[step.i]), s.reqs);
    assert RequestOk(s.reqs[r]);
  }

  /**
   No wake-up is lost: whenever the pool mutex is free and the queue is not empty, either all workers
   have left or one of them is on its way to the queue.
   */
  lemma NoLostWakeUp(ss: seq<State>, steps: seq<Step>, n: nat)
    requires IsRun(ss, steps) && n < |ss| && ss[n].poolMutex.Free? && ss[n].pool != []
    ensures SomeActive(ss[n].workers) || forall i :: 0 <= i < |ss[n].workers| ==> ss[n].workers[i].Exited?
  {
    RunsOk(ss, steps, n);
    var s := ss[n];
    assert !SignalDue(s.loops, s.main);
    if i :| 0 <= i < |s.workers| && !s.workers[i].Exited? {
      assert s.workers[i].Waiting? ==> SomeWaits(s.workers);
      assert !HoldsPool(s.workers[i]);
    }
  }

  /** A worker never holds the pool mutex and a loop mutex together. */
  lemma NeverBoth(ss: seq<State>, steps: seq<Step>, n: nat, i: nat, l: nat)
    requires IsRun(ss, steps) && n < |ss| && i < |ss[n].workers| && l < |ss[n].loopMutex|
    ensures !(ss[n].poolMutex == ByWorker(i) && ss[n].loopMutex[l] == ByWorker(i))
  {
    RunsOk(ss, steps, n);
    var s := ss[n];
    assert HoldsPool(s.workers[i]) <==> s.poolMutex == ByWorker(i);
    assert InLoop(s.workers[i], s.reqs, l) <==> s.loopMutex[l] == ByWorker(i);
  }
}
