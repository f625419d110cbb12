/**
 When a cancellation succeeds, in every run of the thread pool, and that one that does is carried through.
 */
module ThreadPoolCancel {
  import opened Options
  import opened ThreadPool
  import opened ThreadPoolSafety
  import opened ThreadPoolRuns
  import opened ThreadPoolLiveness

  /** Loop `l` makes the test that decides about its cancellation of `r`. */
  predicate Tests(s: State, step: Step, l: nat, r: Id) {
    step.ByCanceller? && step.c.Test? && step.l == l && l < |s.loops| && s.loops[l].op == CancelBoth(r)
  }

  /** Request `r` waits in the pool or is among the completed requests of a loop. */
  ghost predicate Queued(s: State, r: Id) {
    (exists k :: At(s, r, InPool(k))) || (exists l, k :: At(s, r, InCompletion(l, k)))
  }

  /** By their place, the requests that are queued. */
  lemma QueuedPlace(s: State, r: Id)
    requires Inv(s) && r in s.reqs
    ensures Queued(s, r) <==> s.reqs[r].place.Pool? || InCompletions(s.reqs[r].place)
  {
    var spot := SomeSpot(s, r);
    AtFits(s, r, spot);
    if k :| At(s, r, InPool(k)) { AtFits(s, r, InPool(k)); }
    if l, k :| At(s, r, InCompletion(l, k)) { AtFits(s, r, InCompletion(l, k)); }
  }

  /**
   A cancellation succeeds exactly if the request is queued and its work was not called: it waits in the pool, or it
   was cancelled before and is not reported yet.  If it fails, the test has changed nothing.
   */
  lemma CancelExactly(ss: seq<State>, steps: seq<Step>, l: nat, r: Id, n: nat)
    requires IsRun(ss, steps) && n < |steps| && Tests(ss[n], steps[n], l, r)
    ensures l < |ss[n+1].loops| && ss[n+1].loops[l].op.CancelTested? && ss[n+1].loops[l].op.r == r
    ensures ss[n+1].loops[l].op.ok <==> Queued(ss[n], r) && WorkCalls(ss, steps, r, n) == 0
    ensures !ss[n+1].loops[l].op.ok ==>
      ss[n+1] == SetOp(ss[n], l, CancelTested(r, false))
    ensures ss[n+1].loops[l].op.ok ==> !Queued(ss[n+1], r)
  {
    var s := ss[n];
    RunsOk(ss, steps, n);
    RunsOk(ss, steps, n + 1);
    RecordsCount(ss, steps, r, n);
    assert OpOk(s.loops[l].op, l, s.reqs);
    QueuedPlace(s, r);
    assert RequestOk(s.reqs[r]);
    assert !IsOpPlace(s.reqs[r].place);
    if ss[n+1].loops[l].op.ok { QueuedPlace(ss[n+1], r); }
  }

  // ---------- carried through ----------

  /** Between a test that succeeded and the return. */
  predicate OnItsWay(op: Op, r: Id) {
    || op == CancelTested(r, true) || op == CancelPoolOnly(r, true) || op == CancelMark(r)
    || op == CancelWantLoop(r) || op == CancelLoop(r) || op == CancelIn(r)
  }

  ghost predicate Returned(ss: seq<State>, steps: seq<Step>, l: nat, r: Id, n: nat, k: nat)
    requires n <= k <= |steps| <= |ss|
  {
    exists m :: n <= m < k && Cancelling(ss[m], steps[m], r) && steps[m].l == l
  }

  lemma OneStepOn(s: State, step: Step, l: nat, r: Id)
    requires Can(s, step) && l < |s.loops| && OnItsWay(s.loops[l].op, r)
    ensures l < |Do(s, step).loops|
    ensures OnItsWay(Do(s, step).loops[l].op, r) || (Cancelling(s, step, r) && step.l == l)
  {
    match step
    case ByWorkerThread(i, w) => WorkerLeavesOp(s, i, w, l);
    case ByPoster(k, p) =>
    case ByCanceller(k, c) => CancellerGoesOn(s, k, c, l, r);
    case ByReporter(k, d) =>
    case ByMainThread(_) =>
  }

  lemma WorkerLeavesOp(s: State, i: nat, w: WorkerStep, l: nat)
    requires WorkerCan(s, i, w) && l < |s.loops|
    ensures l < |WorkerDo(s, i, w).loops| && WorkerDo(s, i, w).loops[l].op == s.loops[l].op
  {
  }

  lemma CancellerGoesOn(s: State, k: nat, c: CancelStep, l: nat, r: Id)
    requires CancelCan(s, k, c) && l < |s.loops| && OnItsWay(s.loops[l].op, r)
    ensures l < |CancelDo(s, k, c).loops|
    ensures OnItsWay(CancelDo(s, k, c).loops[l].op, r) || (Cancelling(s, ByCanceller(k, c), r) && k == l)
  {
  }

  /** A cancellation whose test succeeded is on its way until it has returned success. */
  lemma {:induction false} CarriedThrough(ss: seq<State>, steps: seq<Step>, l: nat, r: Id, n: nat, k: nat)
    requires IsRun(ss, steps) && n <= k < |ss| && l < |ss[n].loops| && OnItsWay(ss[n].loops[l].op, r)
    ensures Returned(ss, steps, l, r, n, k) || (l < |ss[k].loops| && OnItsWay(ss[k].loops[l].op, r))
  {
    if n < k {
      CarriedThrough(ss, steps, l, r, n, k - 1);
      if Returned(ss, steps, l, r, n, k - 1) {
        var m :| n <= m < k - 1 && Cancelling(ss[m], steps[m], r) && steps[m].l == l;
        assert n <= m < k && Cancelling(ss[m], steps[m], r) && steps[m].l == l;
      } else {
        OneStepOn(ss[k-1], steps[k-1], l, r);
      }
    }
  }

  /** So when the threads have come to rest, it has returned. */
  lemma ReturnsAtRest(ss: seq<State>, steps: seq<Step>, l: nat, r: Id, n: nat, k: nat)
    requires IsRun(ss, steps) && n < k < |ss| && Tests(ss[n], steps[n], l, r) && AtRest(ss[k])
    requires Queued(ss[n], r) && WorkCalls(ss, steps, r, n) == 0
    ensures Returned(ss, steps, l, r, n + 1, k) && CancelledBefore(ss, steps, r, k)
  {
    CancelExactly(ss, steps, l, r, n);
    CarriedThrough(ss, steps, l, r, n + 1, k);
  }

  /** A cancellation that is repeated before the request is reported succeeds again. */
  lemma Repeated(ss: seq<State>, steps: seq<Step>, l: nat, r: Id, n: nat)
    requires IsRun(ss, steps) && n < |steps| && Tests(ss[n], steps[n], l, r) && CancelledBefore(ss, steps, r, n)
    ensures l < |ss[n+1].loops| && ss[n+1].loops[l].op == CancelTested(r, true)
  {
    var s := ss[n];
    RunsOk(ss, steps, n);
    RecordsCount(ss, steps, r, n);
    assert OpOk(s.loops[l].op, l, s.reqs);
    assert RequestOk(s.reqs[r]) && !IsOpPlace(s.reqs[r].place);
    QueuedPlace(s, r);
    CancelExactly(ss, steps, l, r, n);
  }

  /** A loop that is not in the library may submit any new request, and cancel any of its own that is not reported. */
  lemma CallsAllowed(s: State, l: nat, r: Id)
    requires Inv(s) && l < |s.loops| && s.loops[l].op.Idle?
    ensures r !in s.reqs ==> Can(s, ByPoster(l, Submit(r)))
    ensures r in s.reqs && s.reqs[r].loop == l && s.reqs[r].done == 0 ==> Can(s, ByCanceller(l, Begin(r)))
  {
    if r in s.reqs { assert RequestOk(s.reqs[r]); }
  }
}
