/**
 The thread pool never deadlocks, comes to rest after boundedly many steps, and at rest has finished
 its requests; after the exit message every worker has left.
 */
module ThreadPoolLiveness {
  import opened Options
  import opened ThreadPool
  import opened ThreadPoolSafety

  /** Steps the library takes by itself, as opposed to new calls by its user and spurious wake-ups. */
  predicate Internal(step: Step) {
    match step
    case ByWorkerThread(_, w) => !w.Spurious?
    case ByPoster(_, p) => !p.Submit?
    case ByCanceller(_, c) => !c.Begin?
    case ByReporter(_, _) => true
    case ByMainThread(e) => !e.ExitBegin?
  }

  ghost predicate Enabled(s: State) { exists step :: Internal(step) && Can(s, step) }

  predicate RestingWorker(pc: WorkerPc) { pc.Waiting? || pc.Exited? }
  predicate RestingLoop(lp: Loop) { lp.op.Idle? && !lp.reporting && !lp.async }
  predicate RestingMain(m: Main) { m.Before? || m.After? }

  /** Nobody is doing anything. */
  predicate AtRest(s: State) {
    && RestingMain(s.main)
    && (forall i :: 0 <= i < |s.workers| ==> RestingWorker(s.workers[i]))
    && (forall l :: 0 <= l < |s.loops| ==> RestingLoop(s.loops[l]))
  }

  // ---------- no deadlock ----------

  lemma ChooseWake(ws: Workers) returns (wake: Option<nat>)
    ensures ValidWake(ws, wake)
  {
    if j: nat :| j < |ws| && ws[j].Waiting? {
      wake := Some(j);
    } else {
      wake := None;
    }
  }

  /** Whoever holds a loop mutex can go on. */
  lemma LoopHolderMoves(s: State, l: nat) returns (step: Step)
    requires Inv(s) && l < |s.loops| && l < |s.loopMutex| && !s.loopMutex[l].Free?
    ensures Internal(step) && Can(s, step)
  {
    Holding(s, l);
    assert OwnerOk(s.loopMutex[l], l, |s.workers|);
    if s.loopMutex[l].ByWorker? {
      var i := s.loopMutex[l].i;
      assert InLoop(s.workers[i], s.reqs, l);
      step := ByWorkerThread(i, if s.workers[i].HasLoop? then Publish else UnlockLoop);
    } else {
      var op := s.loops[l].op;
      if op.DoneHave? { step := ByReporter(l, Split); }
      else if op.DoneSplit? { step := ByReporter(l, DoneUnlock); }
      else if op.CancelBoth? { step := ByCanceller(l, Test); }
      else if op.CancelTested? { step := ByCanceller(l, UnlockLoopFirst); }
      else if op.CancelLoop? { step := ByCanceller(l, Insert); }
      else { step := ByCanceller(l, UnlockAgain); }
    }
  }

  /** Whoever holds the pool mutex can go on, or waits for the holder of a loop mutex who can. */
  lemma PoolHolderMoves(s: State) returns (step: Step)
    requires Inv(s) && !s.poolMutex.Free?
    ensures Internal(step) && Can(s, step)
  {
    var wake := ChooseWake(s.workers);
    match s.poolMutex
    case ByWorker(i) =>
      if s.pool != [] { assert s.pool[0] in s.pool; }
      step := ByWorkerThread(i, if s.workers[i].Check? then CheckQueue(wake) else Unlock);
    case ByMain =>
      step := ByMainThread(if s.main.ExitHave? then ExitInsert else if s.main.ExitIn? then ExitSignal(wake)
          else ExitUnlock);
    case ByLoop(l) =>
      Holding(s, l);
      step := LoopInPool(s, l, wake);
  }

  lemma LoopInPool(s: State, l: nat, wake: Option<nat>) returns (step: Step)
    requires Inv(s) && l < |s.loops| && OpHoldsPool(s.loops[l].op) && ValidWake(s.workers, wake)
    ensures Internal(step) && Can(s, step)
  {
    Holding(s, l);
    var op := s.loops[l].op;
    if op.PostHave? { step := ByPoster(l, PostInsert); }
    else if op.PostIn? { step := ByPoster(l, PostSignal(wake)); }
    else if op.PostSignalled? { step := ByPoster(l, PostUnlock); }
    else if op.CancelPoolOnly? { step := ByCanceller(l, UnlockPool); }
    else if op.CancelPool? && s.loopMutex[l].Free? { step := ByCanceller(l, LockBoth); }
    else { step := LoopHolderMoves(s, l); }
  }

  lemma WorkerMovesOn(s: State, i: nat) returns (step: Step)
    requires Inv(s) && i < |s.workers| && !RestingWorker(s.workers[i]) && s.poolMutex.Free?
    ensures Internal(step) && Can(s, step)
  {
    var pc := s.workers[i];
    assert PlaceHolds(PcPlace(i, pc), s.reqs);
    if pc.Start? || pc.Woken? { step := ByWorkerThread(i, Lock); }
    else if pc.Run? { step := ByWorkerThread(i, Work); }
    else {
      var l := s.reqs[pc.r].loop;
      if s.loopMutex[l].Free? {
        assert !InLoop(pc, s.reqs, l);
        step := ByWorkerThread(i, LockLoop);
      } else {
        step := LoopHolderMoves(s, l);
      }
    }
  }

  lemma LoopMovesAlong(s: State, l: nat) returns (step: Step)
    requires Inv(s) && l < |s.loops| && !RestingLoop(s.loops[l]) && s.poolMutex.Free?
    ensures Internal(step) && Can(s, step)
  {
    Holding(s, l);
    var lp := s.loops[l];
    if !s.loopMutex[l].Free? { step := LoopHolderMoves(s, l); }
    else if lp.op.PostWant? { step := ByPoster(l, PostLock); }
    else if lp.op.CancelWant? { step := ByCanceller(l, LockPool); }
    else if lp.op.CancelMark? { step := ByCanceller(l, Mark); }
    else if lp.op.CancelWantLoop? { step := ByCanceller(l, LockAgain); }
    else if lp.op.DoneWant? { step := ByReporter(l, DoneLock); }
    else if !lp.reporting { step := ByReporter(l, Notice); }
    else if lp.batch == [] { step := ByReporter(l, End); }
    else {
      assert LoopPlaces(lp, l, s.reqs);
      assert (lp.batch + lp.queue)[0] == lp.batch[0];
      assert lp.batch[0] in lp.batch + lp.queue;
      step := ByReporter(l, Report);
    }
  }

  /** No deadlock: in every reachable state that is not at rest some thread can take a step. */
  lemma NoDeadlock(s: State)
    requires Inv(s) && !AtRest(s)
    ensures Enabled(s)
  {
    var step: Step;
    if !s.poolMutex.Free? {
      step := PoolHolderMoves(s);
    } else if !RestingMain(s.main) {
      step := ByMainThread(ExitLock);
    } else if i: nat :| i < |s.workers| && !RestingWorker(s.workers[i]) {
      step := WorkerMovesOn(s, i);
    } else {
      var l: nat :| l < |s.loops| && !RestingLoop(s.loops[l]);
      step := LoopMovesAlong(s, l);
    }
    assert Internal(step) && Can(s, step);
  }

  // ---------- what rest means ----------

  /**
   At rest before shutdown, every request has been reported.  At rest after shutdown every worker has
   left, and a request that has not been reported sits in the queue behind the exit message.
   */
  lemma RestMeans(s: State)
    requires Inv(s) && AtRest(s) && |s.workers| > 0
    ensures s.main.Before? ==> s.pool == [] && forall r :: r in s.reqs ==> s.reqs[r].done == 1
    ensures s.main.After? ==>
      && (forall i :: 0 <= i < |s.workers| ==> s.workers[i].Exited?)
      && s.pool != [] && s.pool[0] == ExitMessage
      && (forall r :: r in s.reqs ==> s.reqs[r].done == 1 || Req(r) in s.pool[1..])
  {
    assert !SignalDue(s.loops, s.main);
    if s.main.Before? {
      assert RestingWorker(s.workers[0]);
      assert s.workers[0].Waiting?;
    } else {
      assert forall i :: 0 <= i < |s.workers| ==> RestingWorker(s.workers[i]);
      assert s.workers[0].Exited?;
      assert forall x :: x in s.pool <==> x == s.pool[0] || x in s.pool[1..];
    }
    forall r | r in s.reqs ensures s.reqs[r].done == 1 || Req(r) in s.pool { DoneOrQueued(s, r); }
  }

  lemma DoneOrQueued(s: State, r: Id)
    requires Inv(s) && AtRest(s) && r in s.reqs
    ensures s.reqs[r].done == 1 || Req(r) in s.pool
  {
    var q := s.reqs[r];
    assert RequestOk(q) && q.loop < |s.loops|;
    Holding(s, q.loop);
    assert RestingLoop(s.loops[q.loop]);
    assert LoopPlaces(s.loops[q.loop], q.loop, s.reqs);
    assert IsWorkerPlace(q.place) ==> RestingWorker(s.workers[q.place.i]);
  }

  // ---------- rest is reached ----------

  function Total<T>(s: seq<T>, f: T -> nat): nat {
    if s == [] then 0 else f(s[0]) + Total(s[1..], f)
  }

  lemma {:induction false} TotalUpdate<T>(s: seq<T>, f: T -> nat, i: nat, x: T)
    requires i < |s|
    ensures Total(s[i := x], f) + f(s[i]) == Total(s, f) + f(x)
  {
    if i == 0 {
      assert s[i := x][1..] == s[1..];
    } else {
      assert s[i := x][1..] == s[1..][i-1 := x];
      TotalUpdate(s[1..], f, i - 1, x);
    }
  }

  lemma {:induction false} TotalAppend<T>(s: seq<T>, f: T -> nat, x: T)
    ensures Total(s + [x], f) == Total(s, f) + f(x)
  {
    if s == [] {
      assert s + [x] == [x];
    } else {
      assert (s + [x])[1..] == s[1..] + [x];
      TotalAppend(s[1..], f, x);
    }
  }

  lemma {:induction false} TotalWithout<T>(s: seq<T>, f: T -> nat, x: T)
    ensures Total(Without(s, x), f) <= Total(s, f) && |Without(s, x)| <= |s|
  {
    if s != [] {
      TotalWithout(s[1..], f, x);
      if s[0] != x {
        assert Without(s, x)[1..] == Without(s[1..], x);
      }
    }
  }

  function ItemCost(x: Item): nat { if x.Req? then 13 else 0 }

  function WorkerCost(pc: WorkerPc): nat {
    match pc
    case Start => 5 case Check => 4 case Waiting => 3 case Woken => 5
    case Taken(_) => 16 case Run(_) => 15 case Ran(_) => 14 case HasLoop(_) => 13 case Published(_) => 6
    case Exiting => 1 case Exited => 0
  }

  function OpCost(op: Op): nat {
    match op
    case Idle => 0
    case PostWant(_) => 20 case PostHave(_) => 19 case PostIn(_) => 4 case PostSignalled(_) => 1
    case CancelWant(_) => 16 case CancelPool(_) => 15 case CancelBoth(_) => 14
    case CancelTested(_, _) => 13 case CancelPoolOnly(_, _) => 12
    case CancelMark(_) => 11 case CancelWantLoop(_) => 10 case CancelLoop(_) => 9 case CancelIn(_) => 1
    case DoneWant => 4 case DoneHave => 3 case DoneSplit => 2
  }

  function LoopCost(lp: Loop): nat {
    |lp.queue| + |lp.batch| + (if lp.reporting then 1 else 0) + (if lp.async then 5 else 0) + OpCost(lp.op)
  }

  function MainCost(m: Main): nat {
    match m
    case Before => 0 case ExitWant => 6 case ExitHave => 5 case ExitIn => 4 case ExitSignalled => 1 case After => 0
  }

  /** A bound on the number of internal steps that can follow. */
  function Cost(s: State): nat {
    Total(s.pool, ItemCost) + Total(s.workers, WorkerCost) + Total(s.loops, LoopCost) + MainCost(s.main)
  }

  lemma WakeCost(ws: Workers, wake: Option<nat>)
    requires wake.Some? ==> wake.value < |ws| && ws[wake.value].Waiting?
    ensures Total(Wake(ws, wake), WorkerCost) <= Total(ws, WorkerCost) + 2
  {
    if wake.Some? { TotalUpdate(ws, WorkerCost, wake.value, Woken); }
  }

  lemma WorkerCosts(s: State, i: nat, w: WorkerStep)
    requires WorkerCan(s, i, w) && !w.Spurious?
    ensures Cost(WorkerDo(s, i, w)) < Cost(s)
  {
    var s' := WorkerDo(s, i, w);
    if w.CheckQueue? && s.pool != [] && s.pool[0].ExitMessage? {
      ExitingCost(s, i, w.wake);
    } else {
      TotalUpdate(s.workers, WorkerCost, i, s'.workers[i]);
      if w.Publish? {
        var l := s.reqs[s.workers[i].r].loop;
        TotalUpdate(s.loops, LoopCost, l, s'.loops[l]);
      }
    }
  }

  /** A worker that leaves may wake another one, and still the cost sinks. */
  lemma ExitingCost(s: State, i: nat, wake: Option<nat>)
    requires WorkerCan(s, i, CheckQueue(wake)) && s.pool != [] && s.pool[0].ExitMessage?
    ensures Cost(WorkerDo(s, i, CheckQueue(wake))) < Cost(s)
  {
    TotalUpdate(s.workers, WorkerCost, i, Exiting);
    WakeCost(s.workers[i := Exiting], wake);
  }

  lemma PostCosts(s: State, l: nat, p: PostStep)
    requires PostCan(s, l, p) && !p.Submit?
    ensures Cost(PostDo(s, l, p)) < Cost(s)
  {
    var s' := PostDo(s, l, p);
    TotalUpdate(s.loops, LoopCost, l, s'.loops[l]);
    if p.PostInsert? { TotalAppend(s.pool, ItemCost, Req(s.loops[l].op.r)); }
    if p.PostSignal? { WakeCost(s.workers, p.wake); }
  }

  lemma CancelCosts(s: State, l: nat, c: CancelStep)
    requires CancelCan(s, l, c) && !c.Begin?
    ensures Cost(CancelDo(s, l, c)) < Cost(s)
  {
    var s' := CancelDo(s, l, c);
    CancelLoopCosts(s, l, c);
    TotalUpdate(s.loops, LoopCost, l, s'.loops[l]);
    CancelPoolCosts(s, l, c);
  }

  lemma CancelLoopCosts(s: State, l: nat, c: CancelStep)
    requires CancelCan(s, l, c) && !c.Begin?
    ensures var s' := CancelDo(s, l, c); |s'.loops| == |s.loops| && LoopCost(s'.loops[l]) < LoopCost(s.loops[l])
  {
    if c.Test? {
      var r := s.loops[l].op.r;
      TotalWithout(s.loops[l].queue, (x: Id) => 1, r);
      TotalWithout(s.loops[l].batch, (x: Id) => 1, r);
    }
  }

  lemma CancelPoolCosts(s: State, l: nat, c: CancelStep)
    requires CancelCan(s, l, c) && !c.Begin?
    ensures var s' := CancelDo(s, l, c);
      && Total(s'.pool, ItemCost) <= Total(s.pool, ItemCost) && s'.workers == s.workers && s'.main == s.main
      && s'.loops == s.loops[l := s'.loops[l]]
  {
    if c.Test? { TotalWithout(s.pool, ItemCost, Req(s.loops[l].op.r)); }
  }

  lemma DoneCosts(s: State, l: nat, d: DoneStep)
    requires DoneCan(s, l, d)
    ensures Cost(DoneDo(s, l, d)) < Cost(s)
  {
    TotalUpdate(s.loops, LoopCost, l, DoneDo(s, l, d).loops[l]);
  }

  lemma ExitCosts(s: State, e: ExitStep)
    requires ExitCan(s, e) && !e.ExitBegin?
    ensures Cost(ExitDo(s, e)) < Cost(s)
  {
    if e.ExitInsert? { TotalAppend(s.pool, ItemCost, ExitMessage); }
    if e.ExitSignal? { WakeCost(s.workers, e.wake); }
  }

  /** Every internal step lowers the bound. */
  lemma StepCosts(s: State, step: Step)
    requires Can(s, step) && Internal(step)
    ensures Cost(Do(s, step)) < Cost(s)
  {
    match step
    case ByWorkerThread(i, w) => WorkerCosts(s, i, w);
    case ByPoster(l, p) => PostCosts(s, l, p);
    case ByCanceller(l, c) => CancelCosts(s, l, c);
    case ByReporter(l, d) => DoneCosts(s, l, d);
    case ByMainThread(e) => ExitCosts(s, e);
  }

  /** Internal steps in any order from the first state. */
  predicate Continues(ss: seq<State>, steps: seq<Step>) {
    && |ss| == |steps| + 1
    && forall i :: 0 <= i < |steps| ==> Internal(steps[i]) && Can(ss[i], steps[i]) && ss[i+1] == Do(ss[i], steps[i])
  }

  lemma {:induction false} ContinuesBounded(ss: seq<State>, steps: seq<Step>, n: nat)
    requires Continues(ss, steps) && Inv(ss[0]) && n < |ss|
    ensures n + Cost(ss[n]) <= Cost(ss[0]) && Inv(ss[n])
    ensures |ss[n].workers| == |ss[0].workers| && (!ss[0].main.Before? ==> !ss[n].main.Before?)
  {
    if n > 0 {
      ContinuesBounded(ss, steps, n - 1);
      StepCosts(ss[n-1], steps[n-1]);
      StepKeeps(ss[n-1], steps[n-1]);
      SameCrew(ss[n-1], steps[n-1]);
    }
  }

  lemma SameCrew(s: State, step: Step)
    requires Can(s, step)
    ensures |Do(s, step).workers| == |s.workers| && (!s.main.Before? ==> !Do(s, step).main.Before?)
  {
  }

  lemma {:induction false} RunsCrew(ss: seq<State>, steps: seq<Step>, n: nat)
    requires IsRun(ss, steps) && n < |ss|
    ensures |ss[n].workers| == |ss[0].workers| > 0
  {
    if n > 0 {
      RunsCrew(ss, steps, n - 1);
      SameCrew(ss[n-1], steps[n-1]);
    }
  }

  /**
   From any reachable state, whatever the scheduling, the pool comes to rest within a bounded number of
   steps, with every request reported; and once shutdown has begun, with every worker gone.
   */
  lemma ComesToRest(run: seq<State>, before: seq<Step>, ss: seq<State>, steps: seq<Step>)
    requires IsRun(run, before) && Continues(ss, steps) && ss[0] == run[|before|]
    ensures |steps| <= Cost(ss[0])
    ensures !Enabled(ss[|steps|]) ==>
      var s := ss[|steps|];
      && (s.main.Before? ==> forall r :: r in s.reqs ==> s.reqs[r].done == 1)
      && (!ss[0].main.Before? ==> forall i :: 0 <= i < |s.workers| ==> s.workers[i].Exited?)
  {
    RunsOk(run, before, |before|);
    RunsCrew(run, before, |before|);
    ContinuesBounded(ss, steps, |steps|);
    var s := ss[|steps|];
    if !Enabled(s) {
      if !AtRest(s) { NoDeadlock(s); }
      RestMeans(s);
    }
  }
}
