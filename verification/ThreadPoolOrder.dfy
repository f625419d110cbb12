/**
 The order in which the thread pool serves requests, in every run: first come, first served.
 */
module ThreadPoolOrder {
  import opened Options
  import opened ThreadPool
  import opened ThreadPoolSafety
  import opened ThreadPoolRuns

  /** Wherever both are in the queue, `x` is before `y`. */
  predicate Ahead<T(==)>(s: seq<T>, x: T, y: T) {
    forall i, j :: 0 <= i < |s| && 0 <= j < |s| && s[i] == x && s[j] == y ==> i < j
  }

  lemma AheadTail<T>(s: seq<T>, x: T, y: T)
    requires s != [] && Ahead(s, x, y)
    ensures Ahead(s[1..], x, y)
  {
  }

  lemma AheadMore<T>(s: seq<T>, z: T, x: T, y: T)
    requires Ahead(s, x, y) && x != z
    ensures Ahead(s + [z], x, y)
  {
  }

  /** Taking one out does not change the order of the others. */
  lemma {:induction false} AheadWithout<T>(s: seq<T>, z: T, x: T, y: T)
    requires Ahead(s, x, y) && x != y
    ensures Ahead(Without(s, z), x, y)
    ensures forall w :: w in Without(s, z) ==> w in s
  {
    if s != [] && s[0] != z {
      AheadTail(s, x, y);
      AheadWithout(s[1..], z, x, y);
      NoneBefore(s, x, y);
      var t := Without(s[1..], z);
      assert s[0] == y ==> x !in t;
      assert Without(s, z) == [s[0]] + t;
    } else if s != [] {
      AheadTail(s, x, y);
    }
  }

  lemma NoneBefore<T>(s: seq<T>, x: T, y: T)
    requires s != [] && Ahead(s, x, y)
    ensures s[0] == y ==> x !in s
  {
    if s[0] == y {
      forall i | 0 <= i < |s| ensures s[i] != x {
        assert s[i] == x ==> i < 0;
      }
    }
  }

  // ---------- the pool ----------

  /** A request that is posted is never posted again. */
  lemma StaysPosted(s: State, step: Step, r: Id)
    requires Can(s, step) && r in s.reqs && !s.reqs[r].place.Posting?
    ensures r in Do(s, step).reqs && !Do(s, step).reqs[r].place.Posting?
  {
  }

  lemma PoolStep(s: State, step: Step, a: Id, b: Id)
    requires Inv(s) && Can(s, step) && a in s.reqs && !s.reqs[a].place.Posting? && a != b
    requires Ahead(s.pool, Req(a), Req(b))
    ensures Ahead(Do(s, step).pool, Req(a), Req(b))
  {
    if step.ByPoster? && step.p.PostInsert? {
      assert OpOk(s.loops[step.l].op, step.l, s.reqs);
      AheadMore(s.pool, Req(s.loops[step.l].op.r), Req(a), Req(b));
    } else if step.ByCanceller? && step.c.Test? {
      AheadWithout(s.pool, Req(s.loops[step.l].op.r), Req(a), Req(b));
    } else if step.ByMainThread? && step.e.ExitInsert? {
      AheadMore(s.pool, ExitMessage, Req(a), Req(b));
    } else if step.ByWorkerThread? && step.w.CheckQueue? && s.pool != [] {
      AheadTail(s.pool, Req(a), Req(b));
    }
  }

  lemma {:induction false} PoolOrder(ss: seq<State>, steps: seq<Step>, a: Id, b: Id, n: nat, k: nat)
    requires IsRun(ss, steps) && n <= k < |ss| && a != b && a in ss[n].reqs && !ss[n].reqs[a].place.Posting?
    requires Ahead(ss[n].pool, Req(a), Req(b))
    ensures a in ss[k].reqs && !ss[k].reqs[a].place.Posting? && Ahead(ss[k].pool, Req(a), Req(b))
  {
    if n < k {
      PoolOrder(ss, steps, a, b, n, k - 1);
      RunsOk(ss, steps, k - 1);
      PoolStep(ss[k-1], steps[k-1], a, b);
      StaysPosted(ss[k-1], steps[k-1], a);
    }
  }

  /** A worker takes `b` out of the pool. */
  predicate Takes(s: State, step: Step, b: Id) {
    step.ByWorkerThread? && Can(s, step)
    && step.i < |Do(s, step).workers| && s.workers[step.i].Check? && Do(s, step).workers[step.i] == Taken(b)
  }

  /** The pool is served in order: when `b` is taken, nothing is left in it that was queued before. */
  lemma TakenInOrder(ss: seq<State>, steps: seq<Step>, a: Id, b: Id, n: nat, i: nat, j: nat, k: nat, m: nat)
    requires IsRun(ss, steps) && n <= k < |steps| && At(ss[n], a, InPool(i)) && At(ss[n], b, InPool(j)) && i < j
    requires Takes(ss[k], steps[k], b)
    ensures !At(ss[k], a, InPool(m))
  {
    RunsOk(ss, steps, n);
    RunsOk(ss, steps, k);
    AtFits(ss[n], a, InPool(i));
    var pool := ss[n].pool;
    assert pool[i] == Req(a) && pool[j] == Req(b) && NoDup(pool);
    assert Ahead(pool, Req(a), Req(b));
    PoolOrder(ss, steps, a, b, n, k);
    assert ss[k].pool[0] == Req(b);
  }

  // ---------- the completed requests ----------

  function Completed(s: State, l: nat): seq<Id>
    requires l < |s.loops|
  {
    s.loops[l].batch + s.loops[l].queue
  }

  /** A canceller of `r` queues it as complete. */
  predicate Requeues(s: State, step: Step, r: Id) {
    step.ByCanceller? && step.c.Insert? && step.l < |s.loops| && s.loops[step.l].op == CancelLoop(r)
  }

  /** A request that is complete is not with a worker any more, nor on its way there. */
  predicate Behind(q: Request) { !q.place.Posting? && !q.place.Pool? && !IsWorkerPlace(q.place) }

  lemma StaysBehind(s: State, step: Step, r: Id)
    requires Inv(s) && Can(s, step) && r in s.reqs && Behind(s.reqs[r])
    ensures r in Do(s, step).reqs && Behind(Do(s, step).reqs[r])
  {
    match step
    case ByWorkerThread(i, w) => WorkerStaysBehind(s, i, w, r);
    case ByPoster(l, p) => PosterStaysBehind(s, l, p, r);
    case ByCanceller(l, c) => CancellerStaysBehind(s, l, c, r);
    case ByReporter(l, d) => ReporterStaysBehind(s, l, d, r);
    case ByMainThread(_) =>
  }

  lemma PosterStaysBehind(s: State, l: nat, p: PostStep, r: Id)
    requires Inv(s) && PostCan(s, l, p) && r in s.reqs && Behind(s.reqs[r])
    ensures r in PostDo(s, l, p).reqs && Behind(PostDo(s, l, p).reqs[r])
  {
    assert OpOk(s.loops[l].op, l, s.reqs);
  }

  lemma CancellerStaysBehind(s: State, l: nat, c: CancelStep, r: Id)
    requires CancelCan(s, l, c) && r in s.reqs && Behind(s.reqs[r])
    ensures r in CancelDo(s, l, c).reqs && Behind(CancelDo(s, l, c).reqs[r])
  {
  }

  lemma ReporterStaysBehind(s: State, l: nat, d: DoneStep, r: Id)
    requires DoneCan(s, l, d) && r in s.reqs && Behind(s.reqs[r])
    ensures r in DoneDo(s, l, d).reqs && Behind(DoneDo(s, l, d).reqs[r])
  {
  }

  lemma WorkerStaysBehind(s: State, i: nat, w: WorkerStep, r: Id)
    requires Inv(s) && WorkerCan(s, i, w) && r in s.reqs && Behind(s.reqs[r])
    ensures r in WorkerDo(s, i, w).reqs && Behind(WorkerDo(s, i, w).reqs[r])
  {
    assert PlaceHolds(PcPlace(i, s.workers[i]), s.reqs);
    if w.CheckQueue? && s.pool != [] { assert s.pool[0] in s.pool; }
  }

  lemma CompletedStep(s: State, step: Step, l: nat, a: Id, b: Id)
    requires Inv(s) && Can(s, step) && l < |s.loops| && a in s.reqs && Behind(s.reqs[a]) && a != b
    requires Ahead(Completed(s, l), a, b) && !Requeues(s, step, a)
    ensures l < |Do(s, step).loops| && Ahead(Completed(Do(s, step), l), a, b)
  {
    match step
    case ByWorkerThread(i, w) => WorkerCompletes(s, i, w, l, a, b);
    case ByPoster(_, _) =>
    case ByCanceller(k, c) => CancellerCompletes(s, k, c, l, a, b);
    case ByReporter(k, d) => ReporterCompletes(s, k, d, l, a, b);
    case ByMainThread(_) =>
  }

  lemma WorkerCompletes(s: State, i: nat, w: WorkerStep, l: nat, a: Id, b: Id)
    requires Inv(s) && WorkerCan(s, i, w) && l < |s.loops| && a in s.reqs && Behind(s.reqs[a])
    requires Ahead(Completed(s, l), a, b)
    ensures l < |WorkerDo(s, i, w).loops| && Ahead(Completed(WorkerDo(s, i, w), l), a, b)
  {
    if w.Publish? {
      var r, lp, lp' := s.workers[i].r, s.loops[l], WorkerDo(s, i, w).loops[l];
      assert PlaceHolds(PcPlace(i, s.workers[i]), s.reqs);
      if s.reqs[r].loop == l {
        AheadMore(Completed(s, l), r, a, b);
        assert lp'.batch + lp'.queue == lp.batch + lp.queue + [r];
      }
    }
  }

  lemma CancellerCompletes(s: State, k: nat, c: CancelStep, l: nat, a: Id, b: Id)
    requires CancelCan(s, k, c) && l < |s.loops| && a != b
    requires Ahead(Completed(s, l), a, b) && !Requeues(s, ByCanceller(k, c), a)
    ensures l < |CancelDo(s, k, c).loops| && Ahead(Completed(CancelDo(s, k, c), l), a, b)
  {
    var lp, lp' := s.loops[l], CancelDo(s, k, c).loops[l];
    if k == l && c.Insert? {
      AheadMore(Completed(s, l), lp.op.r, a, b);
      assert lp'.batch + lp'.queue == lp.batch + lp.queue + [lp.op.r];
    } else if k == l && c.Test? {
      WithoutBoth(lp.batch, lp.queue, lp.op.r, a, b);
    }
  }

  lemma ReporterCompletes(s: State, k: nat, d: DoneStep, l: nat, a: Id, b: Id)
    requires Inv(s) && DoneCan(s, k, d) && l < |s.loops| && Ahead(Completed(s, l), a, b)
    ensures l < |DoneDo(s, k, d).loops| && Ahead(Completed(DoneDo(s, k, d), l), a, b)
  {
    var lp := s.loops[l];
    if k == l && d.Split? {
      assert LoopOk(lp);
      assert lp.batch + lp.queue == lp.queue + [];
    } else if k == l && d.Report? {
      AheadTail(Completed(s, l), a, b);
      assert (lp.batch + lp.queue)[1..] == lp.batch[1..] + lp.queue;
    }
  }

  lemma WithoutBoth<T>(s: seq<T>, t: seq<T>, z: T, x: T, y: T)
    requires Ahead(s + t, x, y) && x != y
    ensures Ahead(Without(s, z) + Without(t, z), x, y)
  {
    AheadParts(s, t, x, y);
    AheadWithout(s, z, x, y);
    AheadWithout(t, z, x, y);
    assert !(x in Without(t, z) && y in Without(s, z));
  }

  lemma AheadParts<T>(s: seq<T>, t: seq<T>, x: T, y: T)
    requires Ahead(s + t, x, y)
    ensures Ahead(s, x, y) && Ahead(t, x, y) && !(x in t && y in s)
  {
    forall i, j | 0 <= i < |s| && 0 <= j < |s| && s[i] == x && s[j] == y ensures i < j {
      assert (s + t)[i] == x && (s + t)[j] == y;
    }
    forall i, j | 0 <= i < |t| && 0 <= j < |t| && t[i] == x && t[j] == y ensures i < j {
      assert (s + t)[|s| + i] == x && (s + t)[|s| + j] == y;
    }
    forall i, j | 0 <= i < |t| && 0 <= j < |s| && t[i] == x ensures s[j] != y {
      assert (s + t)[|s| + i] == x && (s + t)[j] == s[j];
    }
  }

  lemma {:induction false} CompletedOrder(ss: seq<State>, steps: seq<Step>, l: nat, a: Id, b: Id, n: nat, k: nat)
    requires IsRun(ss, steps) && n <= k < |ss| && l < |ss[n].loops| && a != b && a in ss[n].reqs
        && Behind(ss[n].reqs[a])
    requires Ahead(Completed(ss[n], l), a, b) && forall m :: n <= m < k ==> !Requeues(ss[m], steps[m], a)
    ensures l < |ss[k].loops| && a in ss[k].reqs && Behind(ss[k].reqs[a]) && Ahead(Completed(ss[k], l), a, b)
  {
    if n < k {
      CompletedOrder(ss, steps, l, a, b, n, k - 1);
      RunsOk(ss, steps, k - 1);
      CompletedStep(ss[k-1], steps[k-1], l, a, b);
      StaysBehind(ss[k-1], steps[k-1], a);
    }
  }

  /**
   Completed requests are reported in order: when `b` is reported, nothing is left that was complete before, unless
   another cancellation has queued it anew.
   */
  lemma ReportedInOrder(ss: seq<State>, steps: seq<Step>, l: nat, a: Id, b: Id, n: nat, i: nat, j: nat, k: nat, m: nat)
    requires IsRun(ss, steps) && n <= k < |steps| && i < j
    requires At(ss[n], a, InCompletion(l, i)) && At(ss[n], b, InCompletion(l, j))
    requires Reports(ss[k], steps[k], b) && steps[k].l == l
    requires forall m :: n <= m < k ==> !Requeues(ss[m], steps[m], a)
    ensures !At(ss[k], a, InCompletion(l, m))
  {
    RunsOk(ss, steps, n);
    AtFits(ss[n], a, InCompletion(l, i));
    var c := Completed(ss[n], l);
    assert LoopPlaces(ss[n].loops[l], l, ss[n].reqs);
    assert c[i] == a && c[j] == b && NoDup(c);
    assert Ahead(c, a, b);
    CompletedOrder(ss, steps, l, a, b, n, k);
    assert Completed(ss[k], l)[0] == b;
  }
}
