/**
 What holds in every reachable state of the thread pool.
 */
module ThreadPoolSafety {
  import opened Options
  import opened ThreadPool

  type Workers = seq<WorkerPc>
  type Loops = seq<Loop>
  type Requests = map<Id, Request>

  // ---------- who holds which mutex ----------

  predicate HoldsPool(pc: WorkerPc) { pc.Check? || pc.Taken? || pc.Exiting? }

  predicate OpHoldsPool(op: Op) {
    op.PostHave? || op.PostIn? || op.PostSignalled?
    || op.CancelPool? || op.CancelBoth? || op.CancelTested? || op.CancelPoolOnly?
  }

  predicate OpHoldsLoop(op: Op) {
    op.CancelBoth? || op.CancelTested? || op.CancelLoop? || op.CancelIn? || op.DoneHave? || op.DoneSplit?
  }

  predicate MainHoldsPool(m: Main) { m.ExitHave? || m.ExitIn? || m.ExitSignalled? }

  ghost predicate PoolMutexOk(o: Owner, ws: Workers, lps: Loops, m: Main) {
    && (forall i :: 0 <= i < |ws| ==> (HoldsPool(ws[i]) <==> o == ByWorker(i)))
    && (forall l :: 0 <= l < |lps| ==> (OpHoldsPool(lps[l].op) <==> o == ByLoop(l)))
    && (MainHoldsPool(m) <==> o == ByMain)
    && (o.ByWorker? ==> o.i < |ws|)
    && (o.ByLoop? ==> o.l < |lps|)
  }

  /** A worker at `pc` holds the mutex of loop `l`. */
  predicate InLoop(pc: WorkerPc, reqs: Requests, l: int) {
    (pc.HasLoop? || pc.Published?) && pc.r in reqs && reqs[pc.r].loop == l
  }

  ghost predicate LoopMutexOk(os: seq<Owner>, ws: Workers, lps: Loops, reqs: Requests) {
    && |os| == |lps|
    && (forall l :: 0 <= l < |lps| ==> (OpHoldsLoop(lps[l].op) <==> os[l] == ByLoop(l)))
    && (forall l, i :: 0 <= l < |lps| && 0 <= i < |ws| ==> (InLoop(ws[i], reqs, l) <==> os[l] == ByWorker(i)))
    && (forall l :: 0 <= l < |lps| ==> OwnerOk(os[l], l, |ws|))
  }

  predicate OwnerOk(o: Owner, l: int, n: nat) {
    !o.ByMain? && (o.ByWorker? ==> o.i < n) && (o.ByLoop? ==> o.l == l)
  }

  // ---------- every request is in one place ----------

  predicate NoDup<T(==)>(s: seq<T>) { forall i, j :: 0 <= i < j < |s| ==> s[i] != s[j] }

  ghost predicate PoolPlaces(pool: seq<Item>, reqs: Requests) {
    && NoDup(pool)
    && (forall r :: Req(r) in pool <==> r in reqs && reqs[r].place.Pool?)
  }

  /** The place that a worker's program counter gives to its request. */
  function PcPlace(i: int, pc: WorkerPc): Option<(Id, Place)> {
    if i < 0 then None
    else if pc.Taken? || pc.Run? then Some((pc.r, AtWorker(i)))
    else if pc.Ran? || pc.HasLoop? then Some((pc.r, RanAt(i)))
    else None
  }

  predicate IsWorkerPlace(p: Place) { p.AtWorker? || p.RanAt? }

  ghost predicate WorkerPlaces(ws: Workers, reqs: Requests) {
    && (forall i :: 0 <= i < |ws| ==> PlaceHolds(PcPlace(i, ws[i]), reqs))
    && (forall r :: r in reqs && IsWorkerPlace(reqs[r].place) ==>
          reqs[r].place.i < |ws| && PcPlace(reqs[r].place.i, ws[reqs[r].place.i]) == Some((r, reqs[r].place)))
    && (forall i :: 0 <= i < |ws| && ws[i].Published? ==> ws[i].r in reqs)
  }

  predicate PlaceHolds(p: Option<(Id, Place)>, reqs: Requests) {
    p.Some? ==> p.value.0 in reqs && reqs[p.value.0].place == p.value.1
  }

  /** The place that a loop thread's operation gives to its request. */
  function OpPlace(op: Op): Option<(Id, Place)> {
    if op.PostWant? || op.PostHave? then Some((op.r, Posting))
    else if (op.CancelTested? || op.CancelPoolOnly?) && op.ok then Some((op.r, Moving))
    else if op.CancelMark? then Some((op.r, Moving))
    else if op.CancelWantLoop? || op.CancelLoop? then Some((op.r, Marked))
    else if op.CancelIn? then Some((op.r, Settling))
    else None
  }

  predicate IsOpPlace(p: Place) { p.Posting? || p.Moving? || p.Marked? || p.Settling? }

  /** The request a canceller is at work on. */
  function Cancels(op: Op): Option<Id> {
    if op.CancelWant? || op.CancelPool? || op.CancelBoth? || op.CancelTested? || op.CancelPoolOnly?
       || op.CancelMark? || op.CancelWantLoop? || op.CancelLoop? || op.CancelIn? then Some(op.r)
    else None
  }

  predicate OpOk(op: Op, l: int, reqs: Requests) {
    && (OpPlace(op).Some? ==> PlaceHolds(OpPlace(op), reqs) && reqs[OpPlace(op).value.0].loop == l)
    && (Cancels(op).Some? ==>
          var r := Cancels(op).value;
          r in reqs && reqs[r].loop == l && !reqs[r].place.Posting? && !reqs[r].place.Finished?)
  }

  ghost predicate OpPlaces(lps: Loops, reqs: Requests) {
    && (forall l :: 0 <= l < |lps| ==> OpOk(lps[l].op, l, reqs))
    && (forall r :: r in reqs && IsOpPlace(reqs[r].place) ==>
          reqs[r].loop < |lps| && OpPlace(lps[reqs[r].loop].op) == Some((r, reqs[r].place)))
  }

  predicate InCompletions(p: Place) { p.Settling? || p.Complete? }

  ghost predicate LoopPlaces(lp: Loop, l: int, reqs: Requests) {
    && NoDup(lp.batch + lp.queue)
    && (forall r :: r in lp.batch + lp.queue <==> r in reqs && reqs[r].loop == l && InCompletions(reqs[r].place))
  }

  // ---------- what happened to a request fits its place ----------

  predicate RequestOk(q: Request) {
    && q.done == (if q.place.Finished? then 1 else 0)
    && match q.place
       case Posting => q.work.Job? && q.ran == 0 && !q.cancelOk
       case Pool => q.work.Job? && !q.self && q.ran == 0 && !q.cancelOk
       case AtWorker(_) => q.work.Job? && q.self && q.ran == 0 && !q.cancelOk
       case RanAt(_) => q.work.Job? && q.self && q.ran == 1 && !q.cancelOk
       case Moving => !q.self && q.ran == 0 && !q.work.Null? && (q.work.Cancelled? <==> q.cancelOk)
       case Marked => !q.self && q.ran == 0 && q.work.Cancelled?
       case Settling => !q.self && q.ran == 0 && q.work.Cancelled?
       case Complete => !q.self && if q.cancelOk then q.work.Cancelled? && q.ran == 0 else q.work.Null? && q.ran == 1
       case Finished => q.err == q.cancelOk && if q.cancelOk then q.work.Cancelled? && q.ran == 0
           else q.work.Null? && q.ran == 1
  }

  ghost predicate RequestsOk(reqs: Requests, n: nat) {
    forall r :: r in reqs ==> RequestOk(reqs[r]) && reqs[r].loop < n
  }

  // ---------- loops ----------

  predicate LoopOk(lp: Loop) {
    && (!lp.reporting && !lp.op.DoneSplit? ==> lp.batch == [])
    && (lp.op.DoneWant? || lp.op.DoneHave? || lp.op.DoneSplit? ==> !lp.reporting)
    && (lp.queue != [] ==> lp.async || lp.op.DoneWant? || lp.op.DoneHave?)
  }

  ghost predicate LoopsOk(lps: Loops, reqs: Requests) {
    forall l :: 0 <= l < |lps| ==> LoopOk(lps[l]) && LoopPlaces(lps[l], l, reqs)
  }

  // ---------- wake-ups and exit ----------

  predicate ExitPosted(m: Main) { m.ExitIn? || m.ExitSignalled? || m.After? }

  ghost predicate ExitOk(pool: seq<Item>, m: Main, ws: Workers) {
    && (ExitMessage in pool <==> ExitPosted(m))
    && (forall i :: 0 <= i < |ws| && (ws[i].Exiting? || ws[i].Exited?) ==> pool != [] && pool[0].ExitMessage?)
  }

  /** Somebody has queued an item and will signal before releasing the pool mutex. */
  ghost predicate SignalDue(lps: Loops, m: Main) {
    m.ExitIn? || exists l :: 0 <= l < |lps| && lps[l].op.PostIn?
  }

  predicate Active(pc: WorkerPc) { !pc.Waiting? && !pc.Exiting? && !pc.Exited? }

  ghost predicate SomeWaits(ws: Workers) { exists i :: 0 <= i < |ws| && ws[i].Waiting? }
  ghost predicate SomeActive(ws: Workers) { exists i :: 0 <= i < |ws| && Active(ws[i]) }

  /** No wake-up is lost: work never sits in the queue while some worker waits and none is active. */
  ghost predicate WakeOk(pool: seq<Item>, ws: Workers, lps: Loops, m: Main) {
    pool != [] && !SignalDue(lps, m) && SomeWaits(ws) ==> SomeActive(ws)
  }

  ghost predicate Inv(s: State) {
    && PoolMutexOk(s.poolMutex, s.workers, s.loops, s.main)
    && LoopMutexOk(s.loopMutex, s.workers, s.loops, s.reqs)
    && PoolPlaces(s.pool, s.reqs)
    && WorkerPlaces(s.workers, s.reqs)
    && OpPlaces(s.loops, s.reqs)
    && RequestsOk(s.reqs, |s.loops|)
    && LoopsOk(s.loops, s.reqs)
    && ExitOk(s.pool, s.main, s.workers)
    && WakeOk(s.pool, s.workers, s.loops, s.main)
  }

  lemma InitOk(s: State)
    requires Init(s)
    ensures Inv(s)
  {
  }

  // ---------- how single changes affect each part ----------

  lemma {:induction false} WithoutMembers<T>(s: seq<T>, x: T)
    requires NoDup(s)
    ensures NoDup(Without(s, x))
    ensures forall y :: y in Without(s, x) <==> y in s && y != x
  {
    if s != [] {
      assert forall y :: y in s <==> y == s[0] || y in s[1..];
      if s[0] != x {
        WithoutMembers(s[1..], x);
        var w := Without(s[1..], x);
        assert forall k :: 0 <= k < |w| ==> w[k] in w;
      } else {
        assert forall k :: 1 <= k < |s| ==> s[k] != x;
      }
    }
  }

  /** A worker that keeps its request where it is. */
  lemma WorkerMoves(ws: Workers, reqs: Requests, i: nat, pc: WorkerPc)
    requires i < |ws| && WorkerPlaces(ws, reqs)
    requires PcPlace(i, pc) == PcPlace(i, ws[i]) && (pc.Published? ==> pc.r in reqs)
    ensures WorkerPlaces(ws[i := pc], reqs)
  {
  }

  /** Worker `i` and request `r` change together. */
  lemma WorkerChanges(ws: Workers, reqs: Requests, i: nat, pc: WorkerPc, r: Id, q: Request)
    requires i < |ws| && WorkerPlaces(ws, reqs) && r in reqs
    requires PcPlace(i, ws[i]).Some? ==> PcPlace(i, ws[i]).value.0 == r
    requires IsWorkerPlace(reqs[r].place) ==> reqs[r].place.i == i
    requires if IsWorkerPlace(q.place) then PcPlace(i, pc) == Some((r, q.place)) else PcPlace(i, pc).None?
    requires pc.Published? ==> pc.r == r
    ensures WorkerPlaces(ws[i := pc], reqs[r := q])
  {
  }

  /** A request that is with no worker changes. */
  lemma WorkersUnaffected(ws: Workers, reqs: Requests, r: Id, q: Request)
    requires WorkerPlaces(ws, reqs)
    requires r in reqs ==> !IsWorkerPlace(reqs[r].place)
    requires !IsWorkerPlace(q.place)
    ensures WorkerPlaces(ws, reqs[r := q])
  {
  }

  /** Loop `l` and request `r` change together. */
  lemma OpChanges(lps: Loops, reqs: Requests, l: nat, lp: Loop, r: Id, q: Request)
    requires l < |lps| && OpPlaces(lps, reqs) && q.loop == l && (r in reqs ==> reqs[r].loop == l)
    requires OpPlace(lps[l].op).Some? ==> OpPlace(lps[l].op).value.0 == r
    requires OpOk(lp.op, l, reqs[r := q])
    requires IsOpPlace(q.place) ==> OpPlace(lp.op) == Some((r, q.place))
    ensures OpPlaces(lps[l := lp], reqs[r := q])
  {
  }

  /** A loop's operation changes without moving a request. */
  lemma OpMovesOn(lps: Loops, reqs: Requests, l: nat, lp: Loop)
    requires l < |lps| && OpPlaces(lps, reqs)
    requires OpPlace(lp.op) == OpPlace(lps[l].op) && OpOk(lp.op, l, reqs)
    ensures OpPlaces(lps[l := lp], reqs)
  {
  }

  /** A request that no loop thread is handling moves between other places. */
  lemma OpsUnaffected(lps: Loops, reqs: Requests, r: Id, q: Request)
    requires OpPlaces(lps, reqs) && r in reqs && q.loop == reqs[r].loop
    requires !IsOpPlace(reqs[r].place) && !IsOpPlace(q.place)
    requires q.place.Finished? ==> q.loop < |lps| && Cancels(lps[q.loop].op) != Some(r)
    ensures OpPlaces(lps, reqs[r := q])
  {
  }

  lemma PoolUnaffected(pool: seq<Item>, reqs: Requests, r: Id, q: Request)
    requires PoolPlaces(pool, reqs)
    requires !q.place.Pool? && (r in reqs ==> !reqs[r].place.Pool?)
    ensures PoolPlaces(pool, reqs[r := q])
  {
  }

  /** A request enters or leaves no completion list. */
  lemma LoopsUnaffected(lps: Loops, reqs: Requests, r: Id, q: Request)
    requires LoopsOk(lps, reqs)
    requires r in reqs ==> q.loop == reqs[r].loop && InCompletions(q.place) == InCompletions(reqs[r].place)
    requires r !in reqs ==> !InCompletions(q.place)
    ensures LoopsOk(lps, reqs[r := q])
  {
    forall l | 0 <= l < |lps| ensures LoopPlaces(lps[l], l, reqs[r := q]) {
      assert LoopPlaces(lps[l], l, reqs);
    }
  }

  /** Loop `l` and its request `r` change; the other loops do not see it. */
  lemma LoopChanges(lps: Loops, reqs: Requests, l: nat, lp: Loop, r: Id, q: Request)
    requires LoopsOk(lps, reqs) && l < |lps| && r in reqs && reqs[r].loop == l && q.loop == l
    requires LoopOk(lp) && NoDup(lp.batch + lp.queue)
    requires forall x :: x in lp.batch + lp.queue <==>
               if x == r then InCompletions(q.place) else x in lps[l].batch + lps[l].queue
    ensures LoopsOk(lps[l := lp], reqs[r := q])
  {
    var lps' := lps[l := lp];
    forall k | 0 <= k < |lps'| ensures LoopOk(lps'[k]) && LoopPlaces(lps'[k], k, reqs[r := q]) {
      assert LoopPlaces(lps[k], k, reqs);
      if k == l { assert LoopPlaces(lps[l], l, reqs); }
    }
  }

  lemma LoopMutexUnaffected(os: seq<Owner>, ws: Workers, lps: Loops, reqs: Requests, r: Id, q: Request)
    requires LoopMutexOk(os, ws, lps, reqs)
    requires if r in reqs then q.loop == reqs[r].loop else forall i ::
        0 <= i < |ws| && (ws[i].HasLoop? || ws[i].Published?) ==> ws[i].r in reqs
    ensures LoopMutexOk(os, ws, lps, reqs[r := q])
  {
    forall l, i | 0 <= l < |lps| && 0 <= i < |ws| ensures InLoop(ws[i], reqs[r := q], l) <==> os[l] == ByWorker(i) {
      assert InLoop(ws[i], reqs, l) <==> os[l] == ByWorker(i);
    }
  }

  lemma LoopMutexOtherWorkers(os: seq<Owner>, ws: Workers, lps: Loops, reqs: Requests, ws': Workers, lps': Loops)
    requires LoopMutexOk(os, ws, lps, reqs) && |ws'| == |ws| && |lps'| == |lps|
    requires forall i, l :: 0 <= i < |ws| ==> InLoop(ws'[i], reqs, l) == InLoop(ws[i], reqs, l)
    requires forall l :: 0 <= l < |lps| ==> OpHoldsLoop(lps'[l].op) == OpHoldsLoop(lps[l].op)
    ensures LoopMutexOk(os, ws', lps', reqs)
  {
  }

  // ---------- steps of a worker ----------

  lemma WorkerLocks(s: State, i: nat)
    requires Inv(s) && WorkerCan(s, i, Lock)
    ensures Inv(WorkerDo(s, i, Lock))
  {
    var s' := WorkerDo(s, i, Lock);
    WorkerMoves(s.workers, s.reqs, i, Check);
    LoopMutexOtherWorkers(s.loopMutex, s.workers, s.loops, s.reqs, s'.workers, s'.loops);
    assert Active(s'.workers[i]);
  }

  lemma WorkerChecks(s: State, i: nat, wake: Option<nat>)
    requires Inv(s) && WorkerCan(s, i, CheckQueue(wake)) && (s.pool == [] || s.pool[0].ExitMessage?)
    ensures Inv(WorkerDo(s, i, CheckQueue(wake)))
  {
    var s' := WorkerDo(s, i, CheckQueue(wake));
    LoopMutexOtherWorkers(s.loopMutex, s.workers, s.loops, s.reqs, s'.workers, s'.loops);
    if s.pool == [] {
      WorkerMoves(s.workers, s.reqs, i, Waiting);
    } else {
      assert s.pool[0] in s.pool;
      WorkerMoves(s.workers, s.reqs, i, Exiting);
      if wake.Some? {
        WorkerMoves(s.workers[i := Exiting], s.reqs, wake.value, Woken);
        assert Active(s'.workers[wake.value]);
      }
    }
  }

  lemma WorkerTakes(s: State, i: nat, wake: Option<nat>)
    requires Inv(s) && WorkerCan(s, i, CheckQueue(wake)) && s.pool != [] && s.pool[0].Req?
    ensures Inv(WorkerDo(s, i, CheckQueue(wake)))
  {
    var s' := WorkerDo(s, i, CheckQueue(wake));
    var r := s.pool[0].r;
    var q := s'.reqs[r];
    assert s.pool[0] in s.pool;
    WorkerChanges(s.workers, s.reqs, i, Taken(r), r, q);
    OpsUnaffected(s.loops, s.reqs, r, q);
    LoopsUnaffected(s.loops, s.reqs, r, q);
    assert forall x :: x in s.pool <==> x == s.pool[0] || x in s.pool[1..];
    LoopMutexUnaffected(s.loopMutex, s.workers, s.loops, s.reqs, r, q);
    LoopMutexOtherWorkers(s.loopMutex, s.workers, s.loops, s'.reqs, s'.workers, s'.loops);
    assert Active(s'.workers[i]);
  }

  lemma WorkerWakesOrUnlocks(s: State, i: nat, w: WorkerStep)
    requires Inv(s) && WorkerCan(s, i, w) && (w.Spurious? || w.Unlock?)
    ensures Inv(WorkerDo(s, i, w))
  {
    var s' := WorkerDo(s, i, w);
    WorkerMoves(s.workers, s.reqs, i, s'.workers[i]);
    LoopMutexOtherWorkers(s.loopMutex, s.workers, s.loops, s.reqs, s'.workers, s'.loops);
    if w.Spurious? || s.workers[i].Taken? {
      assert Active(s'.workers[i]);
    } else {
      KeepsActive(s.workers, s'.workers, i);
    }
  }

  /** A worker that was not active and not waiting does not matter for wake-ups. */
  lemma KeepsActive(ws: Workers, ws': Workers, i: nat)
    requires i < |ws| == |ws'| && ws' == ws[i := ws'[i]]
    requires !Active(ws[i]) || Active(ws'[i])
    ensures SomeActive(ws) ==> SomeActive(ws')
  {
    if SomeActive(ws) {
      var j :| 0 <= j < |ws| && Active(ws[j]);
      assert Active(ws'[j]);
    }
  }

  /** A worker runs a job: it is never the cancelled marker, which would abort, nor NULL. */
  lemma WorkerWorks(s: State, i: nat)
    requires Inv(s) && WorkerCan(s, i, Work)
    ensures s.reqs[s.workers[i].r].work.Job?
    ensures Inv(WorkerDo(s, i, Work))
  {
    var s' := WorkerDo(s, i, Work);
    var r := s.workers[i].r;
    var q := s'.reqs[r];
    assert PlaceHolds(PcPlace(i, s.workers[i]), s.reqs);
    WorkerChanges(s.workers, s.reqs, i, Ran(r), r, q);
    OpsUnaffected(s.loops, s.reqs, r, q);
    LoopsUnaffected(s.loops, s.reqs, r, q);
    PoolUnaffected(s.pool, s.reqs, r, q);
    LoopMutexUnaffected(s.loopMutex, s.workers, s.loops, s.reqs, r, q);
    LoopMutexOtherWorkers(s.loopMutex, s.workers, s.loops, s'.reqs, s'.workers, s'.loops);
    assert Active(s'.workers[i]);
  }

  lemma WorkerLocksLoop(s: State, i: nat, w: WorkerStep)
    requires Inv(s) && WorkerCan(s, i, w) && (w.LockLoop? || w.UnlockLoop?)
    ensures Inv(WorkerDo(s, i, w))
  {
    var s' := WorkerDo(s, i, w);
    WorkerMoves(s.workers, s.reqs, i, s'.workers[i]);
    assert Active(s'.workers[i]);
    var k := s.reqs[s.workers[i].r].loop;
    forall l, j | 0 <= l < |s.loops| && 0 <= j < |s.workers|
      ensures InLoop(s'.workers[j], s.reqs, l) <==> s'.loopMutex[l] == ByWorker(j)
    {
      assert InLoop(s.workers[j], s.reqs, l) <==> s.loopMutex[l] == ByWorker(j);
      assert InLoop(s.workers[i], s.reqs, k) <==> s.loopMutex[k] == ByWorker(i);
    }
  }

  lemma WorkerPublishes(s: State, i: nat)
    requires Inv(s) && WorkerCan(s, i, Publish)
    ensures Inv(WorkerDo(s, i, Publish))
  {
    var s' := WorkerDo(s, i, Publish);
    var r := s.workers[i].r;
    var q, l := s'.reqs[r], s.reqs[r].loop;
    var lp := s'.loops[l];
    assert PlaceHolds(PcPlace(i, s.workers[i]), s.reqs);
    WorkerChanges(s.workers, s.reqs, i, Published(r), r, q);
    OpsUnaffected(s.loops, s.reqs, r, q);
    OpMovesOn(s.loops, s'.reqs, l, lp);
    PoolUnaffected(s.pool, s.reqs, r, q);
    Appended(s.loops[l], s.reqs, l, r);
    LoopChanges(s.loops, s.reqs, l, lp, r, q);
    LoopMutexUnaffected(s.loopMutex, s.workers, s.loops, s.reqs, r, q);
    LoopMutexOtherWorkers(s.loopMutex, s.workers, s.loops, s'.reqs, s'.workers, s'.loops);
    assert Active(s'.workers[i]);
    SameSignals(s.loops, s'.loops, s.main);
  }

  lemma SameSignals(lps: Loops, lps': Loops, m: Main)
    requires |lps| == |lps'| && forall l :: 0 <= l < |lps| ==> lps'[l].op.PostIn? == lps[l].op.PostIn?
    ensures SignalDue(lps', m) == SignalDue(lps, m)
  {
  }

  /** Queueing a request that is in no completion list. */
  lemma Appended(lp: Loop, reqs: Requests, l: nat, r: Id)
    requires LoopPlaces(lp, l, reqs) && r in reqs && !InCompletions(reqs[r].place)
    ensures NoDup(lp.batch + (lp.queue + [r]))
    ensures forall x :: x in lp.batch + (lp.queue + [r]) <==> x == r || x in lp.batch + lp.queue
  {
    assert lp.batch + (lp.queue + [r]) == (lp.batch + lp.queue) + [r];
    assert r !in lp.batch + lp.queue;
  }

  lemma WorkerKeeps(s: State, i: nat, w: WorkerStep)
    requires Inv(s) && WorkerCan(s, i, w)
    ensures Inv(WorkerDo(s, i, w))
  {
    match w
    case Lock => WorkerLocks(s, i);
    case CheckQueue(wake) =>
      if s.pool == [] || s.pool[0].ExitMessage? { WorkerChecks(s, i, wake); } else { WorkerTakes(s, i, wake); }
    case Spurious => WorkerWakesOrUnlocks(s, i, w);
    case Unlock => WorkerWakesOrUnlocks(s, i, w);
    case Work => WorkerWorks(s, i);
    case LockLoop => WorkerLocksLoop(s, i, w);
    case Publish => WorkerPublishes(s, i);
    case UnlockLoop => WorkerLocksLoop(s, i, w);
  }

  // ---------- a loop thread that moves on ----------

  /** How the pool mutex may change hands when loop `l` turns to operation `op`. */
  predicate PoolHandOver(o: Owner, o': Owner, l: nat, was: Op, op: Op) {
    || (o' == o && OpHoldsPool(op) == OpHoldsPool(was))
    || (o.Free? && o' == ByLoop(l) && OpHoldsPool(op))
    || (o == ByLoop(l) && o'.Free? && !OpHoldsPool(op))
  }

  /** The same for the mutex of the loop itself. */
  predicate LoopHandOver(o: Owner, o': Owner, l: nat, was: Op, op: Op) {
    || (o' == o && OpHoldsLoop(op) == OpHoldsLoop(was))
    || (o.Free? && o' == ByLoop(l) && OpHoldsLoop(op))
    || (o == ByLoop(l) && o'.Free? && !OpHoldsLoop(op))
  }

  lemma PoolHandedOver(o: Owner, o': Owner, ws: Workers, lps: Loops, m: Main, l: nat, lp: Loop)
    requires PoolMutexOk(o, ws, lps, m) && l < |lps| && PoolHandOver(o, o', l, lps[l].op, lp.op)
    ensures PoolMutexOk(o', ws, lps[l := lp], m)
  {
  }

  lemma LoopHandedOver(os: seq<Owner>, o': Owner, ws: Workers, lps: Loops, reqs: Requests, l: nat, lp: Loop)
    requires LoopMutexOk(os, ws, lps, reqs) && l < |lps| && LoopHandOver(os[l], o', l, lps[l].op, lp.op)
    ensures LoopMutexOk(os[l := o'], ws, lps[l := lp], reqs)
  {
    var os', lps' := os[l := o'], lps[l := lp];
    forall k, i | 0 <= k < |lps'| && 0 <= i < |ws| ensures InLoop(ws[i], reqs, k) <==> os'[k] == ByWorker(i) {
      assert InLoop(ws[i], reqs, k) <==> os[k] == ByWorker(i);
    }
  }

  /** The state after loop `l` turned to `lp` and the two mutexes changed hands. */
  function Turned(s: State, l: nat, lp: Loop, o: Owner, lo: Owner): State
    requires l < |s.loops| && l < |s.loopMutex|
  {
    s.(loops := s.loops[l := lp], poolMutex := o, loopMutex := s.loopMutex[l := lo])
  }

  /** A loop thread moves on without moving a request: it may take or release a mutex. */
  lemma LoopMovesOn(s: State, l: nat, lp: Loop, o: Owner, lo: Owner)
    requires Inv(s) && l < |s.loops| && l < |s.loopMutex|
    requires LoopOk(lp) && lp.batch + lp.queue == s.loops[l].batch + s.loops[l].queue
    requires OpPlace(lp.op) == OpPlace(s.loops[l].op) && OpOk(lp.op, l, s.reqs)
    requires lp.op.PostIn? == s.loops[l].op.PostIn?
    requires PoolHandOver(s.poolMutex, o, l, s.loops[l].op, lp.op)
    requires LoopHandOver(s.loopMutex[l], lo, l, s.loops[l].op, lp.op)
    ensures Inv(Turned(s, l, lp, o, lo))
  {
    var s' := Turned(s, l, lp, o, lo);
    OpMovesOn(s.loops, s.reqs, l, lp);
    SameLists(s.loops, s.reqs, l, lp);
    SameSignals(s.loops, s'.loops, s.main);
    PoolHandedOver(s.poolMutex, o, s.workers, s.loops, s.main, l, lp);
    LoopHandedOver(s.loopMutex, lo, s.workers, s.loops, s.reqs, l, lp);
  }

  lemma SameLists(lps: Loops, reqs: Requests, l: nat, lp: Loop)
    requires LoopsOk(lps, reqs) && l < |lps| && LoopOk(lp) && lp.batch + lp.queue == lps[l].batch + lps[l].queue
    ensures LoopsOk(lps[l := lp], reqs)
  {
    assert LoopPlaces(lps[l], l, reqs);
    assert LoopPlaces(lp, l, reqs);
  }

  /** What loop `l` holds while it is at `op`. */
  lemma Holding(s: State, l: nat)
    requires Inv(s) && l < |s.loops|
    ensures l < |s.loopMutex| && OpOk(s.loops[l].op, l, s.reqs) && LoopOk(s.loops[l])
    ensures OpHoldsPool(s.loops[l].op) <==> s.poolMutex == ByLoop(l)
    ensures OpHoldsLoop(s.loops[l].op) <==> s.loopMutex[l] == ByLoop(l)
  {
  }

  // ---------- steps of a loop thread that submits ----------

  lemma SubmitKeeps(s: State, l: nat, r: Id)
    requires Inv(s) && PostCan(s, l, Submit(r))
    ensures Inv(PostDo(s, l, Submit(r)))
  {
    var s' := PostDo(s, l, Submit(r));
    var q := s'.reqs[r];
    WorkersUnaffected(s.workers, s.reqs, r, q);
    OpChanges(s.loops, s.reqs, l, s'.loops[l], r, q);
    PoolUnaffected(s.pool, s.reqs, r, q);
    LoopsUnaffected(s.loops, s.reqs, r, q);
    SameCompletions(s.loops, s'.reqs, l, s'.loops[l]);
    forall i | 0 <= i < |s.workers|
        && (s.workers[i].HasLoop? || s.workers[i].Published?) ensures s.workers[i].r in s.reqs {
      assert PlaceHolds(PcPlace(i, s.workers[i]), s.reqs);
    }
    LoopMutexUnaffected(s.loopMutex, s.workers, s.loops, s.reqs, r, q);
    LoopMutexOtherWorkers(s.loopMutex, s.workers, s.loops, s'.reqs, s'.workers, s'.loops);
    SameSignals(s.loops, s'.loops, s.main);
  }

  /** A loop's operation changes, its lists do not. */
  lemma SameCompletions(lps: Loops, reqs: Requests, l: nat, lp: Loop)
    requires LoopsOk(lps, reqs) && l < |lps| && LoopOk(lp) && lp.batch == lps[l].batch && lp.queue == lps[l].queue
    ensures LoopsOk(lps[l := lp], reqs)
  {
    assert LoopPlaces(lps[l], l, reqs);
    assert LoopPlaces(lp, l, reqs);
  }

  /** Steps of posting that only move the operation on, taking or releasing the pool mutex. */
  lemma PostLockKeeps(s: State, l: nat, p: PostStep)
    requires Inv(s) && PostCan(s, l, p) && (p.PostLock? || p.PostUnlock?)
    ensures Inv(PostDo(s, l, p))
  {
    Holding(s, l);
    var s' := PostDo(s, l, p);
    LoopMovesOn(s, l, s'.loops[l], s'.poolMutex, s.loopMutex[l]);
    assert s' == Turned(s, l, s'.loops[l], s'.poolMutex, s.loopMutex[l]);
  }

  lemma PostInsertKeeps(s: State, l: nat)
    requires Inv(s) && PostCan(s, l, PostInsert)
    ensures Inv(PostDo(s, l, PostInsert))
  {
    var s' := PostDo(s, l, PostInsert);
    var r := s.loops[l].op.r;
    var q := s'.reqs[r];
    assert OpOk(s.loops[l].op, l, s.reqs);
    WorkersUnaffected(s.workers, s.reqs, r, q);
    OpChanges(s.loops, s.reqs, l, s'.loops[l], r, q);
    LoopsUnaffected(s.loops, s.reqs, r, q);
    SameCompletions(s.loops, s'.reqs, l, s'.loops[l]);
    LoopMutexUnaffected(s.loopMutex, s.workers, s.loops, s.reqs, r, q);
    LoopMutexOtherWorkers(s.loopMutex, s.workers, s.loops, s'.reqs, s'.workers, s'.loops);
    assert Req(r) !in s.pool;
    assert s'.loops[l].op.PostIn?;
  }

  lemma PostSignalKeeps(s: State, l: nat, wake: Option<nat>)
    requires Inv(s) && PostCan(s, l, PostSignal(wake))
    ensures Inv(PostDo(s, l, PostSignal(wake)))
  {
    var s' := PostDo(s, l, PostSignal(wake));
    OpMovesOn(s.loops, s.reqs, l, s'.loops[l]);
    SameCompletions(s.loops, s.reqs, l, s'.loops[l]);
    WakeKeeps(s, wake);
    LoopMutexOtherWorkers(s.loopMutex, s.workers, s.loops, s.reqs, s'.workers, s'.loops);
  }

  /** Signalling leaves a worker active if any was waiting. */
  lemma WakeKeeps(s: State, wake: Option<nat>)
    requires Inv(s) && ValidWake(s.workers, wake)
    ensures var ws := Wake(s.workers, wake);
      && WorkerPlaces(ws, s.reqs) && (SomeWaits(ws) ==> SomeActive(ws))
      && |ws| == |s.workers|
      && (forall i :: 0 <= i < |ws| ==> HoldsPool(ws[i]) == HoldsPool(s.workers[i]))
      && (forall i, k :: 0 <= i < |ws| ==> InLoop(ws[i], s.reqs, k) == InLoop(s.workers[i], s.reqs, k))
      && ExitOk(s.pool, s.main, ws)
  {
    if wake.Some? {
      WorkerMoves(s.workers, s.reqs, wake.value, Woken);
      assert Active(Wake(s.workers, wake)[wake.value]);
    }
  }

  lemma PostKeeps(s: State, l: nat, p: PostStep)
    requires Inv(s) && PostCan(s, l, p)
    ensures Inv(PostDo(s, l, p))
  {
    match p
    case Submit(r) => SubmitKeeps(s, l, r);
    case PostLock => PostLockKeeps(s, l, p);
    case PostInsert => PostInsertKeeps(s, l);
    case PostSignal(wake) => PostSignalKeeps(s, l, wake);
    case PostUnlock => PostLockKeeps(s, l, p);
  }

  // ---------- steps of a loop thread that cancels ----------

  lemma CancelBeginKeeps(s: State, l: nat, r: Id)
    requires Inv(s) && CancelCan(s, l, Begin(r))
    ensures Inv(CancelDo(s, l, Begin(r)))
  {
    Holding(s, l);
    NotPosting(s, r);
    var s' := CancelDo(s, l, Begin(r));
    LoopMovesOn(s, l, s'.loops[l], s.poolMutex, s.loopMutex[l]);
    assert s' == Turned(s, l, s'.loops[l], s.poolMutex, s.loopMutex[l]);
  }

  /** Steps of a canceller that take or release the pool mutex. */
  lemma CancelPoolKeeps(s: State, l: nat, c: CancelStep)
    requires Inv(s) && CancelCan(s, l, c) && (c.LockPool? || c.UnlockPool?)
    ensures Inv(CancelDo(s, l, c))
  {
    Holding(s, l);
    var s' := CancelDo(s, l, c);
    LoopMovesOn(s, l, s'.loops[l], s'.poolMutex, s.loopMutex[l]);
    assert s' == Turned(s, l, s'.loops[l], s'.poolMutex, s.loopMutex[l]);
  }

  /** Steps of a canceller that take or release the loop mutex. */
  lemma CancelLoopKeeps(s: State, l: nat, c: CancelStep)
    requires Inv(s) && CancelCan(s, l, c) && (c.LockBoth? || c.UnlockLoopFirst? || c.LockAgain?)
    ensures Inv(CancelDo(s, l, c))
  {
    Holding(s, l);
    var s' := CancelDo(s, l, c);
    LoopMovesOn(s, l, s'.loops[l], s.poolMutex, s'.loopMutex[l]);
    assert s' == Turned(s, l, s'.loops[l], s.poolMutex, s'.loopMutex[l]);
  }

  lemma NotPosting(s: State, r: Id)
    requires Inv(s) && r in s.reqs && s.reqs[r].loop < |s.loops| && s.loops[s.reqs[r].loop].op.Idle?
    ensures !s.reqs[r].place.Posting?
  {
  }

  /** The test succeeds: the request is unlinked from whichever list it is in. */
  lemma CancelTestKeeps(s: State, l: nat)
    requires Inv(s) && CancelCan(s, l, Test)
    ensures Inv(CancelDo(s, l, Test))
  {
    var s' := CancelDo(s, l, Test);
    var r := s.loops[l].op.r;
    assert OpOk(s.loops[l].op, l, s.reqs);
    if !Cancellable(s.reqs[r]) {
      OpMovesOn(s.loops, s.reqs, l, s'.loops[l]);
      SameCompletions(s.loops, s.reqs, l, s'.loops[l]);
      LoopMutexOtherWorkers(s.loopMutex, s.workers, s.loops, s.reqs, s'.workers, s'.loops);
    } else {
      UnlinkKeeps(s, l);
    }
    SameSignals(s.loops, s'.loops, s.main);
  }

  lemma UnlinkKeeps(s: State, l: nat)
    requires Inv(s) && CancelCan(s, l, Test) && Cancellable(s.reqs[s.loops[l].op.r])
    ensures var s' := CancelDo(s, l, Test);
      && PoolPlaces(s'.pool, s'.reqs) && WorkerPlaces(s'.workers, s'.reqs) && OpPlaces(s'.loops, s'.reqs)
      && RequestsOk(s'.reqs, |s'.loops|) && LoopsOk(s'.loops, s'.reqs)
      && LoopMutexOk(s'.loopMutex, s'.workers, s'.loops, s'.reqs)
      && PoolMutexOk(s'.poolMutex, s'.workers, s'.loops, s'.main)
      && ExitOk(s'.pool, s'.main, s'.workers) && (s'.pool != [] ==> s.pool != [])
  {
    var s' := CancelDo(s, l, Test);
    var r := s.loops[l].op.r;
    var q, lp := s'.reqs[r], s'.loops[l];
    assert OpOk(s.loops[l].op, l, s.reqs);
    assert s.reqs[r].place.Pool? || s.reqs[r].place.Complete? by { NotHandled(s, l, r); }
    WorkersUnaffected(s.workers, s.reqs, r, q);
    OpChanges(s.loops, s.reqs, l, lp, r, q);
    WithoutMembers(s.pool, Req(r));
    Unlinked(s.loops[l], r);
    LoopChanges(s.loops, s.reqs, l, lp, r, q);
    LoopMutexUnaffected(s.loopMutex, s.workers, s.loops, s.reqs, r, q);
    LoopMutexOtherWorkers(s.loopMutex, s.workers, s.loops, s'.reqs, s'.workers, s'.loops);
  }

  /** A request no thread is handling and that passes the test is queued somewhere. */
  lemma NotHandled(s: State, l: nat, r: Id)
    requires Inv(s) && l < |s.loops| && s.loops[l].op == CancelBoth(r) && r in s.reqs && Cancellable(s.reqs[r])
    ensures s.reqs[r].place.Pool? || s.reqs[r].place.Complete?
  {
    assert OpOk(s.loops[l].op, l, s.reqs);
    assert RequestOk(s.reqs[r]);
  }

  lemma Unlinked(lp: Loop, r: Id)
    requires NoDup(lp.batch + lp.queue) && LoopOk(lp)
    ensures var b, q := Without(lp.batch, r), Without(lp.queue, r);
      && NoDup(b + q)
      && (forall x :: x in b + q <==> x in lp.batch + lp.queue && x != r)
      && (q != [] ==> lp.queue != []) && (lp.batch == [] ==> b == [])
  {
    var all := lp.batch + lp.queue;
    assert NoDup(lp.batch) by { assert forall k :: 0 <= k < |lp.batch| ==> all[k] == lp.batch[k]; }
    assert NoDup(lp.queue) by { assert forall k :: 0 <= k < |lp.queue| ==> all[|lp.batch| + k] == lp.queue[k]; }
    WithoutMembers(lp.batch, r);
    WithoutMembers(lp.queue, r);
    forall x | x in lp.batch ensures x !in lp.queue { ApartIn(lp.batch, lp.queue, x); }
    NoDupConcat(Without(lp.batch, r), Without(lp.queue, r));
  }

  lemma ApartIn<T>(a: seq<T>, b: seq<T>, x: T)
    requires NoDup(a + b) && x in a
    ensures x !in b
  {
    var i :| 0 <= i < |a| && a[i] == x;
    forall j | 0 <= j < |b| ensures b[j] != x {
      assert (a + b)[i] == x && (a + b)[|a| + j] == b[j];
    }
  }

  lemma NoDupConcat<T>(a: seq<T>, b: seq<T>)
    requires NoDup(a) && NoDup(b) && forall x :: x in a ==> x !in b
    ensures NoDup(a + b)
  {
    forall i, j | 0 <= i < j < |a + b| ensures (a + b)[i] != (a + b)[j] {
      if i < |a| && |a| <= j {
        assert a[i] in a && b[j - |a|] in b;
      }
    }
  }

  /** A canceller past the test moves its request `r` on. */
  lemma CancellerMoves(s: State, l: nat, lp: Loop, lo: Owner, r: Id, q: Request)
    requires Inv(s) && l < |s.loops| && l < |s.loopMutex| && r in s.reqs
    requires OpPlace(s.loops[l].op) == Some((r, s.reqs[r].place)) && !s.loops[l].op.PostHave?
        && !OpHoldsPool(s.loops[l].op)
    requires q.loop == l && RequestOk(q) && !IsWorkerPlace(q.place) && !q.place.Pool?
    requires OpOk(lp.op, l, s.reqs[r := q]) && !lp.op.PostIn? && !OpHoldsPool(lp.op)
    requires IsOpPlace(q.place) ==> OpPlace(lp.op) == Some((r, q.place))
    requires LoopHandOver(s.loopMutex[l], lo, l, s.loops[l].op, lp.op)
    requires LoopsOk(s.loops[l := lp], s.reqs[r := q])
    ensures Inv(Turned(s, l, lp, s.poolMutex, lo).(reqs := s.reqs[r := q]))
  {
    var s' := Turned(s, l, lp, s.poolMutex, lo).(reqs := s.reqs[r := q]);
    Holding(s, l);
    WorkersUnaffected(s.workers, s.reqs, r, q);
    OpChanges(s.loops, s.reqs, l, lp, r, q);
    PoolUnaffected(s.pool, s.reqs, r, q);
    LoopMutexUnaffected(s.loopMutex, s.workers, s.loops, s.reqs, r, q);
    LoopHandedOver(s.loopMutex, lo, s.workers, s.loops, s'.reqs, l, lp);
    PoolHandedOver(s.poolMutex, s.poolMutex, s.workers, s.loops, s.main, l, lp);
    SameSignals(s.loops, s'.loops, s.main);
  }

  lemma CancelMarkKeeps(s: State, l: nat)
    requires Inv(s) && CancelCan(s, l, Mark)
    ensures Inv(CancelDo(s, l, Mark))
  {
    var s' := CancelDo(s, l, Mark);
    var r := s.loops[l].op.r;
    var q, lp := s'.reqs[r], s'.loops[l];
    Holding(s, l);
    CancelledStays(s.loops, s.reqs, l, lp, r, q);
    CancellerMoves(s, l, lp, s.loopMutex[l], r, q);
    assert s' == Turned(s, l, lp, s.poolMutex, s.loopMutex[l]).(reqs := s.reqs[r := q]);
  }

  lemma CancelledQueued(lps: Loops, reqs: Requests, l: nat, lp: Loop, r: Id, q: Request)
    requires LoopsOk(lps, reqs) && l < |lps| && r in reqs && reqs[r].loop == l && reqs[r].place.Marked?
    requires lp.batch == lps[l].batch && lp.queue == lps[l].queue + [r] && LoopOk(lp)
    requires q.loop == l && InCompletions(q.place)
    ensures LoopsOk(lps[l := lp], reqs[r := q])
  {
    assert LoopPlaces(lps[l], l, reqs);
    Appended(lps[l], reqs, l, r);
    LoopChanges(lps, reqs, l, lp, r, q);
  }

  /** The canceller's request is in no list, or stays in its list. */
  lemma CancelledStays(lps: Loops, reqs: Requests, l: nat, lp: Loop, r: Id, q: Request)
    requires LoopsOk(lps, reqs) && l < |lps| && r in reqs && q.loop == reqs[r].loop
    requires lp.batch == lps[l].batch && lp.queue == lps[l].queue && LoopOk(lp)
    requires InCompletions(q.place) == InCompletions(reqs[r].place)
    ensures LoopsOk(lps[l := lp], reqs[r := q])
  {
    LoopsUnaffected(lps, reqs, r, q);
    SameCompletions(lps, reqs[r := q], l, lp);
  }

  lemma CancelInsertKeeps(s: State, l: nat)
    requires Inv(s) && CancelCan(s, l, Insert)
    ensures Inv(CancelDo(s, l, Insert))
  {
    var s' := CancelDo(s, l, Insert);
    var r := s.loops[l].op.r;
    var q, lp := s'.reqs[r], s'.loops[l];
    Holding(s, l);
    CancelledQueued(s.loops, s.reqs, l, lp, r, q);
    CancellerMoves(s, l, lp, s.loopMutex[l], r, q);
    assert s' == Turned(s, l, lp, s.poolMutex, s.loopMutex[l]).(reqs := s.reqs[r := q]);
  }

  /** A request that the canceller settles stays in the completion list. */
  lemma CancelReturnKeeps(s: State, l: nat)
    requires Inv(s) && CancelCan(s, l, UnlockAgain)
    ensures Inv(CancelDo(s, l, UnlockAgain))
  {
    var s' := CancelDo(s, l, UnlockAgain);
    var r := s.loops[l].op.r;
    var q, lp := s'.reqs[r], s'.loops[l];
    Holding(s, l);
    CancelledStays(s.loops, s.reqs, l, lp, r, q);
    CancellerMoves(s, l, lp, Free, r, q);
    assert s' == Turned(s, l, lp, s.poolMutex, Free).(reqs := s.reqs[r := q]);
  }

  lemma CancelKeeps(s: State, l: nat, c: CancelStep)
    requires Inv(s) && CancelCan(s, l, c)
    ensures Inv(CancelDo(s, l, c))
  {
    match c
    case Begin(r) => CancelBeginKeeps(s, l, r);
    case LockPool => CancelPoolKeeps(s, l, c);
    case LockBoth => CancelLoopKeeps(s, l, c);
    case Test => CancelTestKeeps(s, l);
    case UnlockLoopFirst => CancelLoopKeeps(s, l, c);
    case UnlockPool => CancelPoolKeeps(s, l, c);
    case Mark => CancelMarkKeeps(s, l);
    case LockAgain => CancelLoopKeeps(s, l, c);
    case Insert => CancelInsertKeeps(s, l);
    case UnlockAgain => CancelReturnKeeps(s, l);
  }

  // ---------- steps of a loop thread that reports ----------

  lemma DoneLockKeeps(s: State, l: nat, d: DoneStep)
    requires Inv(s) && DoneCan(s, l, d) && (d.DoneLock? || d.DoneUnlock?)
    ensures Inv(DoneDo(s, l, d))
  {
    Holding(s, l);
    var s' := DoneDo(s, l, d);
    LoopMovesOn(s, l, s'.loops[l], s.poolMutex, s'.loopMutex[l]);
    assert s' == Turned(s, l, s'.loops[l], s.poolMutex, s'.loopMutex[l]);
  }

  lemma NoticeKeeps(s: State, l: nat, d: DoneStep)
    requires Inv(s) && DoneCan(s, l, d) && (d.Notice? || d.End?)
    ensures Inv(DoneDo(s, l, d))
  {
    Holding(s, l);
    var s' := DoneDo(s, l, d);
    LoopMovesOn(s, l, s'.loops[l], s.poolMutex, s.loopMutex[l]);
    assert s' == Turned(s, l, s'.loops[l], s.poolMutex, s.loopMutex[l]);
  }

  lemma SplitKeeps(s: State, l: nat)
    requires Inv(s) && DoneCan(s, l, Split)
    ensures Inv(DoneDo(s, l, Split))
  {
    Holding(s, l);
    var s' := DoneDo(s, l, Split);
    assert s'.loops[l].batch + s'.loops[l].queue == s.loops[l].batch + s.loops[l].queue;
    LoopMovesOn(s, l, s'.loops[l], s.poolMutex, s.loopMutex[l]);
    assert s' == Turned(s, l, s'.loops[l], s.poolMutex, s.loopMutex[l]);
  }

  lemma HeadGone<T>(a: seq<T>, b: seq<T>)
    requires a != [] && NoDup(a + b)
    ensures NoDup(a[1..] + b)
    ensures forall x :: x in a[1..] + b <==> x in a + b && x != a[0]
  {
    var c, d := a + b, a[1..] + b;
    assert forall i :: 0 <= i < |d| ==> d[i] == c[i+1];
    assert forall i :: 1 <= i < |c| ==> c[i] == d[i-1];
    forall x ensures x in d <==> x in c && x != a[0] {
      if x in c && x != a[0] {
        var i :| 0 <= i < |c| && c[i] == x;
        assert d[i-1] == x;
      }
      if x in d {
        var i :| 0 <= i < |d| && d[i] == x;
        assert c[0] == a[0] && c[i+1] == x;
      }
    }
  }

  lemma ReportKeeps(s: State, l: nat)
    requires Inv(s) && DoneCan(s, l, Report)
    ensures Inv(DoneDo(s, l, Report))
  {
    var s' := DoneDo(s, l, Report);
    var lp := s.loops[l];
    var r := lp.batch[0];
    var q := s'.reqs[r];
    assert LoopOk(lp) && LoopPlaces(lp, l, s.reqs);
    assert r in lp.batch + lp.queue;
    assert s.reqs[r].place.Complete?;
    WorkersUnaffected(s.workers, s.reqs, r, q);
    OpsUnaffected(s.loops, s.reqs, r, q);
    OpMovesOn(s.loops, s'.reqs, l, s'.loops[l]);
    PoolUnaffected(s.pool, s.reqs, r, q);
    HeadGone(lp.batch, lp.queue);
    LoopChanges(s.loops, s.reqs, l, s'.loops[l], r, q);
    LoopMutexUnaffected(s.loopMutex, s.workers, s.loops, s.reqs, r, q);
    LoopMutexOtherWorkers(s.loopMutex, s.workers, s.loops, s'.reqs, s'.workers, s'.loops);
    SameSignals(s.loops, s'.loops, s.main);
  }

  lemma DoneKeeps(s: State, l: nat, d: DoneStep)
    requires Inv(s) && DoneCan(s, l, d)
    ensures Inv(DoneDo(s, l, d))
  {
    match d
    case Notice => NoticeKeeps(s, l, d);
    case DoneLock => DoneLockKeeps(s, l, d);
    case Split => SplitKeeps(s, l);
    case DoneUnlock => DoneLockKeeps(s, l, d);
    case Report => ReportKeeps(s, l);
    case End => NoticeKeeps(s, l, d);
  }

  // ---------- steps of the main thread ----------

  lemma ExitKeeps(s: State, e: ExitStep)
    requires Inv(s) && ExitCan(s, e)
    ensures Inv(ExitDo(s, e))
  {
    var s' := ExitDo(s, e);
    if e.ExitSignal? {
      WakeKeeps(s, e.wake);
      LoopMutexOtherWorkers(s.loopMutex, s.workers, s.loops, s.reqs, s'.workers, s'.loops);
    }
  }

  // ---------- runs ----------

  lemma StepKeeps(s: State, step: Step)
    requires Inv(s) && Can(s, step)
    ensures Inv(Do(s, step))
  {
    match step
    case ByWorkerThread(i, w) => WorkerKeeps(s, i, w);
    case ByPoster(l, p) => PostKeeps(s, l, p);
    case ByCanceller(l, c) => CancelKeeps(s, l, c);
    case ByReporter(l, d) => DoneKeeps(s, l, d);
    case ByMainThread(e) => ExitKeeps(s, e);
  }

  /** Every state of every run satisfies the invariant. */
  lemma {:induction false} RunsOk(ss: seq<State>, steps: seq<Step>, n: nat)
    requires IsRun(ss, steps) && n < |ss|
    ensures Inv(ss[n])
  {
    if n == 0 {
      InitOk(ss[0]);
    } else {
      RunsOk(ss, steps, n - 1);
      StepKeeps(ss[n-1], steps[n-1]);
    }
  }
}
