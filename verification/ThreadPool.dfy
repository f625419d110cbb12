/**
 The thread pool of libuv: workers, posting, cancellation, completion and shutdown, as a transition
 system.  A step is one thread executing up to its next interaction with another thread, so all
 interleavings of lock operations, queue operations and wake-ups are covered.

 Assumptions taken from the library's rules of use: a request is cancelled only on the thread of its
 own loop, and not after its completion callback has started.
 */
module ThreadPool {
  import opened Options

  // ---------- state ----------

  type Id = int

  /** The work field of a request: the user's function, NULL once it ran, or the cancelled marker. */
  datatype Work = Job | Null | Cancelled

  /**
   Where a request's queue node is: being posted, in the pool queue, with a worker before or after its
   work ran, unlinked by a canceller before or after it set the marker, in the completion list of its
   loop while the canceller is still at work or for good, or reported.
   */
  datatype Place =
    | Posting | Pool | AtWorker(i: nat) | RanAt(i: nat) | Moving | Marked | Settling | Complete | Finished

  /**
   A request.  `self` says that its queue node links to itself, which is how a canceller recognises
   a request that is being executed.  The last four fields record what happened to it.
   */
  datatype Request = Request(loop: nat, work: Work, self: bool, place: Place,
                             ran: nat, done: nat, err: bool, cancelOk: bool)

  datatype Item = Req(r: Id) | ExitMessage

  datatype Owner = Free | ByWorker(i: nat) | ByLoop(l: nat) | ByMain

  /** Program counters of a worker. */
  datatype WorkerPc =
    | Start                 // about to lock the pool mutex
    | Check                 // holds it, looks at the queue
    | Waiting               // in the condition wait
    | Woken                 // about to lock again
    | Taken(r: Id)          // holds it, has dequeued r
    | Run(r: Id)            // released it, about to run the work
    | Ran(r: Id)            // about to lock the loop mutex
    | HasLoop(r: Id)        // holds it
    | Published(r: Id)      // holds it, has queued r as complete
    | Exiting               // holds the pool mutex, has seen the exit message
    | Exited

  /** What a loop thread is doing in the library. */
  datatype Op =
    | Idle
    | PostWant(r: Id) | PostHave(r: Id) | PostIn(r: Id) | PostSignalled(r: Id)
    | CancelWant(r: Id)     // about to lock the pool mutex
    | CancelPool(r: Id)     // holds it, about to lock the loop mutex
    | CancelBoth(r: Id)     // holds both
    | CancelTested(r: Id, ok: bool)
    | CancelPoolOnly(r: Id, ok: bool)
    | CancelMark(r: Id)     // released both, about to set the marker
    | CancelWantLoop(r: Id) // about to lock the loop mutex again
    | CancelLoop(r: Id)     // holds it
    | CancelIn(r: Id)       // holds it, has queued r
    | DoneWant | DoneHave | DoneSplit

  /** A loop: its completion queue, the batch being reported, and whether a wake-up is outstanding. */
  datatype Loop = Loop(queue: seq<Id>, batch: seq<Id>, reporting: bool, async: bool, op: Op)

  datatype Main = Before | ExitWant | ExitHave | ExitIn | ExitSignalled | After

  datatype State = State(
    pool: seq<Item>, workers: seq<WorkerPc>, loops: seq<Loop>, main: Main,
    poolMutex: Owner, loopMutex: seq<Owner>, reqs: map<Id, Request>)

  // ---------- steps ----------

  datatype WorkerStep = Lock | CheckQueue(wake: Option<nat>) | Spurious | Unlock | Work | LockLoop | Publish
      | UnlockLoop

  datatype PostStep = Submit(r: Id) | PostLock | PostInsert | PostSignal(wake: Option<nat>) | PostUnlock

  datatype CancelStep =
    | Begin(r: Id) | LockPool | LockBoth | Test | UnlockLoopFirst | UnlockPool
    | Mark | LockAgain | Insert | UnlockAgain

  datatype DoneStep = Notice | DoneLock | Split | DoneUnlock | Report | End

  datatype ExitStep = ExitBegin | ExitLock | ExitInsert | ExitSignal(wake: Option<nat>) | ExitUnlock

  datatype Step =
    | ByWorkerThread(i: nat, w: WorkerStep)
    | ByPoster(l: nat, p: PostStep)
    | ByCanceller(l: nat, c: CancelStep)
    | ByReporter(l: nat, d: DoneStep)
    | ByMainThread(e: ExitStep)

  /** Remove a queue node from the list it is in. */
  function Without<T(==)>(s: seq<T>, x: T): seq<T> {
    if s == [] then [] else if s[0] == x then s[1..] else [s[0]] + Without(s[1..], x)
  }

  predicate ValidWake(ws: seq<WorkerPc>, wake: Option<nat>) {
    match wake
    case None => forall j :: 0 <= j < |ws| ==> !ws[j].Waiting?
    case Some(j) => j < |ws| && ws[j].Waiting?
  }

  /** Signalling the condition wakes one waiting worker, if there is one. */
  function Wake(ws: seq<WorkerPc>, wake: Option<nat>): seq<WorkerPc> {
    match wake
    case None => ws
    case Some(j) => if j < |ws| then ws[j := Woken] else ws
  }

  function SetWorker(s: State, i: nat, pc: WorkerPc): State
    requires i < |s.workers|
  {
    s.(workers := s.workers[i := pc])
  }

  function SetLoop(s: State, l: nat, lp: Loop): State
    requires l < |s.loops|
  {
    s.(loops := s.loops[l := lp])
  }

  function SetOp(s: State, l: nat, op: Op): State
    requires l < |s.loops|
  {
    SetLoop(s, l, s.loops[l].(op := op))
  }

  function SetReq(s: State, r: Id, q: Request): State { s.(reqs := s.reqs[r := q]) }

  function SetLoopMutex(s: State, l: nat, o: Owner): State
    requires l < |s.loopMutex|
  {
    s.(loopMutex := s.loopMutex[l := o])
  }

  // A worker.

  predicate WorkerCan(s: State, i: nat, w: WorkerStep) {
    i < |s.workers| &&
    var pc := s.workers[i];
    match w
    case Lock => (pc.Start? || pc.Woken?) && s.poolMutex.Free?
    case CheckQueue(wake) =>
      && pc.Check?
      && (s.pool != [] && s.pool[0].ExitMessage? ==> ValidWake(s.workers, wake))
      && (s.pool != [] && s.pool[0].Req? ==> s.pool[0].r in s.reqs)
    case Spurious => pc.Waiting?
    case Unlock => pc.Taken? || pc.Exiting?
    case Work => pc.Run? && pc.r in s.reqs
    case LockLoop => pc.Ran? && pc.r in s.reqs && s.reqs[pc.r].loop < |s.loopMutex|
        && s.loopMutex[s.reqs[pc.r].loop].Free?
    case Publish => pc.HasLoop? && pc.r in s.reqs && s.reqs[pc.r].loop < |s.loops|
    case UnlockLoop => pc.Published? && pc.r in s.reqs && s.reqs[pc.r].loop < |s.loopMutex|
  }

  function WorkerDo(s: State, i: nat, w: WorkerStep): State
    requires WorkerCan(s, i, w)
  {
    var pc := s.workers[i];
    match w
    case Lock => SetWorker(s, i, Check).(poolMutex := ByWorker(i))
    case CheckQueue(wake) =>
      if s.pool == [] then SetWorker(s, i, Waiting).(poolMutex := Free)
      else if s.pool[0].ExitMessage? then s.(workers := Wake(s.workers[i := Exiting], wake))
      else
        var r := s.pool[0].r;
        SetReq(SetWorker(s, i, Taken(r)), r, s.reqs[r].(self := true, place := AtWorker(i))).(pool := s.pool[1..])
    case Spurious => SetWorker(s, i, Woken)
    case Unlock => SetWorker(s, i, if pc.Taken? then Run(pc.r) else Exited).(poolMutex := Free)
    case Work => SetReq(SetWorker(s, i, Ran(pc.r)), pc.r, s.reqs[pc.r].(ran := s.reqs[pc.r].ran + 1, place := RanAt(i)))
    case LockLoop => SetLoopMutex(SetWorker(s, i, HasLoop(pc.r)), s.reqs[pc.r].loop, ByWorker(i))
    case Publish =>
      var q := s.reqs[pc.r];
      var lp := s.loops[q.loop];
      SetReq(SetWorker(SetLoop(s, q.loop, lp.(queue := lp.queue + [pc.r], async := true)), i, Published(pc.r)),
             pc.r, q.(work := Null, self := false, place := Complete))
    case UnlockLoop => SetLoopMutex(SetWorker(s, i, Start), s.reqs[pc.r].loop, Free)
  }

  // A loop thread that submits a request.

  predicate PostCan(s: State, l: nat, p: PostStep) {
    l < |s.loops| &&
    var op := s.loops[l].op;
    match p
    case Submit(r) => op.Idle? && r !in s.reqs
    case PostLock => op.PostWant? && s.poolMutex.Free?
    case PostInsert => op.PostHave? && op.r in s.reqs
    case PostSignal(wake) => op.PostIn? && ValidWake(s.workers, wake)
    case PostUnlock => op.PostSignalled?
  }

  function PostDo(s: State, l: nat, p: PostStep): State
    requires PostCan(s, l, p)
  {
    var op := s.loops[l].op;
    match p
    case Submit(r) => SetReq(SetOp(s, l, PostWant(r)), r, Request(l, Job, false, Posting, 0, 0, false, false))
    case PostLock => SetOp(s, l, PostHave(op.r)).(poolMutex := ByLoop(l))
    case PostInsert =>
      SetReq(SetOp(s, l, PostIn(op.r)), op.r, s.reqs[op.r].(self := false, place := Pool)).(pool :=
          s.pool + [Req(op.r)])
    case PostSignal(wake) => SetOp(s, l, PostSignalled(op.r)).(workers := Wake(s.workers, wake))
    case PostUnlock => SetOp(s, l, Idle).(poolMutex := Free)
  }

  // A loop thread that cancels a request.

  predicate CancelCan(s: State, l: nat, c: CancelStep) {
    l < |s.loops| && l < |s.loopMutex| &&
    var op := s.loops[l].op;
    match c
    case Begin(r) => op.Idle? && r in s.reqs && s.reqs[r].loop == l && !s.reqs[r].place.Finished?
    case LockPool => op.CancelWant? && s.poolMutex.Free?
    case LockBoth => op.CancelPool? && s.loopMutex[l].Free?
    case Test => op.CancelBoth? && op.r in s.reqs
    case UnlockLoopFirst => op.CancelTested?
    case UnlockPool => op.CancelPoolOnly?
    case Mark => op.CancelMark? && op.r in s.reqs
    case LockAgain => op.CancelWantLoop? && s.loopMutex[l].Free?
    case Insert => op.CancelLoop? && op.r in s.reqs
    case UnlockAgain => op.CancelIn? && op.r in s.reqs
  }

  /** The canceller's test: the request is in some queue, and its work has not run. */
  predicate Cancellable(q: Request) { !q.self && !q.work.Null? }

  function CancelDo(s: State, l: nat, c: CancelStep): State
    requires CancelCan(s, l, c)
  {
    var lp := s.loops[l];
    var op := lp.op;
    match c
    case Begin(r) => SetOp(s, l, CancelWant(r))
    case LockPool => SetOp(s, l, CancelPool(op.r)).(poolMutex := ByLoop(l))
    case LockBoth => SetLoopMutex(SetOp(s, l, CancelBoth(op.r)), l, ByLoop(l))
    case Test =>
      if !Cancellable(s.reqs[op.r]) then SetOp(s, l, CancelTested(op.r, false))
      else
        SetReq(SetLoop(s, l,
            lp.(queue := Without(lp.queue, op.r), batch := Without(lp.batch, op.r), op := CancelTested(op.r, true))),
               op.r, s.reqs[op.r].(place := Moving)).(pool := Without(s.pool, Req(op.r)))
    case UnlockLoopFirst => SetLoopMutex(SetOp(s, l, CancelPoolOnly(op.r, op.ok)), l, Free)
    case UnlockPool => SetOp(s, l, if op.ok then CancelMark(op.r) else Idle).(poolMutex := Free)
    case Mark => SetReq(SetOp(s, l, CancelWantLoop(op.r)), op.r, s.reqs[op.r].(work := Cancelled, place := Marked))
    case LockAgain => SetLoopMutex(SetOp(s, l, CancelLoop(op.r)), l, ByLoop(l))
    case Insert =>
      SetReq(SetLoop(s, l, lp.(queue := lp.queue + [op.r], async := true, op := CancelIn(op.r))),
             op.r, s.reqs[op.r].(self := false, place := Settling))
    case UnlockAgain => SetReq(SetLoopMutex(SetOp(s, l, Idle), l, Free), op.r,
        s.reqs[op.r].(cancelOk := true, place := Complete))
  }

  // A loop thread that reports completions.

  predicate DoneCan(s: State, l: nat, d: DoneStep) {
    l < |s.loops| && l < |s.loopMutex| &&
    var lp := s.loops[l];
    match d
    case Notice => lp.op.Idle? && !lp.reporting && lp.async
    case DoneLock => lp.op.DoneWant? && s.loopMutex[l].Free?
    case Split => lp.op.DoneHave?
    case DoneUnlock => lp.op.DoneSplit?
    case Report => lp.op.Idle? && lp.reporting && lp.batch != [] && lp.batch[0] in s.reqs
    case End => lp.op.Idle? && lp.reporting && lp.batch == []
  }

  function DoneDo(s: State, l: nat, d: DoneStep): State
    requires DoneCan(s, l, d)
  {
    var lp := s.loops[l];
    match d
    case Notice => SetLoop(s, l, lp.(async := false, op := DoneWant))
    case DoneLock => SetLoopMutex(SetOp(s, l, DoneHave), l, ByLoop(l))
    case Split => SetLoop(s, l, lp.(batch := lp.queue, queue := [], op := DoneSplit))
    case DoneUnlock => SetLoopMutex(SetLoop(s, l, lp.(reporting := true, op := Idle)), l, Free)
    case Report =>
      var q := s.reqs[lp.batch[0]];
      SetReq(SetLoop(s, l, lp.(batch := lp.batch[1..])), lp.batch[0],
             q.(place := Finished, done := q.done + 1, err := q.work.Cancelled?))
    case End => SetLoop(s, l, lp.(reporting := false))
  }

  // The main thread that shuts the pool down.

  predicate ExitCan(s: State, e: ExitStep) {
    match e
    case ExitBegin => s.main.Before?
    case ExitLock => s.main.ExitWant? && s.poolMutex.Free?
    case ExitInsert => s.main.ExitHave?
    case ExitSignal(wake) => s.main.ExitIn? && ValidWake(s.workers, wake)
    case ExitUnlock => s.main.ExitSignalled?
  }

  function ExitDo(s: State, e: ExitStep): State
    requires ExitCan(s, e)
  {
    match e
    case ExitBegin => s.(main := ExitWant)
    case ExitLock => s.(main := ExitHave, poolMutex := ByMain)
    case ExitInsert => s.(main := ExitIn, pool := s.pool + [ExitMessage])
    case ExitSignal(wake) => s.(main := ExitSignalled, workers := Wake(s.workers, wake))
    case ExitUnlock => s.(main := After, poolMutex := Free)
  }

  predicate Can(s: State, step: Step) {
    match step
    case ByWorkerThread(i, w) => WorkerCan(s, i, w)
    case ByPoster(l, p) => PostCan(s, l, p)
    case ByCanceller(l, c) => CancelCan(s, l, c)
    case ByReporter(l, d) => DoneCan(s, l, d)
    case ByMainThread(e) => ExitCan(s, e)
  }

  function Do(s: State, step: Step): State
    requires Can(s, step)
  {
    match step
    case ByWorkerThread(i, w) => WorkerDo(s, i, w)
    case ByPoster(l, p) => PostDo(s, l, p)
    case ByCanceller(l, c) => CancelDo(s, l, c)
    case ByReporter(l, d) => DoneDo(s, l, d)
    case ByMainThread(e) => ExitDo(s, e)
  }

  /** A pool of `n` workers serving `m` loops, before anything happened. */
  predicate Init(s: State) {
    && s.pool == [] && s.main.Before? && s.poolMutex.Free? && s.reqs == map[]
    && |s.workers| >= 1 && (forall i :: 0 <= i < |s.workers| ==> s.workers[i].Start?)
    && |s.loopMutex| == |s.loops|
    && (forall l :: 0 <= l < |s.loops| ==> s.loops[l] == Loop([], [], false, false, Idle) && s.loopMutex[l].Free?)
  }

  /** A run: each state follows from the one before by the step between them. */
  predicate IsRun(ss: seq<State>, steps: seq<Step>) {
    && |ss| == |steps| + 1 && Init(ss[0])
    && forall i :: 0 <= i < |steps| ==> Can(ss[i], steps[i]) && ss[i+1] == Do(ss[i], steps[i])
  }
}
