/**
 Watching a file by polling it, part 2: all runs. A run is what the user does and what the loop delivers, in any
 order the loop allows: the end of a stat request that is in flight, a timer that is due, and the end of a close.
 */
module FsPollRuns {
  import opened Options
  import opened FsPoll

  datatype Event =
    | User(act: Act)
    | StatEnds(id: Id, outcome: Outcome, acts: seq<Act>)
    | TimerDue(id: Id)
    | CloseEnds(id: Id)

  /** What the loop's state is between two callbacks. */
  type LoopState = s: State | Inv(s, {}) ghost witness (InitialOk(); INITIAL)

  lemma InitialOk()
    ensures Inv(INITIAL, {})
  {
  }

  ghost predicate Enabled(s: State, e: Event) {
    match e
    case User(_) => true
    case StatEnds(id, _, _) => id in s.stats
    case TimerDue(id) => id in s.timers && s.timers[id] <= s.now
    case CloseEnds(id) => id in s.closing
  }

  function Step(s: LoopState, e: Event): (s': LoopState)
    requires Enabled(s, e)
  {
    match e
    case User(act) =>
      ActKeeps(s, act, {});
      Acted(s, act)
    case StatEnds(id, o, acts) =>
      PollDone(s, id, o, acts)
    case TimerDue(id) =>
      TimerFiredKeeps(s, id);
      TimerFired(s, id)
    case CloseEnds(id) =>
      TimerClosedKeeps(s, id);
      TimerClosed(s, id)
  }

  ghost predicate Possible(s: LoopState, run: seq<Event>)
    decreases run
  {
    run == [] || (Enabled(s, run[0]) && Possible(Step(s, run[0]), run[1..]))
  }

  function After(s: LoopState, run: seq<Event>): (s': LoopState)
    requires Possible(s, run)
    decreases run
  {
    if run == [] then s else After(Step(s, run[0]), run[1..])
  }

  // ---------- the end of a context ----------

  /** The context was stopped, or is gone. */
  ghost predicate Over(s: State, id: Id) {
    id < s.next && (id in s.contexts ==> s.contexts[id].parent.None?)
  }

  /** How many events of its own a stopped context has before it: the end of its stat and that of its close. */
  function Left(s: State, id: Id): (n: nat) {
    if id in s.stats then 2 else if id in s.closing then 1 else 0
  }

  predicate Concerns(e: Event, id: Id) {
    !e.User? && e.id == id
  }

  function Own(run: seq<Event>, id: Id): (n: nat) {
    if run == [] then 0 else (if Concerns(run[0], id) then 1 else 0) + Own(run[1..], id)
  }

  /**
   From `s` to `s'` the user hears nothing of a context that was over before, and `own` of its events are gone.
   */
  ghost predicate Ends(s: State, s': State, id: Id, own: nat) {
    && Over(s', id)
    && id in s.seen && id in s.calls && id in s'.seen && id in s'.calls
    && s'.calls[id] == s.calls[id] && s'.seen[id] == s.seen[id]
    && Left(s, id) == Left(s', id) + own
    && (id in s'.contexts ==> id in s.contexts)
  }

  lemma {:induction false} ActsEnd(s: State, acts: seq<Act>, running: set<Id>, id: Id)
    requires Inv(s, running) && Over(s, id)
    ensures Ends(s, ActedAll(s, acts, running), id, 0)
    decreases acts
  {
    if acts != [] {
      ActKeeps(s, acts[0], running);
      ActEnds(s, acts[0], running, id);
      ActsEnd(Acted(s, acts[0]), acts[1..], running, id);
    }
  }

  lemma ActEnds(s: State, a: Act, running: set<Id>, id: Id)
    requires Inv(s, running) && Over(s, id)
    ensures Ends(s, Acted(s, a), id, 0)
  {
    assert id != s.next;
  }

  lemma StepEnds(s: LoopState, e: Event, id: Id)
    requires Enabled(s, e) && Over(s, id)
    ensures Ends(s, Step(s, e), id, if Concerns(e, id) then 1 else 0)
  {
    match e
    case User(act) =>
      ActEnds(s, act, {}, id);
    case StatEnds(i, o, acts) =>
      PollEnds(s, i, o, acts, id);
    case TimerDue(i) =>
    case CloseEnds(i) =>
  }

  lemma CallbackEnds(s: State, i: Id, o: Outcome, acts: seq<Act>, id: Id)
    requires Inv(s, {i}) && i in s.contexts && Accurate(s, i) && Over(s, id) && i != id
    ensures Ends(s, CalledBack(s, i, o, acts), id, 0)
  {
    NotifiedKeeps(s, i, o);
    if Fires(s.contexts[i], o) {
      ActsEnd(Notified(s, i, o), acts, {i}, id);
    }
  }

  lemma FinishEnds(s: State, i: Id, o: Outcome, id: Id)
    requires Inv(s, {i}) && i in s.contexts && i in s.seen && i in s.calls
    requires s.calls[i] == Reports(s.seen[i] + [o]) && Over(s, id) && i != id
    ensures Ends(s, Finished(s, i, o), id, 0)
  {
    NotedKeeps(s, i, o);
    NotedEnds(s, i, o, id);
  }

  lemma NotedEnds(s: State, i: Id, o: Outcome, id: Id)
    requires i in s.contexts && i in s.seen && id in s.seen && id in s.calls && Over(s, id) && i != id
    ensures Ends(s, Noted(s, i, o), id, 0)
  {
  }

  lemma PollEnds(s: State, i: Id, o: Outcome, acts: seq<Act>, id: Id)
    requires Inv(s, {}) && i in s.stats && Over(s, id)
    ensures Ends(s, PollDone(s, i, o, acts), id, if i == id then 1 else 0)
  {
    RequestOverKeeps(s, i);
    var s0 := RequestOver(s, i);
    if s0.contexts[i].parent.Some? {
      CallbackEnds(s0, i, o, acts, id);
      FinishEnds(CalledBack(s0, i, o, acts), i, o, id);
    }
  }

  /**
   The end of a context, in every run: once it is stopped nothing is reported for it any more, it is never started
   again, and every event of its own brings it one step nearer to its memory being free. There are at most two.
   */
  lemma {:induction false} StoppedForGood(s: LoopState, run: seq<Event>, id: Id)
    requires Possible(s, run) && Over(s, id)
    ensures Ends(s, After(s, run), id, Own(run, id))
    decreases run
  {
    if run != [] {
      StepEnds(s, run[0], id);
      StoppedForGood(Step(s, run[0]), run[1..], id);
    }
  }

  // ---------- what is seen and said ----------

  function SeenBy(s: State, id: Id): (seen: seq<Outcome>) {
    if id in s.seen then s.seen[id] else []
  }

  function OutcomeOf(e: Event, id: Id): (seen: seq<Outcome>) {
    if e.StatEnds? && e.id == id then [e.outcome] else []
  }

  /** How the stat requests of a context ended, in a run. */
  function Outcomes(run: seq<Event>, id: Id): (seen: seq<Outcome>) {
    if run == [] then [] else OutcomeOf(run[0], id) + Outcomes(run[1..], id)
  }

  lemma ActSeesNothing(s: State, a: Act, running: set<Id>, id: Id)
    requires Inv(s, running)
    ensures SeenBy(Acted(s, a), id) == SeenBy(s, id)
  {
    assert s.next !in s.seen;
  }

  lemma {:induction false} ActsSeeNothing(s: State, acts: seq<Act>, running: set<Id>, id: Id)
    requires Inv(s, running)
    ensures SeenBy(ActedAll(s, acts, running), id) == SeenBy(s, id)
    decreases acts
  {
    if acts != [] {
      ActKeeps(s, acts[0], running);
      ActSeesNothing(s, acts[0], running, id);
      ActsSeeNothing(Acted(s, acts[0]), acts[1..], running, id);
    }
  }

  lemma FinishSees(s: State, i: Id, o: Outcome, id: Id)
    requires Inv(s, {i}) && i in s.contexts && i in s.seen && i in s.calls
    requires s.calls[i] == Reports(s.seen[i] + [o])
    ensures SeenBy(Finished(s, i, o), id) == SeenBy(s, id) + if i == id then [o] else []
  {
    NotedKeeps(s, i, o);
  }

  lemma CallbackSees(s: State, i: Id, o: Outcome, acts: seq<Act>, id: Id)
    requires Inv(s, {i}) && i in s.contexts && Accurate(s, i)
    ensures SeenBy(CalledBack(s, i, o, acts), id) == SeenBy(s, id)
  {
    NotifiedKeeps(s, i, o);
    if Fires(s.contexts[i], o) {
      ActsSeeNothing(Notified(s, i, o), acts, {i}, id);
    }
  }

  lemma PollSees(s: State, i: Id, o: Outcome, acts: seq<Act>, id: Id)
    requires Inv(s, {}) && i in s.stats
    ensures i in s.contexts
    ensures SeenBy(PollDone(s, i, o, acts), id)
         == SeenBy(s, id) + if i == id && s.contexts[i].parent.Some? then [o] else []
  {
    RequestOverKeeps(s, i);
    var s0 := RequestOver(s, i);
    if s0.contexts[i].parent.Some? {
      CallbackSees(s0, i, o, acts, id);
      FinishSees(CalledBack(s0, i, o, acts), i, o, id);
    }
  }

  lemma StepSees(s: LoopState, e: Event, id: Id)
    requires Enabled(s, e) && !Over(Step(s, e), id)
    ensures SeenBy(Step(s, e), id) == SeenBy(s, id) + OutcomeOf(e, id)
  {
    if Over(s, id) {
      StepEnds(s, e, id);
      assert false;
    } else if e.StatEnds? {
      PollSees(s, e.id, e.outcome, e.acts, id);
    } else if e.User? {
      ActSeesNothing(s, e.act, {}, id);
    }
  }

  lemma {:induction false} SeesAll(s: LoopState, run: seq<Event>, id: Id)
    requires Possible(s, run) && !Over(After(s, run), id)
    ensures SeenBy(After(s, run), id) == SeenBy(s, id) + Outcomes(run, id)
    decreases run
  {
    if run != [] {
      var s1 := Step(s, run[0]);
      if Over(s1, id) {
        StoppedForGood(s1, run[1..], id);
        assert false;
      }
      StepSees(s, run[0], id);
      SeesAll(s1, run[1..], id);
    }
  }

  // ---------- every run ----------

  predicate ExactlyOne(a: bool, b: bool, c: bool) {
    (a || b || c) && !(a && b) && !(a && c) && !(b && c)
  }

  /** A context in memory is in exactly one of the three places, and one that is not in memory is in none. */
  ghost predicate InOnePlace(s: State, id: Id) {
    if id in s.contexts then
      ExactlyOne(id in s.stats, id in s.timers, id in s.closing)
    else
      id !in s.stats && id !in s.timers && id !in s.closing
  }

  lemma Located(s: LoopState, id: Id)
    ensures InOnePlace(s, id)
  {
  }

  lemma Told(s: LoopState, id: Id)
    requires id < s.next
    ensures Accurate(s, id)
  {
  }

  lemma SeesAllFromStart(run: seq<Event>, id: Id)
    requires Possible(INITIAL, run) && !Over(After(INITIAL, run), id)
    ensures SeenBy(After(INITIAL, run), id) == Outcomes(run, id)
  {
    SeesAll(INITIAL, run, id);
    assert SeenBy(INITIAL, id) == [];
  }

  /**
   In every run from the start every context is in one place at most, so that nothing that is to come can touch one
   that is freed. The user was told what there was to tell of the outcomes the context has seen; those are all of
   them while it is not stopped.
   */
  lemma EveryRun(run: seq<Event>, id: Id)
    requires Possible(INITIAL, run) && id < After(INITIAL, run).next
    ensures InOnePlace(After(INITIAL, run), id)
    ensures Accurate(After(INITIAL, run), id)
    ensures !Over(After(INITIAL, run), id) ==> SeenBy(After(INITIAL, run), id) == Outcomes(run, id)
  {
    var s := After(INITIAL, run);
    Located(s, id);
    Told(s, id);
    if !Over(s, id) {
      SeesAllFromStart(run, id);
    }
  }

  /**
   No context in memory points to a handle that is not active: its owner may free it. One that is active has one
   context, which a timer that is due finds in its handle, as the callback of the timer asserts.
   */
  lemma HandlesKnown(s: State, h: Handle, id: Id)
    requires Inv(s, {})
    ensures h !in s.active && id in s.contexts ==> s.contexts[id].parent != Some(h)
    ensures id in s.timers ==> id in s.contexts && s.contexts[id].parent.Some?
    ensures id in s.timers ==> var p := s.contexts[id].parent.value; p in s.active && s.pollCtx[p] == id
  {
  }

  ghost predicate FirstLeft(c: Context, now: nat, due: nat, t: nat) {
    && now < due <= now + c.interval
    && OnGrid(c.start, c.interval, due)
    && (OnGrid(c.start, c.interval, t) && now < t ==> due <= t)
  }

  lemma ArmedAt(s: State, id: Id, o: Outcome, t: nat)
    requires Inv(s, {id}) && id in s.contexts && id in s.seen && id in s.calls
    requires s.calls[id] == Reports(s.seen[id] + [o]) && id in Finished(s, id, o).timers
    ensures var s' := Finished(s, id, o); FirstLeft(s.contexts[id], s'.now, s'.timers[id], t)
  {
    NotedKeeps(s, id, o);
    var c := s.contexts[id];
    assert Timely(s, id);
    DueNext(s.now, c.start, c.interval, t);
  }

  lemma CallbackKeepsRound(s: State, id: Id, o: Outcome, acts: seq<Act>)
    requires Inv(s, {id}) && id in s.contexts && Accurate(s, id)
    ensures var c, c' := s.contexts[id], CalledBack(s, id, o, acts).contexts[id];
      c'.start == c.start && c'.interval == c.interval
  {
    NotifiedKeeps(s, id, o);
    ActsLeave(Notified(s, id, o), acts, {id}, id);
  }

  /** The timer armed at the end of a round is due at the first point of the round's grid that is left. */
  lemma ArmedFor(s: State, id: Id, o: Outcome, acts: seq<Act>, t: nat)
    requires Inv(s, {}) && id in s.stats && id in PollDone(s, id, o, acts).timers
    ensures id in s.contexts
    ensures var s' := PollDone(s, id, o, acts); FirstLeft(s.contexts[id], s'.now, s'.timers[id], t)
  {
    RequestOverKeeps(s, id);
    var s0 := RequestOver(s, id);
    CallbackKeepsRound(s0, id, o, acts);
    ArmedAt(CalledBack(s0, id, o, acts), id, o, t);
  }
}
