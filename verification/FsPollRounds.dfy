/**
 Watching a file by polling it, part 4: what is news, case by case, and the rounds of a context from its start on.
 */
module FsPollRounds {
  import opened Options
  import opened FsPoll
  import Runs = FsPollRuns

  // ---------- what is news ----------

  /**
   The first outcome is news if the stat failed. After that it is news that the file is gone, that it is there again,
   that the stat fails in another way, and that a field which counts has changed.
   */
  lemma NewsExactly(seen: seq<Outcome>, a: Outcome, b: Outcome)
    ensures News([a]) <==> a.Failed?
    ensures a.Found? != b.Found? ==> News(seen + [a, b])
    ensures a.Failed? && b.Failed? ==> (News(seen + [a, b]) <==> a.err != b.err)
    ensures a.Found? && b.Found? ==> (News(seen + [a, b]) <==> !StatEq(a.st, b.st))
  {
    var s := seen + [a, b];
    assert s[|s| - 2] == a && s[|s| - 1] == b;
  }

  /** The outcomes from `k` on were all failures. */
  predicate FailedFrom(seen: seq<Outcome>, k: nat) {
    forall i :: k <= i < |seen| ==> seen[i].Failed?
  }

  /**
   What is told with an outcome: how the file was when it was last found, or nothing but zeros if it never was, and
   how it is now.
   */
  lemma {:induction false} ToldWith(before: seq<Outcome>, o: Outcome, k: nat)
    ensures k < |before| && before[k].Found? && FailedFrom(before, k + 1) ==>
        FsPoll.Told(before, o).prev == before[k].st
    ensures FailedFrom(before, 0) ==> FsPoll.Told(before, o).prev == ZERO_STAT
    ensures match o
      case Failed(err) => FsPoll.Told(before, o).status == err && FsPoll.Told(before, o).curr == ZERO_STAT
      case Found(st) => FsPoll.Told(before, o).status == 0 && FsPoll.Told(before, o).curr == st
  {
    if before != [] {
      var n := |before| - 1;
      if before[n].Failed? { ToldWith(before[..n], o, k); }
    }
  }

  // ---------- starting and stopping ----------

  /** A handle that is started gets a context of its own, whose first stat is under way. */
  lemma StartStarts(s: State, h: Handle, interval: nat)
    requires Inv(s, {}) && h !in s.active
    ensures var id, s' := s.next, Acted(s, Start(h, interval));
      && s'.active == s.active + {h} && s'.pollCtx == s.pollCtx[h := id] && id !in s.contexts
      && id in s'.contexts && s'.contexts[id].parent == Some(h) && s'.contexts[id].start == s.now
      && s'.contexts[id].interval == (if interval == 0 then 1 else interval)
      && s'.stats == s.stats + {id} && s'.timers == s.timers && s'.closing == s.closing
  {
  }

  /** A handle that is active is not started again. */
  lemma StartAgain(s: State, h: Handle, interval: nat)
    requires Inv(s, {}) && h in s.active
    ensures Acted(s, Start(h, interval)) == s
  {
  }

  /** Stopping takes the context from its handle; it is on its way out at once unless a stat of it is under way. */
  lemma StopStops(s: State, h: Handle)
    requires Inv(s, {}) && h in s.active
    ensures var id, s' := s.pollCtx[h], Acted(s, Stop(h));
      && s'.active == s.active - {h} && s'.pollCtx == s.pollCtx - {h}
      && id in s'.contexts && s'.contexts[id].parent == None && s'.stats == s.stats
      && (id in s'.closing <==> id !in s.stats) && id !in s'.timers
      && (forall i :: i in s.contexts && i != id ==> i in s'.contexts && s'.contexts[i] == s.contexts[i])
      && (forall i :: i != id ==> (i in s'.closing <==> i in s.closing) && (i in s'.timers <==> i in s.timers))
  {
  }

  lemma StopIdle(s: State, h: Handle)
    requires Inv(s, {}) && h !in s.active
    ensures Acted(s, Stop(h)) == s
  {
  }

  // ---------- rounds ----------

  /** When the timer of a context is due, its next stat begins, and with it its next round. */
  lemma TimerBegins(s: Runs.LoopState, id: Id)
    requires Runs.Enabled(s, Runs.TimerDue(id))
    ensures var s' := Runs.Step(s, Runs.TimerDue(id));
      && id in s'.stats && id !in s'.timers && id in s.contexts
      && s'.contexts == s.contexts[id := s.contexts[id].(start := s.now)]
  {
  }

  /** The end of the close frees the context. */
  lemma CloseFrees(s: Runs.LoopState, id: Id)
    requires Runs.Enabled(s, Runs.CloseEnds(id))
    ensures var s' := Runs.Step(s, Runs.CloseEnds(id)); s'.contexts == s.contexts - {id} && id !in s'.closing
  {
  }

  /** The end of a stat: the context waits for its next round, or is on its way out if it was stopped. */
  lemma StatLeads(s: Runs.LoopState, id: Id, o: Outcome, acts: seq<Act>)
    requires Runs.Enabled(s, Runs.StatEnds(id, o, acts))
    ensures var s' := Runs.Step(s, Runs.StatEnds(id, o, acts));
      && id in s'.contexts && id !in s'.stats
      && (id in s'.timers <==> s'.contexts[id].parent.Some?) && (id in s'.closing <==> s'.contexts[id].parent.None?)
  {
    RequestOverKeeps(s, id);
    var s0 := RequestOver(s, id);
    if s0.contexts[id].parent.Some? {
      var s1 := CalledBack(s0, id, o, acts);
      NotedKeeps(s1, id, o);
    }
  }

  /** The round of the context goes on: its interval and its start are as before, and so is when the timer is due. */
  ghost predicate Goes(s: State, s': State, id: Id) {
    && (id in s.contexts && id in s'.contexts ==>
          s'.contexts[id].interval == s.contexts[id].interval && s'.contexts[id].start == s.contexts[id].start)
    && (id in s.timers && id in s'.timers ==> s'.timers[id] == s.timers[id])
    && (id in s.timers && id !in s'.timers ==> Runs.Over(s', id))
    && (id < s.next && id !in s.contexts ==> id !in s'.contexts)
  }

  lemma ActGoes(s: State, a: Act, running: set<Id>, id: Id)
    requires Inv(s, running) && id < s.next
    ensures Goes(s, Acted(s, a), id) && id < Acted(s, a).next
  {
  }

  lemma GoesOn(s: State, t: State, u: State, id: Id, running: set<Id>)
    requires Inv(t, running) && Goes(s, t, id) && Goes(t, u, id) && id < s.next && id < t.next
    requires id in s.timers ==> id in s.contexts
    requires id in s.timers && id !in t.timers ==> Runs.Over(u, id) && id !in u.timers
    ensures Goes(s, u, id)
  {
  }

  lemma {:induction false} ActsGo(s: State, acts: seq<Act>, running: set<Id>, id: Id)
    requires Inv(s, running) && id < s.next
    ensures Goes(s, ActedAll(s, acts, running), id) && id < ActedAll(s, acts, running).next
    decreases acts
  {
    if acts != [] {
      var t := Acted(s, acts[0]);
      ActKeeps(s, acts[0], running);
      ActGoes(s, acts[0], running, id);
      ActsGo(t, acts[1..], running, id);
      if id in s.timers && id !in t.timers { Runs.ActsEnd(t, acts[1..], running, id); }
      GoesOn(s, t, ActedAll(t, acts[1..], running), id, running);
    }
  }

  lemma CallbackGoes(s: State, i: Id, o: Outcome, acts: seq<Act>, id: Id)
    requires Inv(s, {i}) && i in s.contexts && Accurate(s, i) && id < s.next
    ensures Goes(s, CalledBack(s, i, o, acts), id) && id < CalledBack(s, i, o, acts).next
  {
    NotifiedKeeps(s, i, o);
    if Fires(s.contexts[i], o) { ActsGo(Notified(s, i, o), acts, {i}, id); }
  }

  lemma FinishGoes(s: State, i: Id, o: Outcome, id: Id)
    requires Inv(s, {i}) && i in s.contexts && i in s.seen && i in s.calls && id < s.next
    requires s.calls[i] == Reports(s.seen[i] + [o])
    ensures Goes(s, Finished(s, i, o), id) && id < Finished(s, i, o).next
  {
    NotedKeeps(s, i, o);
  }

  lemma PollGoes(s: State, i: Id, o: Outcome, acts: seq<Act>, id: Id)
    requires Inv(s, {}) && i in s.stats && id < s.next
    ensures Goes(s, PollDone(s, i, o, acts), id) && id < PollDone(s, i, o, acts).next
  {
    RequestOverKeeps(s, i);
    var s0 := RequestOver(s, i);
    if s0.contexts[i].parent.Some? {
      var s1 := CalledBack(s0, i, o, acts);
      CallbackGoes(s0, i, o, acts, id);
      FinishGoes(s1, i, o, id);
      if id in s0.timers && id !in s1.timers { Runs.FinishEnds(s1, i, o, id); }
      GoesOn(s0, s1, Finished(s1, i, o), id, {i});
    }
  }

  lemma StepGoes(s: Runs.LoopState, e: Runs.Event, id: Id)
    requires Runs.Enabled(s, e) && id < s.next && e != Runs.TimerDue(id)
    ensures Goes(s, Runs.Step(s, e), id) && id < Runs.Step(s, e).next
  {
    match e
    case User(a) => ActGoes(s, a, {}, id);
    case StatEnds(i, o, acts) => PollGoes(s, i, o, acts, id);
    case TimerDue(_) =>
    case CloseEnds(_) =>
  }

  /**
   Until the timer of a context fires, its interval, the start of its round and the time at which the timer is due
   stay what they are, whatever else happens.
   */
  lemma {:induction false} RoundGoesOn(s: Runs.LoopState, run: seq<Runs.Event>, id: Id)
    requires Runs.Possible(s, run) && id < s.next && Runs.TimerDue(id) !in run
    ensures Goes(s, Runs.After(s, run), id)
    decreases run
  {
    if run != [] {
      var t, u := Runs.Step(s, run[0]), Runs.After(s, run);
      StepGoes(s, run[0], id);
      RoundGoesOn(t, run[1..], id);
      if id in s.timers && id !in t.timers { Runs.StoppedForGood(t, run[1..], id); }
      GoesOn(s, t, u, id, {});
    }
  }

  /** A context that is freed does not come back. */
  lemma StillThere(s: Runs.LoopState, run: seq<Runs.Event>, id: Id)
    requires Runs.Possible(s, run) && run != [] && id in s.contexts && id in Runs.After(s, run).contexts
    ensures id in Runs.Step(s, run[0]).contexts
  {
    var t := Runs.Step(s, run[0]);
    if run[0] != Runs.TimerDue(id) { StepGoes(s, run[0], id); }
    if id !in t.contexts { Runs.StoppedForGood(t, run[1..], id); }
  }

  /** The interval of a context never changes. */
  lemma {:induction false} IntervalStays(s: Runs.LoopState, run: seq<Runs.Event>, id: Id)
    requires Runs.Possible(s, run) && id in s.contexts && id in Runs.After(s, run).contexts
    ensures Runs.After(s, run).contexts[id].interval == s.contexts[id].interval
    decreases run
  {
    if run != [] {
      var t := Runs.Step(s, run[0]);
      StillThere(s, run, id);
      if run[0] != Runs.TimerDue(id) { StepGoes(s, run[0], id); }
      IntervalStays(t, run[1..], id);
    }
  }
}
