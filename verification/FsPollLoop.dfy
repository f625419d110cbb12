/**
 Watching a file by polling it, part 3: the callbacks, on an object that they update in place.
 */
module FsPollLoop {
  import opened Options
  import opened FsPoll

  class Loop {
    var now: nat
    var next: Id
    var contexts: map<Id, Context>
    var active: set<Handle>
    var pollCtx: map<Handle, Id>
    var stats: set<Id>
    var timers: map<Id, nat>
    var closing: set<Id>
    ghost var seen: map<Id, seq<Outcome>>
    ghost var calls: map<Id, seq<Report>>

    ghost function View(): (s: State)
      reads this
    {
      State(now, next, contexts, active, pollCtx, stats, timers, closing, seen, calls)
    }

    constructor ()
      ensures View() == INITIAL
    {
      now, next, contexts, active, pollCtx := 0, 0, map[], {}, map[];
      stats, timers, closing, seen, calls := {}, map[], {}, map[], map[];
    }

    method PollStart(h: Handle, interval: nat)
      modifies this
      ensures View() == Started(old(View()), h, interval)
    {
      if h in active {
        return;
      }
      var id := next;
      next := next + 1;
      var ctx := Context(Some(h), 0, if interval != 0 then interval else 1, now, ZERO_STAT);
      contexts := contexts[id := ctx];
      stats := stats + {id};
      pollCtx := pollCtx[h := id];
      active := active + {h};
      seen, calls := seen[id := []], calls[id := []];
    }

    method PollStop(h: Handle)
      requires Paired(View())
      modifies this
      ensures View() == Stopped(old(View()), h)
    {
      if h !in active {
        return;
      }
      var id := pollCtx[h];
      contexts := contexts[id := contexts[id].(parent := None)];
      pollCtx := pollCtx - {h};
      if id in timers {
        timers := timers - {id};
        closing := closing + {id};
      }
      active := active - {h};
    }

    /** The user's code, in a callback for a context of `running` or outside of one. */
    method UserActs(acts: seq<Act>, ghost running: set<Id>)
      requires Inv(View(), running)
      modifies this
      ensures View() == ActedAll(old(View()), acts, running)
      ensures Inv(View(), running)
      decreases acts
    {
      if acts == [] {
        return;
      }
      ActKeeps(View(), acts[0], running);
      match acts[0] {
        case Start(h, interval) => PollStart(h, interval);
        case Stop(h) => PollStop(h);
        case UpdateTime(elapsed) => now := now + elapsed;
      }
      UserActs(acts[1..], running);
    }

    method TimerCb(id: Id)
      requires Inv(View(), {}) && id in timers && timers[id] <= now
      modifies this
      ensures Inv(View(), {}) && id in old(contexts)
      ensures View() == TimerFired(old(View()), id)
    {
      TimerFiredKeeps(View(), id);
      timers := timers - {id};
      contexts := contexts[id := contexts[id].(start := now)];
      stats := stats + {id};
    }

    method TimerCloseCb(id: Id)
      requires Inv(View(), {}) && id in closing
      modifies this
      ensures Inv(View(), {})
      ensures View() == TimerClosed(old(View()), id)
    {
      TimerClosedKeeps(View(), id);
      closing := closing - {id};
      contexts := contexts - {id};
    }

    /** Calls the user if the outcome is news. */
    method Callback(id: Id, o: Outcome, acts: seq<Act>)
      requires Inv(View(), {id}) && id in contexts && Accurate(View(), id)
      modifies this
      ensures View() == CalledBack(old(View()), id, o, acts)
    {
      var c := contexts[id];
      NotifiedKeeps(View(), id, o);
      if o.Failed? {
        if c.busy != o.err {
          calls := calls[id := calls[id] + [Report(o.err, c.statbuf, ZERO_STAT)]];
          UserActs(acts, {id});
        }
      } else if c.busy != 0 {
        if c.busy < 0 || !StatEq(c.statbuf, o.st) {
          calls := calls[id := calls[id] + [Report(0, c.statbuf, o.st)]];
          UserActs(acts, {id});
        }
      }
    }

    method TakeNote(id: Id, o: Outcome)
      requires id in contexts && id in seen
      modifies this
      ensures View() == Noted(old(View()), id, o)
    {
      seen := seen[id := seen[id] + [o]];
      if o.Failed? {
        contexts := contexts[id := contexts[id].(busy := o.err)];
      } else {
        contexts := contexts[id := contexts[id].(statbuf := o.st)];
        contexts := contexts[id := contexts[id].(busy := 1)];
      }
    }

    /** Reschedules the timer, less the time that the stat took. */
    method Reschedule(id: Id)
      requires id in contexts && Timely(View(), id)
      modifies this
      ensures View() == Rearmed(old(View()), id)
    {
      var interval := contexts[id].interval;
      interval := interval - (now - contexts[id].start) % interval;
      timers := timers[id := now + interval];
    }

    /** What follows the callback. */
    method Finish(id: Id, o: Outcome)
      requires Inv(View(), {id}) && id in contexts && id in seen && id in calls
      requires calls[id] == Reports(seen[id] + [o])
      modifies this
      ensures View() == Finished(old(View()), id, o)
    {
      NotedKeeps(View(), id, o);
      TakeNote(id, o);
      if contexts[id].parent == None {
        closing := closing + {id};
      } else {
        assert Timely(View(), id);
        Reschedule(id);
      }
    }

    method PollCb(id: Id, o: Outcome, acts: seq<Act>)
      requires Inv(View(), {}) && id in stats
      modifies this
      ensures Inv(View(), {})
      ensures View() == PollDone(old(View()), id, o, acts)
    {
      RequestOverKeeps(View(), id);
      stats := stats - {id};
      if contexts[id].parent == None {
        AbandonedKeeps(View(), id);
        closing := closing + {id};
        return;
      }
      Callback(id, o, acts);
      Finish(id, o);
    }
  }
}
