/**
 Watching a file by polling it (core/libuv/src/fs-poll.c), part 1: the life of a poll context.

 A context is allocated when a handle is started, and belongs to three callbacks that hand it to each other: the
 stat request that is in flight, the timer that starts the next one, and the closing of that timer, which frees the
 context. The handle is the user's. It can be stopped and started again at any time, also from within the callback
 that reports a change, and it may be gone by the time the next of the three runs.

 The state keeps what the loop holds of the contexts apart from the memory they occupy. A context that is freed
 leaves the memory, so that reading it again would not be well defined.
 */
module FsPoll {
  import opened Options

  type Id = nat
  type Handle = nat

  datatype TimeSpec = TimeSpec(sec: int, nsec: int)

  datatype Stat = Stat(
    dev: nat, mode: nat, nlink: nat, uid: nat, gid: nat, rdev: nat, ino: nat, size: nat, blksize: nat, blocks: nat,
    flags: nat, gen: nat, atim: TimeSpec, mtim: TimeSpec, ctim: TimeSpec, birthtim: TimeSpec)

  const ZERO_TIME := TimeSpec(0, 0)
  const ZERO_STAT := Stat(0, 0, 0, 0, 0, 0, 0, 0, 0, 0, 0, 0, ZERO_TIME, ZERO_TIME, ZERO_TIME, ZERO_TIME)

  /** The fields that count as a change: not the links, the device number, the blocks or the time of access. */
  predicate StatEq(a: Stat, b: Stat) {
    && a.ctim.nsec == b.ctim.nsec && a.mtim.nsec == b.mtim.nsec && a.birthtim.nsec == b.birthtim.nsec
    && a.ctim.sec == b.ctim.sec && a.mtim.sec == b.mtim.sec && a.birthtim.sec == b.birthtim.sec
    && a.size == b.size && a.mode == b.mode && a.uid == b.uid && a.gid == b.gid
    && a.ino == b.ino && a.dev == b.dev && a.flags == b.flags && a.gen == b.gen
  }

  type ErrorCode = e: int | e < 0 witness -1

  /** How a stat request ends. */
  datatype Outcome = Failed(err: ErrorCode) | Found(st: Stat)

  /** The arguments of the user's callback. */
  datatype Report = Report(status: int, prev: Stat, curr: Stat)

  // ---------- what is to be reported ----------

  predicate Same(a: Outcome, b: Outcome) {
    if a.Failed? then b == a else b.Found? && StatEq(a.st, b.st)
  }

  /**
   The last outcome of those seen is news: it is not the same as the one before it, or is a failure to begin
   with.
   */
  predicate News(seen: seq<Outcome>)
    requires seen != []
  {
    var o := seen[|seen| - 1];
    if |seen| == 1 then o.Failed? else !Same(seen[|seen| - 2], o)
  }

  /**
   A file that was found twice is not news exactly if it differs in nothing but the fields that do not count.
   */
  lemma SilentExactly(seen: seq<Outcome>, a: Stat, b: Stat)
    ensures !News(seen + [Found(a), Found(b)]) <==>
      b == a.(nlink := b.nlink, rdev := b.rdev, blksize := b.blksize, blocks := b.blocks, atim := b.atim)
  {
    var s := seen + [Found(a), Found(b)];
    assert s[|s| - 2] == Found(a) && s[|s| - 1] == Found(b);
  }

  /** A file that was read in the meantime, or got another name: it has changed, and that is not news. */
  lemma ChangeNotTold(a: Stat)
    ensures var b := a.(atim := TimeSpec(a.atim.sec + 1, 0), nlink := a.nlink + 1);
      b != a && !News([Found(a), Found(b)])
  {
    SilentExactly([], a, a.(atim := TimeSpec(a.atim.sec + 1, 0), nlink := a.nlink + 1));
  }

  /** What the file looked like when it was last found. */
  function LastFound(seen: seq<Outcome>): (st: Stat) {
    if seen == [] then
      ZERO_STAT
    else if seen[|seen| - 1].Found? then
      seen[|seen| - 1].st
    else
      LastFound(seen[..|seen| - 1])
  }

  function Told(before: seq<Outcome>, o: Outcome): (r: Report) {
    match o
    case Failed(err) => Report(err, LastFound(before), ZERO_STAT)
    case Found(st) => Report(0, LastFound(before), st)
  }

  function Reports(seen: seq<Outcome>): (reports: seq<Report>) {
    if seen == [] then
      []
    else
      var before := seen[..|seen| - 1];
      Reports(before) + if News(seen) then [Told(before, seen[|seen| - 1])] else []
  }

  predicate Tells(r: Report, o: Outcome) {
    if o.Failed? then r.status == o.err else r.status == 0 && StatEq(r.curr, o.st)
  }

  /**
   The user is up to date: the last report is of the outcome that was seen last. Without a report the file was found
   from the start and has not changed.
   */
  lemma {:induction false} UpToDate(seen: seq<Outcome>)
    requires seen != []
    ensures var o, reports := seen[|seen| - 1], Reports(seen);
      if reports == [] then seen[0].Found? && Same(seen[0], o) else Tells(reports[|reports| - 1], o)
  {
    if |seen| > 1 {
      UpToDate(seen[..|seen| - 1]);
    }
  }

  // ---------- when the next stat is due ----------

  /** The points of time a whole number of intervals after `start`. */
  function Point(start: nat, interval: nat, k: nat): (t: nat) {
    start + k * interval
  }

  ghost predicate OnGrid(start: nat, interval: nat, t: nat) {
    exists k: nat :: t == Point(start, interval, k)
  }

  function NextDue(now: nat, start: nat, interval: nat): (due: nat)
    requires start <= now && interval > 0
  {
    now + (interval - (now - start) % interval)
  }

  /**
   The timer is due in 1 to `interval`, on the grid of the round that is over: at its first point that is left.
   */
  lemma DueNext(now: nat, start: nat, interval: nat, t: nat)
    requires start <= now && interval > 0
    ensures now < NextDue(now, start, interval) <= now + interval
    ensures OnGrid(start, interval, NextDue(now, start, interval))
    ensures OnGrid(start, interval, t) && now < t ==> NextDue(now, start, interval) <= t
  {
    var e := now - start;
    var q := e / interval;
    assert e == q * interval + e % interval;
    assert NextDue(now, start, interval) == Point(start, interval, q + 1);
    if OnGrid(start, interval, t) && now < t {
      var k: nat :| t == Point(start, interval, k);
      if k <= q {
        Times(k, q, interval);
      } else {
        Times(q + 1, k, interval);
      }
    }
  }

  lemma Times(a: nat, b: nat, n: nat)
    requires a <= b
    ensures a * n <= b * n
  {
    assert b * n == a * n + (b - a) * n;
  }

  // ---------- the state ----------

  /**
   `busy` is 0 before the first outcome, then 1 or the error code. The parent is missing once it was stopped.
   */
  datatype Context = Context(parent: Option<Handle>, busy: int, interval: nat, start: nat, statbuf: Stat)

  /**
   `contexts` is the memory; `stats`, `timers` and `closing` are the stat requests, the armed timers with the time
   at which they are due, and the timers on their way to being closed. A handle that is active has its context in
   `pollCtx`. `seen` and `calls` record, for every context there ever was, the outcomes it took note of and the
   calls of the user's callback.
   */
  datatype State = State(
    now: nat, next: Id, contexts: map<Id, Context>,
    active: set<Handle>, pollCtx: map<Handle, Id>,
    stats: set<Id>, timers: map<Id, nat>, closing: set<Id>,
    seen: map<Id, seq<Outcome>>, calls: map<Id, seq<Report>>)

  function Busy(seen: seq<Outcome>): (busy: int) {
    if seen == [] then
      0
    else
      match seen[|seen| - 1]
      case Failed(err) => err
      case Found(_) => 1
  }

  /** Every context in memory is in exactly one place; the one whose callback is running is in `running`. */
  ghost predicate Placed(s: State, running: set<Id>) {
    && s.stats !! s.timers.Keys !! s.closing !! running
    && s.contexts.Keys == s.stats + s.timers.Keys + s.closing + running
    && (forall id :: id in s.contexts ==> id < s.next)
  }

  /** A handle and its context know each other; nothing else knows a handle. */
  ghost predicate Paired(s: State) {
    && s.active == s.pollCtx.Keys
    && (forall h :: h in s.pollCtx ==> s.pollCtx[h] in s.contexts && s.contexts[s.pollCtx[h]].parent == Some(h))
    && (forall id :: id in s.contexts && s.contexts[id].parent.Some? ==>
         var h := s.contexts[id].parent.value; h in s.pollCtx && s.pollCtx[h] == id)
    && (forall id :: id in s.timers && id in s.contexts ==> s.contexts[id].parent.Some?)
    && (forall id :: id in s.closing && id in s.contexts ==> s.contexts[id].parent.None?)
  }

  ghost predicate Timely(s: State, id: Id)
    requires id in s.contexts
  {
    var c := s.contexts[id];
    c.interval > 0 && c.start <= s.now && (id in s.timers ==> OnGrid(c.start, c.interval, s.timers[id]))
  }

  /** A context knows enough of what it has seen to go on. */
  ghost predicate Remembers(s: State, id: Id)
    requires id in s.contexts
  {
    && id in s.seen
    && s.contexts[id].busy == Busy(s.seen[id])
    && s.contexts[id].statbuf == LastFound(s.seen[id])
  }

  /** What was reported is what was to be reported. */
  ghost predicate Accurate(s: State, id: Id) {
    id in s.seen && id in s.calls && s.calls[id] == Reports(s.seen[id])
  }

  ghost predicate OnTime(s: State) {
    forall id :: id in s.contexts ==> Timely(s, id)
  }

  ghost predicate Reported(s: State, running: set<Id>) {
    && (forall id :: id in s.contexts ==> Remembers(s, id))
    && (forall id: Id :: id < s.next ==> id in s.seen && id in s.calls)
    && (forall id: Id :: id in s.seen ==> id < s.next)
    && (forall id: Id :: id < s.next && id !in running ==> Accurate(s, id))
  }

  ghost predicate Inv(s: State, running: set<Id>) {
    Placed(s, running) && Paired(s) && OnTime(s) && Reported(s, running)
  }

  const INITIAL := State(0, 0, map[], {}, map[], {}, map[], {}, map[], map[])

  // ---------- the steps ----------

  function Started(s: State, h: Handle, interval: nat): (s': State) {
    if h in s.active then
      s
    else
      var id := s.next;
      var ctx := Context(Some(h), 0, if interval != 0 then interval else 1, s.now, ZERO_STAT);
      s.(next := id + 1, contexts := s.contexts[id := ctx], stats := s.stats + {id},
         active := s.active + {h}, pollCtx := s.pollCtx[h := id],
         seen := s.seen[id := []], calls := s.calls[id := []])
  }

  function Stopped(s: State, h: Handle): (s': State)
    requires Paired(s)
  {
    if h !in s.active then
      s
    else
      var id := s.pollCtx[h];
      var s1 := s.(contexts := s.contexts[id := s.contexts[id].(parent := None)], pollCtx := s.pollCtx - {h},
                   active := s.active - {h});
      if id in s.timers then s1.(timers := s.timers - {id}, closing := s.closing + {id}) else s1
  }

  /** What the user may do, at any time and in a callback. */
  datatype Act = Start(h: Handle, interval: nat) | Stop(h: Handle) | UpdateTime(elapsed: nat)

  function Acted(s: State, a: Act): (s': State)
    requires Paired(s)
  {
    match a
    case Start(h, interval) => Started(s, h, interval)
    case Stop(h) => Stopped(s, h)
    case UpdateTime(elapsed) => s.(now := s.now + elapsed)
  }

  lemma StartKeepsPlaced(s: State, h: Handle, interval: nat, running: set<Id>)
    requires Placed(s, running)
    ensures Placed(Started(s, h, interval), running)
  {
    var s' := Started(s, h, interval);
    if h !in s.active {
      assert s.next !in s.contexts;
      assert s'.contexts.Keys == s.contexts.Keys + {s.next};
    }
  }

  lemma StartKeepsPaired(s: State, h: Handle, interval: nat, running: set<Id>)
    requires Placed(s, running) && Paired(s)
    ensures Paired(Started(s, h, interval))
  {
    if h !in s.active {
      assert s.next !in s.contexts;
      assert s.pollCtx.Keys + {h} == Started(s, h, interval).pollCtx.Keys;
    }
  }

  lemma StartKeepsOnTime(s: State, h: Handle, interval: nat, running: set<Id>)
    requires Placed(s, running) && OnTime(s)
    ensures OnTime(Started(s, h, interval))
  {
    var s' := Started(s, h, interval);
    assert h !in s.active ==> s.next !in s.contexts && s.next !in s.timers;
    forall id | id in s'.contexts
      ensures Timely(s', id)
    {
      assert id in s.contexts ==> Timely(s, id);
    }
  }

  lemma StartKeepsReported(s: State, h: Handle, interval: nat, running: set<Id>)
    requires Placed(s, running) && Reported(s, running)
    ensures Reported(Started(s, h, interval), running)
  {
    var s' := Started(s, h, interval);
    assert h !in s.active ==> s.next !in s.contexts;
    forall id | id in s'.contexts
      ensures Remembers(s', id)
    {
      assert id in s.contexts ==> Remembers(s, id);
    }
    forall id: Id | id < s'.next && id !in running
      ensures Accurate(s', id)
    {
      assert id < s.next ==> Accurate(s, id);
    }
  }

  lemma StopKeepsPlaced(s: State, h: Handle, running: set<Id>)
    requires Placed(s, running) && Paired(s)
    ensures Placed(Stopped(s, h), running)
  {
    if h in s.active {
      var id, s' := s.pollCtx[h], Stopped(s, h);
      assert s'.contexts.Keys == s.contexts.Keys;
      assert s'.timers.Keys == s.timers.Keys - if id in s.timers then {id} else {};
    }
  }

  lemma StopKeepsPaired(s: State, h: Handle, running: set<Id>)
    requires Placed(s, running) && Paired(s)
    ensures Paired(Stopped(s, h))
  {
    if h in s.active {
      assert Stopped(s, h).pollCtx.Keys == s.pollCtx.Keys - {h};
    }
  }

  lemma StopKeepsRest(s: State, h: Handle, running: set<Id>)
    requires Inv(s, running)
    ensures OnTime(Stopped(s, h)) && Reported(Stopped(s, h), running)
  {
    var s' := Stopped(s, h);
    forall id | id in s'.contexts
      ensures Timely(s', id) && Remembers(s', id)
    {
      assert Timely(s, id) && Remembers(s, id);
    }
    forall id: Id | id < s'.next && id !in running
      ensures Accurate(s', id)
    {
      assert Accurate(s, id);
    }
  }

  lemma ActKeeps(s: State, a: Act, running: set<Id>)
    requires Inv(s, running)
    ensures Inv(Acted(s, a), running)
  {
    match a
    case Start(h, interval) =>
      StartKeepsPlaced(s, h, interval, running);
      StartKeepsPaired(s, h, interval, running);
      StartKeepsOnTime(s, h, interval, running);
      StartKeepsReported(s, h, interval, running);
    case Stop(h) =>
      StopKeepsPlaced(s, h, running);
      StopKeepsPaired(s, h, running);
      StopKeepsRest(s, h, running);
    case UpdateTime(elapsed) =>
  }

  function ActedAll(s: State, acts: seq<Act>, ghost running: set<Id>): (s': State)
    requires Inv(s, running)
    ensures Inv(s', running)
    decreases acts
  {
    if acts == [] then
      s
    else
      ActKeeps(s, acts[0], running);
      ActedAll(Acted(s, acts[0]), acts[1..], running)
  }

  /** What the user does leaves a context as it is, but that it may be stopped, and reports nothing. */
  ghost predicate Untouched(s: State, s': State, id: Id)
    requires id in s.contexts && id in s.seen && id in s.calls
  {
    && id in s'.contexts && id in s'.seen && id in s'.calls
    && s'.seen[id] == s.seen[id] && s'.calls[id] == s.calls[id]
    && (s'.contexts[id] == s.contexts[id] || s'.contexts[id] == s.contexts[id].(parent := None))
  }

  lemma ActLeaves(s: State, a: Act, running: set<Id>, id: Id)
    requires Inv(s, running) && id in s.contexts && id in s.seen && id in s.calls
    ensures Untouched(s, Acted(s, a), id)
  {
    assert id != s.next;
  }

  lemma {:induction false} ActsLeave(s: State, acts: seq<Act>, running: set<Id>, id: Id)
    requires Inv(s, running) && id in s.contexts && id in s.seen && id in s.calls
    ensures Untouched(s, ActedAll(s, acts, running), id)
    decreases acts
  {
    if acts != [] {
      ActLeaves(s, acts[0], running, id);
      ActKeeps(s, acts[0], running);
      ActsLeave(Acted(s, acts[0]), acts[1..], running, id);
    }
  }

  /** The timer is stopped before its callback runs, and the callback starts the next stat. */
  function TimerFired(s: State, id: Id): (s': State)
    requires id in s.contexts && id in s.timers
  {
    s.(timers := s.timers - {id}, stats := s.stats + {id},
       contexts := s.contexts[id := s.contexts[id].(start := s.now)])
  }

  function TimerClosed(s: State, id: Id): (s': State) {
    s.(closing := s.closing - {id}, contexts := s.contexts - {id})
  }

  function Abandoned(s: State, id: Id): (s': State) {
    s.(closing := s.closing + {id})
  }

  function Rearmed(s: State, id: Id): (s': State)
    requires id in s.contexts && Timely(s, id)
  {
    s.(timers := s.timers[id := NextDue(s.now, s.contexts[id].start, s.contexts[id].interval)])
  }

  predicate Fires(c: Context, o: Outcome) {
    match o
    case Failed(err) => c.busy != err
    case Found(st) => c.busy != 0 && (c.busy < 0 || !StatEq(c.statbuf, st))
  }

  function ReportOf(c: Context, o: Outcome): (r: Report) {
    match o
    case Failed(err) => Report(err, c.statbuf, ZERO_STAT)
    case Found(st) => Report(0, c.statbuf, st)
  }

  function Notified(s: State, id: Id, o: Outcome): (s': State)
    requires id in s.contexts && id in s.calls
  {
    if Fires(s.contexts[id], o) then
      s.(calls := s.calls[id := s.calls[id] + [ReportOf(s.contexts[id], o)]])
    else
      s
  }

  function NotedIn(c: Context, o: Outcome): (c': Context) {
    match o
    case Failed(err) => c.(busy := err)
    case Found(st) => c.(busy := 1, statbuf := st)
  }

  function Noted(s: State, id: Id, o: Outcome): (s': State)
    requires id in s.contexts && id in s.seen
  {
    s.(contexts := s.contexts[id := NotedIn(s.contexts[id], o)], seen := s.seen[id := s.seen[id] + [o]])
  }

  /** What a context remembers tells what is news, and what to say about it. */
  lemma FiresOnNews(s: State, id: Id, o: Outcome)
    requires id in s.contexts && Remembers(s, id)
    ensures Fires(s.contexts[id], o) <==> News(s.seen[id] + [o])
    ensures ReportOf(s.contexts[id], o) == Told(s.seen[id], o)
    ensures Reports(s.seen[id] + [o])
         == Reports(s.seen[id]) + if Fires(s.contexts[id], o) then [ReportOf(s.contexts[id], o)] else []
  {
    var seen := s.seen[id];
    assert (seen + [o])[..|seen|] == seen;
  }

  lemma NotedRemembers(s: State, id: Id, o: Outcome)
    requires id in s.contexts && Remembers(s, id)
    ensures Remembers(Noted(s, id, o), id)
  {
    var seen := s.seen[id];
    assert (seen + [o])[..|seen|] == seen;
  }

  function RequestOver(s: State, id: Id): (s': State) {
    s.(stats := s.stats - {id})
  }

  lemma RequestOverKeeps(s: State, id: Id)
    requires Inv(s, {}) && id in s.stats
    ensures Inv(RequestOver(s, id), {id}) && id in s.contexts && Accurate(RequestOver(s, id), id)
  {
    var s' := RequestOver(s, id);
    assert Accurate(s, id);
    forall i | i in s'.contexts
      ensures Timely(s', i) && Remembers(s', i)
    {
      assert Timely(s, i) && Remembers(s, i);
    }
    forall i: Id | i < s'.next
      ensures Accurate(s', i)
    {
      assert Accurate(s, i);
    }
  }

  lemma NotifiedKeeps(s: State, id: Id, o: Outcome)
    requires Inv(s, {id}) && id in s.contexts && Accurate(s, id)
    ensures Inv(Notified(s, id, o), {id})
    ensures Notified(s, id, o).calls[id] == Reports(s.seen[id] + [o])
  {
    var s' := Notified(s, id, o);
    FiresOnNews(s, id, o);
    forall i | i in s'.contexts
      ensures Timely(s', i) && Remembers(s', i)
    {
      assert Timely(s, i) && Remembers(s, i);
    }
    forall i: Id | i < s'.next && i != id
      ensures Accurate(s', i)
    {
      assert Accurate(s, i);
    }
  }

  lemma NotedKeepsSound(s: State, id: Id, o: Outcome)
    requires Placed(s, {id}) && Paired(s) && OnTime(s) && id in s.contexts && id in s.seen
    ensures Placed(Noted(s, id, o), {id}) && Paired(Noted(s, id, o)) && OnTime(Noted(s, id, o))
  {
    var s' := Noted(s, id, o);
    assert s'.contexts.Keys == s.contexts.Keys;
    forall i | i in s'.contexts
      ensures Timely(s', i)
    {
      assert Timely(s, i);
    }
  }

  lemma NotedKeeps(s: State, id: Id, o: Outcome)
    requires Inv(s, {id}) && id in s.contexts && id in s.seen && id in s.calls
    requires s.calls[id] == Reports(s.seen[id] + [o])
    ensures Inv(Noted(s, id, o), {id}) && Accurate(Noted(s, id, o), id)
  {
    var s' := Noted(s, id, o);
    NotedKeepsSound(s, id, o);
    assert Remembers(s, id);
    NotedRemembers(s, id, o);
    forall i | i in s'.contexts
      ensures Remembers(s', i)
    {
      assert Remembers(s, i);
    }
    forall i: Id | i < s'.next && i != id
      ensures Accurate(s', i)
    {
      assert Accurate(s, i);
    }
  }

  lemma AbandonedKeeps(s: State, id: Id)
    requires Inv(s, {id}) && Accurate(s, id) && id in s.contexts && s.contexts[id].parent.None?
    ensures Inv(Abandoned(s, id), {})
  {
    var s' := Abandoned(s, id);
    forall i | i in s'.contexts
      ensures Timely(s', i) && Remembers(s', i)
    {
      assert Timely(s, i) && Remembers(s, i);
    }
    forall i: Id | i < s'.next
      ensures Accurate(s', i)
    {
      assert i != id ==> Accurate(s, i);
    }
  }

  lemma RearmedKeeps(s: State, id: Id)
    requires Inv(s, {id}) && Accurate(s, id) && id in s.contexts && s.contexts[id].parent.Some?
    ensures Timely(s, id) && Inv(Rearmed(s, id), {})
  {
    assert Timely(s, id);
    var s', c := Rearmed(s, id), s.contexts[id];
    DueNext(s.now, c.start, c.interval, 0);
    assert s'.timers.Keys == s.timers.Keys + {id};
    forall i | i in s'.contexts
      ensures Timely(s', i) && Remembers(s', i)
    {
      assert Timely(s, i) && Remembers(s, i);
    }
    forall i: Id | i < s'.next
      ensures Accurate(s', i)
    {
      assert i != id ==> Accurate(s, i);
    }
  }

  lemma TimerFiredKeeps(s: State, id: Id)
    requires Inv(s, {}) && id in s.timers
    ensures id in s.contexts && Inv(TimerFired(s, id), {})
  {
    var s' := TimerFired(s, id);
    assert s'.contexts.Keys == s.contexts.Keys;
    assert s'.timers.Keys == s.timers.Keys - {id};
    forall i | i in s'.contexts
      ensures Timely(s', i) && Remembers(s', i)
    {
      assert Timely(s, i) && Remembers(s, i);
    }
    forall i: Id | i < s'.next
      ensures Accurate(s', i)
    {
      assert Accurate(s, i);
    }
  }

  lemma TimerClosedKeeps(s: State, id: Id)
    requires Inv(s, {}) && id in s.closing
    ensures id in s.contexts && Inv(TimerClosed(s, id), {})
  {
    var s' := TimerClosed(s, id);
    assert s'.contexts.Keys == s.contexts.Keys - {id};
    forall i | i in s'.contexts
      ensures Timely(s', i) && Remembers(s', i)
    {
      assert Timely(s, i) && Remembers(s, i);
    }
    forall i: Id | i < s'.next
      ensures Accurate(s', i)
    {
      assert Accurate(s, i);
    }
  }

  /** The callback of the user, if the outcome is news, with whatever it does. */
  function CalledBack(s: State, id: Id, o: Outcome, acts: seq<Act>): (s': State)
    requires Inv(s, {id}) && id in s.contexts && Accurate(s, id)
    ensures Inv(s', {id}) && id in s'.contexts && id in s'.seen && id in s'.calls
    ensures s'.seen[id] == s.seen[id] && s'.calls[id] == Reports(s.seen[id] + [o])
  {
    NotifiedKeeps(s, id, o);
    var s1 := Notified(s, id, o);
    if Fires(s.contexts[id], o) then
      ActsLeave(s1, acts, {id}, id);
      ActedAll(s1, acts, {id})
    else
      s1
  }

  /**
   What comes after the callback: the context takes note of the outcome, and goes on unless it was stopped.
   */
  function Finished(s: State, id: Id, o: Outcome): (s': State)
    requires Inv(s, {id}) && id in s.contexts && id in s.seen && id in s.calls
    requires s.calls[id] == Reports(s.seen[id] + [o])
    ensures Inv(s', {})
  {
    NotedKeeps(s, id, o);
    var s1 := Noted(s, id, o);
    if s1.contexts[id].parent.None? then
      AbandonedKeeps(s1, id);
      Abandoned(s1, id)
    else
      RearmedKeeps(s1, id);
      Rearmed(s1, id)
  }

  function PollDone(s: State, id: Id, o: Outcome, acts: seq<Act>): (s': State)
    requires Inv(s, {}) && id in s.stats
    ensures Inv(s', {})
  {
    RequestOverKeeps(s, id);
    var s0 := RequestOver(s, id);
    if s0.contexts[id].parent.None? then
      AbandonedKeeps(s0, id);
      Abandoned(s0, id)
    else
      Finished(CalledBack(s0, id, o, acts), id, o)
  }
}
