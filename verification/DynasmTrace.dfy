/**
 The x86 encoding engine of DynASM, part 1: actions, and the trace of what pass 1 records.

 A client feeds the engine with calls `dasm_put(start, args...)`; each call replays the actions
 of an action list from `start` to the next section switch or stop.  The *trace* is the time-ordered
 list of everything those calls did.  It is a function of the calls alone (`Record`), so it serves as
 the reference against which the section buffers, the label cells and the final bytes are judged.
 */
module DynasmTrace {

  type byte = x: int | 0 <= x < 256

  /** Buffer positions are biased by section: 8 bits of section, 24 bits of index. */
  const SECTION_SIZE := 0x1000000

  /** Above this number of sections, positions no longer fit the 32-bit integers that hold them. */
  const MAX_SECTIONS := 128

  /** The first action code; smaller bytes of an action list stand for themselves. */
  const DASM_DISP := 233

  /** Largest label byte that does not denote a forward reference to a local label. */
  const LAST_DIRECT_LABEL := 246

  datatype Action =
    | Byte(b: byte)
    | Esc(b: byte)
    | ImmS | ImmB | ImmW | ImmD | ImmWB | ImmDB
    | Space(fill: byte)
    | RelLG(n: byte) | RelPC
    | ImmLG(n: byte) | ImmPC
    | LabelLG(n: byte) | LabelPC
    | Align(mask: byte)
    | Section(n: byte)
    | Stop

  predicate FitsSignedByte(n: int) { -128 <= n < 128 }

  /** Does the action consume one variadic argument? */
  predicate TakesArg(a: Action) {
    a.ImmS? || a.ImmB? || a.ImmW? || a.ImmD? || a.ImmWB? || a.ImmDB? || a.Space?
    || a.RelPC? || a.ImmPC? || a.LabelPC?
  }

  predicate IsRel(a: Action) { a.RelLG? || a.RelPC? }
  predicate IsImmLabel(a: Action) { a.ImmLG? || a.ImmPC? }
  predicate IsLabel(a: Action) { a.LabelLG? || a.LabelPC? }
  predicate IsEnd(a: Action) { a.Section? || a.Stop? }
  predicate IsByte(a: Action) { a.Byte? || a.Esc? }
  predicate IsShortImm(a: Action) { a.ImmWB? || a.ImmDB? }
  predicate IsImm(a: Action) { a.ImmS? || a.ImmB? || a.ImmW? || a.ImmD? || IsShortImm(a) || a.Space? }

  /** Number of section buffer cells an action uses. */
  function Slots(a: Action): nat {
    if IsRel(a) then 2
    else if IsImm(a) || IsImmLabel(a) || IsLabel(a) || a.Align? then 1
    else 0
  }

  /** Pass 1 size: branches at their longest, alignments at their widest. */
  function MaxSize(a: Action, arg: int): int {
    if IsByte(a) || a.ImmS? || a.ImmB? then 1
    else if a.ImmW? then 2
    else if a.ImmD? then 4
    else if a.ImmWB? then if FitsSignedByte(arg) then 1 else 2
    else if a.ImmDB? then if FitsSignedByte(arg) then 1 else 4
    else if a.Space? then arg
    else if IsRel(a) || IsImmLabel(a) then 4
    else if a.Align? then a.mask
    else 0
  }

  // ---------- labels ----------

  /** Local labels are LG(0..9), global labels LG(10..), and PC labels are numbered by the client. */
  datatype Key = LG(n: int) | PC(n: int)

  predicate IsLocal(k: Key) { k.LG? && k.n < 10 }

  /** The local labels that `dasm_checkstep` forgets. */
  predicate IsReset(k: Key) { k.LG? && 1 <= k.n <= 9 }

  datatype What =
    | Enter(start: nat)
    | Act(p: nat, a: Action, arg: int)
    | CheckStep

  /**
   One thing pass 1 did: in section `sec`, with its first buffer cell at `pos`, leaving the
   estimated section offset at `ofs`.
   */
  datatype Event = Event(sec: nat, pos: int, what: What, ofs: int)

  type Trace = seq<Event>

  predicate RefersTo(e: Event, k: Key) {
    e.what.Act? &&
    match e.what.a
    case RelLG(n) => k == LG(if n <= LAST_DIRECT_LABEL then n else n - LAST_DIRECT_LABEL)
    case ImmLG(n) => k == LG(if n <= LAST_DIRECT_LABEL then n else n - LAST_DIRECT_LABEL)
    case RelPC => k == PC(e.what.arg)
    case ImmPC => k == PC(e.what.arg)
    case _ => false
  }

  predicate IsForwardLocal(e: Event) {
    e.what.Act? && (e.what.a.RelLG? || e.what.a.ImmLG?) && e.what.a.n > LAST_DIRECT_LABEL
  }

  predicate Defines(e: Event, k: Key) {
    e.what.Act? &&
    match e.what.a
    case LabelLG(n) => k == LG(n)
    case LabelPC => k == PC(e.what.arg)
    case _ => false
  }

  predicate NoDef(tr: Trace, k: Key, lo: nat, hi: nat)
    requires hi <= |tr|
  {
    forall m :: lo <= m < hi ==> !Defines(tr[m], k)
  }

  /** Does reference `i` look forward: written so, or because nothing defines its label yet? */
  predicate LooksForward(tr: Trace, k: Key, i: nat)
    requires i < |tr|
  {
    IsForwardLocal(tr[i]) || NoDef(tr, k, 0, i)
  }

  /**
   The definition a reference means: forward references mean the next definition of their label,
   all others the latest one before them.
   */
  predicate IsTarget(tr: Trace, k: Key, i: nat, j: nat) {
    && i < |tr| && j < |tr|
    && RefersTo(tr[i], k) && Defines(tr[j], k)
    && if LooksForward(tr, k, i) then i < j && NoDef(tr, k, i + 1, j)
       else j < i && NoDef(tr, k, j + 1, i)
  }

  /** The definition a label cell currently shows, or -1. */
  function Visible(tr: Trace, k: Key): (v: int)
    ensures -1 <= v < |tr|
  {
    if tr == [] then -1
    else
      var e, init := tr[|tr|-1], tr[..|tr|-1];
      if Defines(e, k) then |init|
      else if RefersTo(e, k) && IsForwardLocal(e) then -1
      else if e.what.CheckStep? && IsReset(k) then -1
      else Visible(init, k)
  }

  /** The references to a label that wait for its next definition, oldest first. */
  function Pending(tr: Trace, k: Key): (ps: seq<nat>)
    ensures forall i :: i in ps ==> i < |tr|
  {
    if tr == [] then []
    else
      var e, init := tr[|tr|-1], tr[..|tr|-1];
      if Defines(e, k) then []
      else if RefersTo(e, k) && (IsForwardLocal(e) || Visible(init, k) < 0) then Pending(init, k) + [|init|]
      else Pending(init, k)
  }

  // ---------- section projections ----------

  predicate InSection(e: Event, s: nat) { !e.what.CheckStep? && e.sec == s }

  function EventSlots(e: Event): nat {
    match e.what
    case Enter(_) => 1
    case Act(_, a, _) => Slots(a)
    case CheckStep => 0
  }

  function EventMax(e: Event): int {
    match e.what
    case Act(_, a, arg) => MaxSize(a, arg)
    case _ => 0
  }

  /** The events of one section, in order. */
  function Sect(tr: Trace, s: nat): Trace {
    if tr == [] then []
    else
      var rest := Sect(tr[..|tr|-1], s);
      if InSection(tr[|tr|-1], s) then rest + [tr[|tr|-1]] else rest
  }

  /** First free buffer position of a section. */
  function SecPos(tr: Trace, s: nat): int {
    if tr == [] then s * SECTION_SIZE
    else if InSection(tr[|tr|-1], s) then tr[|tr|-1].pos + EventSlots(tr[|tr|-1])
    else SecPos(tr[..|tr|-1], s)
  }

  /** Estimated size of a section so far. */
  function SecOfs(tr: Trace, s: nat): int {
    if tr == [] then 0
    else if InSection(tr[|tr|-1], s) then tr[|tr|-1].ofs
    else SecOfs(tr[..|tr|-1], s)
  }

  // ---------- what a client must supply ----------

  predicate IsMask(m: int) { m in {0, 1, 3, 7, 15, 31, 63, 127, 255} }

  function OpByte(a: Action): int { if IsByte(a) then a.b else -1 }

  /** How many bytes a branch loses when it is encoded short, by its opcode byte. */
  function ShrinkOf(op: int): int {
    if op == 0xe9 then 3 else if 0x80 <= op < 0x90 then 4 else 0
  }

  /**
   Well-formedness of the action at `p` in a call that began at `start`, as the preprocessor
   guarantees it: opcode bytes directly precede the fields that patch them, a conditional branch
   has its 0x0f prefix, and alignments are of the form 2^n-1.
   */
  predicate ActionOk(al: seq<Action>, start: nat, p: nat)
    requires p < |al|
  {
    match al[p]
    case Byte(b) => b < DASM_DISP
    case Align(m) => IsMask(m)
    case _ =>
      && (IsRel(al[p]) ==> p >= start + 1 && IsByte(al[p-1]))
      && (IsRel(al[p]) && ShrinkOf(OpByte(al[p-1])) == 4 ==> p >= start + 2 && OpByte(al[p-2]) == 0x0f)
      && (IsShortImm(al[p]) ==> p >= start + 2 && IsByte(al[p-1]) && IsByte(al[p-2]))
  }

  /** A call can run from `p`: it reaches an end marker, its arguments suffice, it fits in `room` cells. */
  predicate Runnable(al: seq<Action>, start: nat, p: nat, args: seq<int>, room: int)
    decreases |al| - p
  {
    && p < |al|
    && ActionOk(al, start, p)
    && Slots(al[p]) <= room
    && (TakesArg(al[p]) ==> args != [])
    && (al[p].Space? ==> args[0] >= 0)
    && (IsEnd(al[p]) || Runnable(al, start, p + 1, RestArgs(al[p], args), room - Slots(al[p])))
  }

  function FirstArg(a: Action, args: seq<int>): int {
    if TakesArg(a) && args != [] then args[0] else 0
  }

  function RestArgs(a: Action, args: seq<int>): seq<int> {
    if TakesArg(a) && args != [] then args[1..] else args
  }

  /** The label an action names, and whether it asks for the next definition of it. */
  function LabelOf(a: Action, arg: int): (Key, bool)
    requires IsRel(a) || IsImmLabel(a) || IsLabel(a)
  {
    match a
    case RelPC => (PC(arg), false)
    case ImmPC => (PC(arg), false)
    case LabelPC => (PC(arg), false)
    case LabelLG(n) => (LG(n), false)
    case _ => if a.n <= LAST_DIRECT_LABEL then (LG(a.n), false) else (LG(a.n - LAST_DIRECT_LABEL), true)
  }

  // ---------- the reference for pass 1 ----------

  datatype Config = Config(al: seq<Action>, nlg: nat, npc: nat, nsec: nat)

  datatype Status =
    | OK
    | RangeI(p: nat) | RangeSec(p: nat) | RangeLG(p: nat) | RangePC(p: nat)
    | UndefL(n: nat) | UndefPC(n: nat) | MatchSec(sec: nat) | Phase

  /** The checks pass 1 makes before it accepts an action. */
  function Check(c: Config, tr: Trace, p: nat, a: Action, arg: int): Status {
    match a
    case ImmS => if FitsSignedByte(arg) then OK else RangeI(p)
    case ImmB => if 0 <= arg < 256 then OK else RangeI(p)
    case ImmW => if 0 <= arg < 65536 then OK else RangeI(p)
    case ImmWB => if FitsSignedByte(arg) || 0 <= arg < 65536 then OK else RangeI(p)
    case RelLG(n) => CheckRef(c, tr, p, n)
    case ImmLG(n) => CheckRef(c, tr, p, n)
    case RelPC => if 0 <= arg < c.npc then OK else RangePC(p)
    case ImmPC => if 0 <= arg < c.npc then OK else RangePC(p)
    case LabelLG(n) => if n < c.nlg then OK else RangeLG(p)
    case LabelPC => if 0 <= arg < c.npc then OK else RangePC(p)
    case Section(n) => if n < c.nsec then OK else RangeSec(p)
    case _ => OK
  }

  /** A backward local reference needs a visible definition. */
  function CheckRef(c: Config, tr: Trace, p: nat, n: int): Status {
    if n > LAST_DIRECT_LABEL then OK
    else if n < 10 && Visible(tr, LG(n)) < 0 then RangeLG(p)
    else if n >= c.nlg then RangeLG(p)
    else OK
  }

  function EventFor(tr: Trace, sec: nat, w: What): Event {
    var e := Event(sec, SecPos(tr, sec), w, 0);
    e.(ofs := SecOfs(tr, sec) + EventMax(e))
  }

  datatype Outcome = Accepted(tr: Trace, next: nat) | Rejected(status: Status)

  /** What a call that has reached `p` adds to the trace, and the section it leaves active. */
  function Replay(c: Config, tr: Trace, sec: nat, start: nat, p: nat, args: seq<int>, room: int): Outcome
    requires Runnable(c.al, start, p, args, room)
    decreases |c.al| - p
  {
    var a, arg := c.al[p], FirstArg(c.al[p], args);
    var status := Check(c, tr, p, a, arg);
    if status != OK then Rejected(status)
    else
      var tr' := tr + [EventFor(tr, sec, Act(p, a, arg))];
      if a.Section? then Accepted(tr', a.n)
      else if a.Stop? then Accepted(tr', sec)
      else Replay(c, tr', sec, start, p + 1, RestArgs(a, args), room - Slots(a))
  }

  /** The largest number of cells one call may use. */
  const DASM_MAXSECPOS := 25

  function Record(c: Config, tr: Trace, sec: nat, start: nat, args: seq<int>): Outcome
    requires Runnable(c.al, start, start, args, DASM_MAXSECPOS - 1)
  {
    Replay(c, tr + [EventFor(tr, sec, Enter(start))], sec, start, start, args, DASM_MAXSECPOS - 1)
  }

  // ---------- well-formed traces ----------

  /** May event `e` come right after event `d`? */
  predicate Follows(d: Event, e: Event) {
    match d.what
    case Enter(st) => e.what.Act? && e.what.p == st && e.sec == d.sec
    case Act(p, a, _) =>
      if IsEnd(a) then !e.what.Act? else e.what.Act? && e.what.p == p + 1 && e.sec == d.sec
    case CheckStep => !e.what.Act?
  }

  predicate EndsClosed(tr: Trace) {
    tr == [] || tr[|tr|-1].what.CheckStep? || (tr[|tr|-1].what.Act? && IsEnd(tr[|tr|-1].what.a))
  }

  /** The bytes an action patches directly precede it in the trace. */
  predicate OpcodesPrecede(tr: Trace, a: Action) {
    var n := |tr|;
    && (IsRel(a) ==> n >= 1 && tr[n-1].what.Act? && IsByte(tr[n-1].what.a))
    && (IsRel(a) && ShrinkOf(OpByte(tr[n-1].what.a)) == 4 ==>
          n >= 2 && tr[n-2].what.Act? && OpByte(tr[n-2].what.a) == 0x0f)
    && (IsShortImm(a) ==> n >= 2 && tr[n-1].what.Act? && tr[n-2].what.Act?
                          && IsByte(tr[n-1].what.a) && IsByte(tr[n-2].what.a))
  }

  /** Event `e` may extend trace `tr`. */
  ghost predicate Extends(c: Config, tr: Trace, e: Event) {
    && (e.what.CheckStep? ==> e == Event(0, 0, CheckStep, 0) && (forall k :: IsReset(k) ==> Pending(tr, k) == []))
    && (!e.what.CheckStep? ==>
          && e.sec < c.nsec
          && e == EventFor(tr, e.sec, e.what)
          && SecPos(tr, e.sec) + EventSlots(e) < (e.sec + 1) * SECTION_SIZE)
    && (tr != [] ==> Follows(tr[|tr|-1], e))
    && (tr == [] ==> !e.what.Act?)
    && (e.what.Act? ==>
          && e.what.p < |c.al| && e.what.a == c.al[e.what.p]
          && Check(c, tr, e.what.p, e.what.a, e.what.arg) == OK
          && (e.what.a.Space? ==> e.what.arg >= 0)
          && (e.what.a.Align? ==> IsMask(e.what.a.mask))
          && OpcodesPrecede(tr, e.what.a))
  }

  ghost predicate TraceOk(c: Config, tr: Trace) {
    tr == [] || (TraceOk(c, tr[..|tr|-1]) && Extends(c, tr[..|tr|-1], tr[|tr|-1]))
  }

  // ---------- lemmas about labels ----------

  lemma Snoc(tr: Trace, e: Event)
    ensures (tr + [e])[..|tr + [e]| - 1] == tr
  {
  }

  lemma OtherSections(tr: Trace, e: Event)
    ensures forall s: nat ::
        !InSection(e, s) ==> SecPos(tr + [e], s) == SecPos(tr, s) && SecOfs(tr + [e], s) == SecOfs(tr, s)
  {
    Snoc(tr, e);
  }

  /** A label cell that shows a definition shows the latest one, and nothing waits for it. */
  lemma {:induction false} VisibleIsLatest(c: Config, tr: Trace, k: Key)
    requires TraceOk(c, tr)
    ensures var v := Visible(tr, k);
      && (v >= 0 ==> Defines(tr[v], k) && NoDef(tr, k, v + 1, |tr|) && Pending(tr, k) == [])
      && (v < 0 && !IsLocal(k) ==> NoDef(tr, k, 0, |tr|))
  {
    if tr != [] {
      VisibleIsLatest(c, tr[..|tr|-1], k);
    }
  }

  lemma NoDefInPrefix(tr: Trace, e: Event, k: Key, lo: nat, hi: nat)
    requires hi <= |tr|
    ensures NoDef(tr + [e], k, lo, hi) == NoDef(tr, k, lo, hi)
  {
    assert forall m :: lo <= m < hi ==> (tr + [e])[m] == tr[m];
  }

  lemma LooksForwardInPrefix(tr: Trace, e: Event, k: Key, i: nat)
    requires i < |tr|
    ensures LooksForward(tr + [e], k, i) == LooksForward(tr, k, i)
  {
    NoDefInPrefix(tr, e, k, 0, i);
  }

  /** Exactly the forward-looking references with no definition after them are pending. */
  lemma {:induction false} PendingMeans(c: Config, tr: Trace, k: Key, i: nat)
    requires TraceOk(c, tr) && i < |tr|
    ensures i in Pending(tr, k) <==>
            RefersTo(tr[i], k) && LooksForward(tr, k, i) && NoDef(tr, k, i + 1, |tr|)
  {
    var n := |tr| - 1;
    var e, init := tr[n], tr[..n];
    assert tr == init + [e];
    if i < n {
      PendingMeans(c, init, k, i);
      LooksForwardInPrefix(init, e, k, i);
      NoDefInPrefix(init, e, k, i + 1, n);
      assert NoDef(tr, k, i + 1, n + 1) == (NoDef(tr, k, i + 1, n) && !Defines(e, k));
    } else {
      NewReference(c, init, e, k);
    }
  }

  lemma NewReference(c: Config, tr: Trace, e: Event, k: Key)
    requires TraceOk(c, tr) && Extends(c, tr, e)
    ensures |tr| in Pending(tr + [e], k) <==> RefersTo(e, k) && LooksForward(tr + [e], k, |tr|)
  {
    VisibleIsLatest(c, tr, k);
    NoDefInPrefix(tr, e, k, 0, |tr|);
    Snoc(tr, e);
    if Visible(tr, k) >= 0 { assert !NoDef(tr, k, 0, |tr|); }
  }

  /** Pending references are listed in order, so none is listed twice. */
  lemma {:induction false} PendingSorted(tr: Trace, k: Key)
    ensures forall a, b :: 0 <= a < b < |Pending(tr, k)| ==> Pending(tr, k)[a] < Pending(tr, k)[b]
  {
    if tr != [] {
      PendingSorted(tr[..|tr|-1], k);
      var ps := Pending(tr[..|tr|-1], k);
      assert forall a :: 0 <= a < |ps| ==> ps[a] in ps;
    }
  }

  /** Adding an event gives new targets only to it and to what waits for it. */
  lemma TargetsGrow(c: Config, tr: Trace, e: Event, k: Key, i: nat, j: nat)
    requires TraceOk(c, tr)
    ensures i < |tr| && j < |tr| ==> IsTarget(tr + [e], k, i, j) == IsTarget(tr, k, i, j)
    ensures i < |tr| && j == |tr| ==> IsTarget(tr + [e], k, i, j) == (i in Pending(tr, k) && Defines(e, k))
    ensures i == |tr| && Visible(tr, k) >= 0 && IsTarget(tr + [e], k, i, j) ==> j == Visible(tr, k)
    ensures i == |tr| && IsTarget(tr + [e], k, i, j) ==> j < i && !IsForwardLocal(e)
  {
    var tr' := tr + [e];
    if i < |tr| {
      PendingMeans(c, tr, k, i);
      LooksForwardInPrefix(tr, e, k, i);
      if i < j <= |tr| { NoDefInPrefix(tr, e, k, i + 1, j); }
      if j < i { NoDefInPrefix(tr, e, k, j + 1, i); }
    } else if i == |tr| {
      VisibleIsLatest(c, tr, k);
      NoDefInPrefix(tr, e, k, 0, i);
      if j < i { NoDefInPrefix(tr, e, k, j + 1, i); }
    }
  }

  /** Once no reference to a label is pending, every one of them has a target. */
  lemma {:induction false} EveryReferenceResolves(c: Config, tr: Trace, k: Key, i: nat) returns (j: nat)
    requires TraceOk(c, tr) && i < |tr| && RefersTo(tr[i], k) && i !in Pending(tr, k)
    ensures IsTarget(tr, k, i, j)
  {
    PendingMeans(c, tr, k, i);
    if LooksForward(tr, k, i) {
      j := i + 1;
      while !Defines(tr[j], k)
        invariant i < j < |tr| && NoDef(tr, k, i + 1, j) && !NoDef(tr, k, j, |tr|)
        decreases |tr| - j
      {
        j := j + 1;
      }
    } else {
      j := i - 1;
      while !Defines(tr[j], k)
        invariant 0 <= j < i && NoDef(tr, k, j + 1, i) && !NoDef(tr, k, 0, j + 1)
        decreases j
      {
        j := j - 1;
      }
    }
  }

  // ---------- lemmas about positions ----------

  /** Recorded cells lie below the free position of their section, and inside the section. */
  lemma {:induction false} PosBelow(c: Config, tr: Trace, i: nat)
    requires TraceOk(c, tr) && i < |tr| && !tr[i].what.CheckStep?
    ensures tr[i].sec * SECTION_SIZE <= tr[i].pos
    ensures tr[i].pos + EventSlots(tr[i]) <= SecPos(tr, tr[i].sec) < (tr[i].sec + 1) * SECTION_SIZE
  {
    var n := |tr| - 1;
    SecPosInRange(c, tr[..n], tr[n].sec);
    SecPosInRange(c, tr, tr[i].sec);
    if i < n {
      PosBelow(c, tr[..n], i);
    }
  }

  lemma {:induction false} SecPosInRange(c: Config, tr: Trace, s: nat)
    requires TraceOk(c, tr)
    ensures s * SECTION_SIZE <= SecPos(tr, s) < (s + 1) * SECTION_SIZE
  {
    if tr != [] {
      SecPosInRange(c, tr[..|tr|-1], s);
    }
  }

  /** The first cell of a section always belongs to a call marker. */
  lemma {:induction false} ActionPosPositive(c: Config, tr: Trace, i: nat)
    requires TraceOk(c, tr) && i < |tr| && tr[i].what.Act?
    ensures tr[i].pos > tr[i].sec * SECTION_SIZE
  {
    var n := |tr| - 1;
    if i < n {
      ActionPosPositive(c, tr[..n], i);
    } else {
      PosBelow(c, tr[..n], n - 1);
      if tr[n-1].what.Act? { ActionPosPositive(c, tr[..n], n - 1); }
    }
  }

  /** Cells of different events are different cells. */
  lemma {:induction false} CellsDisjoint(c: Config, tr: Trace, i: nat, j: nat)
    requires TraceOk(c, tr) && i < j < |tr| && !tr[i].what.CheckStep? && !tr[j].what.CheckStep?
    ensures tr[i].sec == tr[j].sec ==> tr[i].pos + EventSlots(tr[i]) <= tr[j].pos
    ensures tr[i].sec < tr[j].sec ==> tr[i].pos + EventSlots(tr[i]) <= tr[j].pos
    ensures tr[i].sec > tr[j].sec ==> tr[j].pos + EventSlots(tr[j]) <= tr[i].pos
  {
    PosBelow(c, tr, i);
    PosBelow(c, tr, j);
    if j < |tr| - 1 {
      CellsDisjoint(c, tr[..|tr|-1], i, j);
    } else {
      PosBelow(c, tr[..|tr|-1], i);
    }
  }

  predicate ActsAt(c: Config, e: Event, q: int) {
    0 <= q < |c.al| && e.what.Act? && e.what.p == q && e.what.a == c.al[q]
  }

  /** Past an accepted action, the call can still run and its outcome is the same. */
  lemma ReplayNext(c: Config, tr: Trace, sec: nat, start: nat, p: nat, args: seq<int>, room: int)
    requires Runnable(c.al, start, p, args, room) && !IsEnd(c.al[p])
    requires Check(c, tr, p, c.al[p], FirstArg(c.al[p], args)) == OK
    ensures Runnable(c.al, start, p + 1, RestArgs(c.al[p], args), room - Slots(c.al[p]))
    ensures Replay(c, tr, sec, start, p, args, room)
         == Replay(c, tr + [EventFor(tr, sec, Act(p, c.al[p], FirstArg(c.al[p], args)))], sec, start, p + 1,
                   RestArgs(c.al[p], args), room - Slots(c.al[p]))
  {
  }

  /** The trace ends inside a call in section `sec` that began at `start` and has reached `p`. */
  predicate Running(c: Config, tr: Trace, sec: nat, start: nat, p: nat) {
    var n := |tr|;
    && start <= p <= |c.al| && n > p - start
    && tr[n-1].sec == sec
    && (p == start ==> tr[n-1].what == Enter(start))
    && (p > start ==> ActsAt(c, tr[n-1], p - 1) && !IsEnd(c.al[p-1]))
    && (p > start + 1 ==> ActsAt(c, tr[n-2], p - 2))
  }

  lemma StepOk(c: Config, tr: Trace, sec: nat, start: nat, p: nat, arg: int)
    requires TraceOk(c, tr) && sec < c.nsec && Running(c, tr, sec, start, p)
    requires p < |c.al| && ActionOk(c.al, start, p) && (c.al[p].Space? ==> arg >= 0)
    requires Check(c, tr, p, c.al[p], arg) == OK
    requires SecPos(tr, sec) + Slots(c.al[p]) < (sec + 1) * SECTION_SIZE
    ensures var tr' := tr + [EventFor(tr, sec, Act(p, c.al[p], arg))];
      && TraceOk(c, tr')
      && (!IsEnd(c.al[p]) ==> Running(c, tr', sec, start, p + 1))
      && SecPos(tr', sec) == SecPos(tr, sec) + Slots(c.al[p])
  {
    Snoc(tr, EventFor(tr, sec, Act(p, c.al[p], arg)));
  }

  lemma StepExtends(c: Config, tr: Trace, sec: nat, start: nat, p: nat, arg: int)
    requires TraceOk(c, tr) && sec < c.nsec && Running(c, tr, sec, start, p)
    requires p < |c.al| && ActionOk(c.al, start, p) && (c.al[p].Space? ==> arg >= 0)
    requires Check(c, tr, p, c.al[p], arg) == OK
    requires SecPos(tr, sec) + Slots(c.al[p]) < (sec + 1) * SECTION_SIZE
    ensures var e := EventFor(tr, sec, Act(p, c.al[p], arg));
      && Extends(c, tr, e)
      && e.pos == SecPos(tr, sec) && e.ofs == SecOfs(tr, sec) + MaxSize(c.al[p], arg)
      && SecPos(tr + [e], sec) == e.pos + Slots(c.al[p]) && SecOfs(tr + [e], sec) == e.ofs
      && (!IsEnd(c.al[p]) ==> Running(c, tr + [e], sec, start, p + 1))
      && (IsEnd(c.al[p]) ==> EndsClosed(tr + [e]))
  {
    var e := EventFor(tr, sec, Act(p, c.al[p], arg));
    Snoc(tr, e);
    StepOk(c, tr, sec, start, p, arg);
  }

  /** Local label 0 cannot be referred to forward, so nothing ever waits for it. */
  lemma {:induction false} ZeroNeverPending(c: Config, tr: Trace)
    requires TraceOk(c, tr)
    ensures Pending(tr, LG(0)) == []
  {
    if tr != [] { ZeroNeverPending(c, tr[..|tr|-1]); }
  }

  // ---------- whole runs ----------

  /** One call of the client: where it starts in the action list, and its arguments. */
  datatype Call = Call(start: nat, args: seq<int>)

  /** Every call can be made when its turn comes: it is well formed and its section has room for it. */
  predicate Callable(c: Config, tr: Trace, sec: nat, calls: seq<Call>)
    decreases |calls|
  {
    calls == [] ||
    (&& Runnable(c.al, calls[0].start, calls[0].start, calls[0].args, DASM_MAXSECPOS - 1)
     && SecPos(tr, sec) + DASM_MAXSECPOS < (sec + 1) * SECTION_SIZE
     && match Record(c, tr, sec, calls[0].start, calls[0].args)
        case Accepted(tr', next) => Callable(c, tr', next, calls[1..])
        case Rejected(_) => true)
  }

  /** The trace of a run of calls; the first rejected call ends it. */
  function Run(c: Config, tr: Trace, sec: nat, calls: seq<Call>): Outcome
    requires Callable(c, tr, sec, calls)
    decreases |calls|
  {
    if calls == [] then Accepted(tr, sec)
    else
      match Record(c, tr, sec, calls[0].start, calls[0].args)
      case Accepted(tr', next) => Run(c, tr', next, calls[1..])
      case Rejected(st) => Rejected(st)
  }

  // ---------- when a backward reference is refused ----------

  /** Event `e` leaves the visible definition of `k` alone. */
  predicate KeepsVisible(e: Event, k: Key) {
    !Defines(e, k) && !(RefersTo(e, k) && IsForwardLocal(e)) && !(e.what.CheckStep? && IsReset(k))
  }

  /** A definition is visible exactly if since then its label was not redefined, forgotten or referred to forward. */
  lemma {:induction false} VisibleExactly(tr: Trace, k: Key, j: nat)
    requires j < |tr|
    ensures Visible(tr, k) == j <==>
            Defines(tr[j], k) && forall m :: j < m < |tr| ==> KeepsVisible(tr[m], k)
  {
    var n := |tr| - 1;
    if j < n {
      VisibleExactly(tr[..n], k, j);
      assert forall m :: j < m < n ==> tr[..n][m] == tr[m];
    }
  }

  /** A backward reference to a local label is accepted exactly if some definition of it is visible. */
  lemma BackwardAccepted(c: Config, tr: Trace, p: nat, n: nat)
    requires n < 10 <= c.nlg
    ensures CheckRef(c, tr, p, n) == OK <==>
            exists j: nat :: j < |tr| && Defines(tr[j], LG(n)) && forall m ::
                j < m < |tr| ==> KeepsVisible(tr[m], LG(n))
  {
    if CheckRef(c, tr, p, n) == OK {
      VisibleExactly(tr, LG(n), Visible(tr, LG(n)));
    }
    forall j: nat | j < |tr| && Defines(tr[j], LG(n)) && (forall m :: j < m < |tr| ==> KeepsVisible(tr[m], LG(n)))
      ensures CheckRef(c, tr, p, n) == OK
    {
      VisibleExactly(tr, LG(n), j);
    }
  }
}
