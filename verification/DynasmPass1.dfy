/**
 The x86 encoding engine of DynASM, part 2: what the section buffers and label cells hold after
 pass 1.  References that wait for a label are threaded through the buffer cells themselves: the
 label cell holds the position of the newest one, each cell holds the position of the next older one.
 */
module DynasmPass1 {
  import opened DynasmTrace

  type Buffer = map<int, int>

  /** The cells an event fills for itself, label references aside. */
  predicate Stored(e: Event, buf: Buffer) {
    match e.what
    case Enter(st) => e.pos in buf && buf[e.pos] == st
    case Act(_, a, arg) =>
      && (Slots(a) > 0 ==> e.pos in buf)
      && (IsImm(a) ==> buf[e.pos] == arg)
      && (IsRel(a) ==> e.pos + 1 in buf && buf[e.pos + 1] == e.ofs)
      && (IsLabel(a) || a.Align? ==> buf[e.pos] == e.ofs)
    case CheckStep => true
  }

  predicate AllStored(tr: Trace, buf: Buffer) {
    forall i {:trigger Stored(tr[i], buf)} :: 0 <= i < |tr| ==> Stored(tr[i], buf)
  }

  predicate ValidKey(c: Config, k: Key) {
    if k.LG? then 0 <= k.n < c.nlg else 0 <= k.n < c.npc
  }

  predicate HasCell(lg: seq<int>, pc: seq<int>, k: Key) {
    if k.LG? then 0 <= k.n < |lg| else 0 <= k.n < |pc|
  }

  function Cell(lg: seq<int>, pc: seq<int>, k: Key): int
    requires HasCell(lg, pc, k)
  {
    if k.LG? then lg[k.n] else pc[k.n]
  }

  function SetLg(lg: seq<int>, k: Key, v: int): seq<int> {
    if k.LG? && 0 <= k.n < |lg| then lg[k.n := v] else lg
  }

  function SetPc(pc: seq<int>, k: Key, v: int): seq<int> {
    if k.PC? && 0 <= k.n < |pc| then pc[k.n := v] else pc
  }

  /** From `n` the chain visits exactly the events `ps`, newest first, and ends in 0. */
  predicate Chain(tr: Trace, buf: Buffer, n: int, ps: seq<nat>)
    decreases |ps|
  {
    if ps == [] then n == 0
    else
      var last := ps[|ps|-1];
      last < |tr| && n == tr[last].pos && n in buf && Chain(tr, buf, buf[n], ps[..|ps|-1])
  }

  predicate CellOk(tr: Trace, buf: Buffer, n: int, k: Key) {
    if Pending(tr, k) == [] then
      n == if Visible(tr, k) >= 0 then -tr[Visible(tr, k)].pos else 0
    else
      Chain(tr, buf, n, Pending(tr, k))
  }

  ghost predicate CellsOk(c: Config, tr: Trace, lg: seq<int>, pc: seq<int>, buf: Buffer) {
    && |lg| == c.nlg && |pc| == c.npc
    && forall k :: ValidKey(c, k) ==> CellOk(tr, buf, Cell(lg, pc, k), k)
  }

  /** Every reference whose target is recorded holds the position of that target. */
  ghost predicate TargetsOk(tr: Trace, buf: Buffer) {
    forall k, i: nat, j: nat :: IsTarget(tr, k, i, j) ==> tr[i].pos in buf && buf[tr[i].pos] == tr[j].pos
  }

  ghost predicate Pass1Inv(c: Config, tr: Trace, lg: seq<int>, pc: seq<int>, buf: Buffer) {
    TraceOk(c, tr) && AllStored(tr, buf) && CellsOk(c, tr, lg, pc, buf) && TargetsOk(tr, buf)
  }

  /** Which label, if any, an accepted action is about. */
  lemma ActionLabel(c: Config, tr: Trace, e: Event)
    requires c.nlg >= 10 && Extends(c, tr, e) && e.what.Act?
    ensures var a := e.what.a;
      && (IsRel(a) || IsImmLabel(a) ==>
            var (k, forward) := LabelOf(a, e.what.arg);
            RefersTo(e, k) && ValidKey(c, k) && forward == IsForwardLocal(e))
      && (IsLabel(a) ==> Defines(e, LabelOf(a, e.what.arg).0) && ValidKey(c, LabelOf(a, e.what.arg).0))
      && (!IsRel(a) && !IsImmLabel(a) && !IsLabel(a) ==> forall k :: !RefersTo(e, k) && !Defines(e, k))
  {
  }

  /** `buf'` keeps the own cells of every event; only label references may differ. */
  predicate KeepsStored(tr: Trace, buf: Buffer, buf': Buffer) {
    forall i {:trigger Stored(tr[i], buf')} :: 0 <= i < |tr| && Stored(tr[i], buf) ==> Stored(tr[i], buf')
  }

  /** `buf'` keeps the reference cell of event `i`. */
  predicate KeepsRef(tr: Trace, buf: Buffer, buf': Buffer, i: nat)
    requires i < |tr|
  {
    tr[i].pos in buf ==> tr[i].pos in buf' && buf'[tr[i].pos] == buf[tr[i].pos]
  }

  predicate IsReference(e: Event) {
    e.what.Act? && (IsRel(e.what.a) || IsImmLabel(e.what.a))
  }

  predicate KeepsRefs(tr: Trace, buf: Buffer, buf': Buffer) {
    forall i {:trigger KeepsRef(tr, buf, buf', i)} :: 0 <= i < |tr| && IsReference(tr[i]) ==> KeepsRef(tr, buf, buf', i)
  }

  /** Writing the cells of a new event leaves all earlier cells alone. */
  lemma WriteFresh(c: Config, tr: Trace, e: Event, buf: Buffer, buf': Buffer)
    requires TraceOk(c, tr) && Extends(c, tr, e) && !e.what.CheckStep?
    requires forall q :: q in buf && !(e.pos <= q < e.pos + EventSlots(e)) ==> q in buf' && buf'[q] == buf[q]
    ensures KeepsStored(tr, buf, buf') && KeepsRefs(tr, buf, buf')
  {
    SecPosInRange(c, tr, e.sec);
    forall i | 0 <= i < |tr| && !tr[i].what.CheckStep?
      ensures Stored(tr[i], buf) ==> Stored(tr[i], buf')
      ensures IsReference(tr[i]) ==> KeepsRef(tr, buf, buf', i)
    {
      PosBelow(c, tr, i);
    }
  }

  /** A chain survives changes to cells it does not visit. */
  lemma {:induction false} ChainFrame(tr: Trace, tr': Trace, buf: Buffer, buf': Buffer, n: int, ps: seq<nat>)
    requires tr <= tr'
    requires Chain(tr, buf, n, ps)
    requires forall i: nat :: i in ps ==> i < |tr| && KeepsRef(tr, buf, buf', i)
    ensures Chain(tr', buf', n, ps)
    decreases |ps|
  {
    if ps != [] {
      var last, rest := ps[|ps|-1], ps[..|ps|-1];
      assert last in ps && forall i: nat :: i in rest ==> i in ps;
      ChainFrame(tr, tr', buf, buf', buf[n], rest);
    }
  }

  lemma {:induction false} PendingAreReferences(tr: Trace, k: Key)
    ensures forall i :: i in Pending(tr, k) ==> RefersTo(tr[i], k)
  {
    if tr != [] { PendingAreReferences(tr[..|tr|-1], k); }
  }

  /** A label an event does not touch keeps its cell. */
  lemma UntouchedCell(c: Config, tr: Trace, e: Event, buf: Buffer, buf': Buffer, n: int, k: Key)
    requires TraceOk(c, tr) && Extends(c, tr, e)
    requires !RefersTo(e, k) && !Defines(e, k) && !(e.what.CheckStep? && IsReset(k))
    requires CellOk(tr, buf, n, k)
    requires forall i :: i in Pending(tr, k) ==> KeepsRef(tr, buf, buf', i)
    ensures CellOk(tr + [e], buf', n, k)
  {
    Snoc(tr, e);
    if Pending(tr, k) != [] {
      ChainFrame(tr, tr + [e], buf, buf', n, Pending(tr, k));
    }
  }

  lemma StoredGrows(tr: Trace, e: Event, buf: Buffer, buf': Buffer)
    requires AllStored(tr, buf) && KeepsStored(tr, buf, buf') && Stored(e, buf')
    ensures AllStored(tr + [e], buf')
  {
  }

  lemma TraceGrows(c: Config, tr: Trace, e: Event)
    requires TraceOk(c, tr) && Extends(c, tr, e)
    ensures TraceOk(c, tr + [e])
  {
    Snoc(tr, e);
  }

  /** An event that neither refers to nor defines a label. */
  lemma PlainStep(c: Config, tr: Trace, lg: seq<int>, pc: seq<int>, buf: Buffer, e: Event, buf': Buffer)
    requires Pass1Inv(c, tr, lg, pc, buf) && Extends(c, tr, e) && !e.what.CheckStep?
    requires forall k :: !RefersTo(e, k) && !Defines(e, k)
    requires KeepsStored(tr, buf, buf') && KeepsRefs(tr, buf, buf') && Stored(e, buf')
    ensures Pass1Inv(c, tr + [e], lg, pc, buf')
  {
    var tr' := tr + [e];
    TraceGrows(c, tr, e);
    StoredGrows(tr, e, buf, buf');
    forall k | ValidKey(c, k) ensures CellOk(tr', buf', Cell(lg, pc, k), k) {
      PendingAreReferences(tr, k);
      UntouchedCell(c, tr, e, buf, buf', Cell(lg, pc, k), k);
    }
    forall k, i: nat, j: nat | IsTarget(tr', k, i, j) ensures tr'[i].pos in buf' && buf'[tr'[i].pos] == tr'[j].pos {
      TargetsGrow(c, tr, e, k, i, j);
      assert IsTarget(tr, k, i, j) && KeepsRef(tr, buf, buf', i);
    }
  }

  /** A reference to a label whose cell shows a definition takes that definition's position. */
  lemma ResolvedStep(c: Config, tr: Trace, lg: seq<int>, pc: seq<int>, buf: Buffer, e: Event, buf': Buffer, k: Key)
    requires Pass1Inv(c, tr, lg, pc, buf) && Extends(c, tr, e)
    requires RefersTo(e, k) && !IsForwardLocal(e) && ValidKey(c, k) && Visible(tr, k) >= 0
    requires KeepsStored(tr, buf, buf') && KeepsRefs(tr, buf, buf') && Stored(e, buf')
    requires buf'[e.pos] == tr[Visible(tr, k)].pos
    ensures Pass1Inv(c, tr + [e], lg, pc, buf')
  {
    var tr' := tr + [e];
    TraceGrows(c, tr, e);
    StoredGrows(tr, e, buf, buf');
    forall k' | ValidKey(c, k') ensures CellOk(tr', buf', Cell(lg, pc, k'), k') {
      if k' != k {
        PendingAreReferences(tr, k');
        UntouchedCell(c, tr, e, buf, buf', Cell(lg, pc, k'), k');
      } else {
        VisibleIsLatest(c, tr, k);
        Snoc(tr, e);
      }
    }
    forall k', i: nat, j: nat | IsTarget(tr', k', i, j) ensures tr'[i].pos in buf' && buf'[tr'[i].pos] == tr'[j].pos {
      TargetsGrow(c, tr, e, k', i, j);
      if i < |tr| { assert IsTarget(tr, k', i, j) && KeepsRef(tr, buf, buf', i); }
    }
  }

  /** Any other reference is pushed onto the chain of its label. */
  lemma LinkedStep(c: Config, tr: Trace, lg: seq<int>, pc: seq<int>, buf: Buffer, e: Event, buf': Buffer, k: Key)
    requires Pass1Inv(c, tr, lg, pc, buf) && Extends(c, tr, e)
    requires RefersTo(e, k) && ValidKey(c, k) && (IsForwardLocal(e) || Visible(tr, k) < 0)
    requires KeepsStored(tr, buf, buf') && KeepsRefs(tr, buf, buf') && Stored(e, buf')
    requires buf'[e.pos] == if Cell(lg, pc, k) < 0 then 0 else Cell(lg, pc, k)
    ensures Pass1Inv(c, tr + [e], SetLg(lg, k, e.pos), SetPc(pc, k, e.pos), buf')
  {
    var tr' := tr + [e];
    TraceGrows(c, tr, e);
    StoredGrows(tr, e, buf, buf');
    PushOnChain(c, tr, buf, e, buf', k, Cell(lg, pc, k));
    OtherCells(c, tr, lg, pc, buf, e, buf', k, e.pos);
    forall k', i: nat, j: nat | IsTarget(tr', k', i, j) ensures tr'[i].pos in buf' && buf'[tr'[i].pos] == tr'[j].pos {
      TargetsGrow(c, tr, e, k', i, j);
      NewReference(c, tr, e, k');
      PendingMeansLast(c, tr, e, k', i, j);
      assert IsTarget(tr, k', i, j) && KeepsRef(tr, buf, buf', i);
    }
  }

  /** An event about label `k` leaves the cells of all other labels right. */
  lemma OtherCells(c: Config, tr: Trace, lg: seq<int>, pc: seq<int>, buf: Buffer, e: Event, buf': Buffer, k: Key,
      v: int)
    requires TraceOk(c, tr) && Extends(c, tr, e) && CellsOk(c, tr, lg, pc, buf) && ValidKey(c, k)
    requires RefersTo(e, k) || Defines(e, k)
    requires forall i :: 0 <= i < |tr| && IsReference(tr[i]) && !RefersTo(tr[i], k) ==> KeepsRef(tr, buf, buf', i)
    requires CellOk(tr + [e], buf', v, k)
    ensures CellsOk(c, tr + [e], SetLg(lg, k, v), SetPc(pc, k, v), buf')
  {
    var lg', pc' := SetLg(lg, k, v), SetPc(pc, k, v);
    forall k' | ValidKey(c, k') ensures CellOk(tr + [e], buf', Cell(lg', pc', k'), k') {
      if k' == k {
        assert Cell(lg', pc', k') == v;
      } else {
        assert Cell(lg', pc', k') == Cell(lg, pc, k');
        OtherCell(c, tr, buf, e, buf', k, Cell(lg, pc, k'), k');
      }
    }
  }

  lemma OtherCell(c: Config, tr: Trace, buf: Buffer, e: Event, buf': Buffer, k: Key, n: int, k': Key)
    requires TraceOk(c, tr) && Extends(c, tr, e) && k' != k && CellOk(tr, buf, n, k')
    requires RefersTo(e, k) || Defines(e, k)
    requires forall i :: 0 <= i < |tr| && IsReference(tr[i]) && !RefersTo(tr[i], k) ==> KeepsRef(tr, buf, buf', i)
    ensures CellOk(tr + [e], buf', n, k')
  {
    PendingAreReferences(tr, k');
    forall i | i in Pending(tr, k') ensures KeepsRef(tr, buf, buf', i) {
      assert IsReference(tr[i]) && !RefersTo(tr[i], k);
    }
    UntouchedCell(c, tr, e, buf, buf', n, k');
  }

  /** A reference that is pending has no target yet. */
  lemma PendingMeansLast(c: Config, tr: Trace, e: Event, k: Key, i: nat, j: nat)
    requires TraceOk(c, tr) && Extends(c, tr, e) && IsTarget(tr + [e], k, i, j) && !Defines(e, k)
    requires RefersTo(e, k) ==> IsForwardLocal(e) || Visible(tr, k) < 0
    ensures i < |tr|
  {
    TraceGrows(c, tr, e);
    Snoc(tr, e);
    if i == |tr| {
      PendingMeans(c, tr + [e], k, i);
    }
  }

  lemma PushOnChain(c: Config, tr: Trace, buf: Buffer, e: Event, buf': Buffer, k: Key, n: int)
    requires TraceOk(c, tr) && Extends(c, tr, e) && CellOk(tr, buf, n, k)
    requires RefersTo(e, k) && (IsForwardLocal(e) || Visible(tr, k) < 0)
    requires KeepsRefs(tr, buf, buf')
    requires e.pos in buf' && buf'[e.pos] == if n < 0 then 0 else n
    ensures CellOk(tr + [e], buf', e.pos, k)
  {
    var tr', ps := tr + [e], Pending(tr, k);
    Snoc(tr, e);
    PendingAreReferences(tr, k);
    assert Pending(tr', k) == ps + [|tr|];
    assert (ps + [|tr|])[..|ps|] == ps;
    VisibleIsLatest(c, tr, k);
    if ps != [] {
      assert ps[|ps|-1] in ps;
      PosBelow(c, tr, ps[|ps|-1]);
      ChainFrame(tr, tr', buf, buf', n, ps);
    } else if Visible(tr, k) >= 0 {
      PosBelow(c, tr, Visible(tr, k));
    }
  }

  /** The cells a reference event writes, `n` being the first. */
  function WithReference(buf: Buffer, e: Event, n: int): Buffer {
    ReferenceCells(buf, e.pos, n, e.what.Act? && IsRel(e.what.a), e.ofs)
  }

  function ReferenceCells(buf: Buffer, pos: int, n: int, rel: bool, ofs: int): Buffer {
    if rel then buf[pos := n][pos + 1 := ofs] else buf[pos := n]
  }

  /** A reference finds the cell of its label negative: it takes the position shown there. */
  lemma ReferToShown(c: Config, tr: Trace, lg: seq<int>, pc: seq<int>, buf: Buffer, e: Event, k: Key)
    requires Pass1Inv(c, tr, lg, pc, buf) && Extends(c, tr, e)
    requires RefersTo(e, k) && ValidKey(c, k) && !IsForwardLocal(e) && Cell(lg, pc, k) < 0
    ensures Pass1Inv(c, tr + [e], lg, pc, WithReference(buf, e, -Cell(lg, pc, k)))
  {
    var buf' := WithReference(buf, e, -Cell(lg, pc, k));
    CellSign(c, tr, buf, Cell(lg, pc, k), k);
    WriteFresh(c, tr, e, buf, buf');
    ResolvedStep(c, tr, lg, pc, buf, e, buf', k);
  }

  /** Otherwise it becomes the newest link of the chain of its label. */
  lemma ReferToChain(c: Config, tr: Trace, lg: seq<int>, pc: seq<int>, buf: Buffer, e: Event, k: Key, n: int)
    requires Pass1Inv(c, tr, lg, pc, buf) && Extends(c, tr, e)
    requires RefersTo(e, k) && ValidKey(c, k) && (IsForwardLocal(e) || Cell(lg, pc, k) >= 0)
    requires n == if Cell(lg, pc, k) < 0 then 0 else Cell(lg, pc, k)
    ensures Pass1Inv(c, tr + [e], SetLg(lg, k, e.pos), SetPc(pc, k, e.pos), WithReference(buf, e, n))
  {
    var buf' := WithReference(buf, e, n);
    CellSign(c, tr, buf, Cell(lg, pc, k), k);
    WriteFresh(c, tr, e, buf, buf');
    LinkedStep(c, tr, lg, pc, buf, e, buf', k);
  }

  /** Label definition: all waiting references now hold the label's position. */
  lemma DefineStep(c: Config, tr: Trace, lg: seq<int>, pc: seq<int>, buf: Buffer, e: Event, buf': Buffer, k: Key)
    requires Pass1Inv(c, tr, lg, pc, buf) && Extends(c, tr, e)
    requires Defines(e, k) && ValidKey(c, k)
    requires KeepsStored(tr, buf, buf') && Stored(e, buf')
    requires Collapsed(tr, k, e.pos, buf, buf')
    ensures Pass1Inv(c, tr + [e], SetLg(lg, k, -e.pos), SetPc(pc, k, -e.pos), buf')
  {
    TraceGrows(c, tr, e);
    Snoc(tr, e);
    StoredGrows(tr, e, buf, buf');
    PendingAreReferences(tr, k);
    OtherCells(c, tr, lg, pc, buf, e, buf', k, -e.pos);
    DefinedTargets(c, tr, buf, e, buf', k);
  }

  /** Exactly the references pending for `k` now hold `v`. */
  predicate Collapsed(tr: Trace, k: Key, v: int, buf: Buffer, buf': Buffer) {
    && (forall i :: 0 <= i < |tr| && IsReference(tr[i]) && i !in Pending(tr, k) ==> KeepsRef(tr, buf, buf', i))
    && (forall i :: i in Pending(tr, k) ==> tr[i].pos in buf' && buf'[tr[i].pos] == v)
  }

  lemma DefinedTargets(c: Config, tr: Trace, buf: Buffer, e: Event, buf': Buffer, k: Key)
    requires TraceOk(c, tr) && Extends(c, tr, e) && Defines(e, k)
    requires TargetsOk(tr, buf) && Collapsed(tr, k, e.pos, buf, buf')
    ensures TargetsOk(tr + [e], buf')
  {
    var tr' := tr + [e];
    forall k', i: nat, j: nat | IsTarget(tr', k', i, j) ensures tr'[i].pos in buf' && buf'[tr'[i].pos] == tr'[j].pos {
      TargetsGrow(c, tr, e, k', i, j);
      if j < |tr| {
        assert i < |tr|;
        assert IsTarget(tr, k', i, j);
        ResolvedIsNotPending(c, tr, k, k', i, j);
        assert KeepsRef(tr, buf, buf', i);
      }
    }
  }

  lemma ResolvedIsNotPending(c: Config, tr: Trace, k: Key, k': Key, i: nat, j: nat)
    requires TraceOk(c, tr) && IsTarget(tr, k', i, j)
    ensures i !in Pending(tr, k)
  {
    PendingAreReferences(tr, k);
    PendingMeans(c, tr, k, i);
  }

  /** A negative label cell means a visible definition, a positive one pending references. */
  lemma CellSign(c: Config, tr: Trace, buf: Buffer, n: int, k: Key)
    requires TraceOk(c, tr) && CellOk(tr, buf, n, k)
    ensures n < 0 <==> Visible(tr, k) >= 0
    ensures n > 0 <==> Pending(tr, k) != []
    ensures n < 0 ==> -n == tr[Visible(tr, k)].pos
    ensures n > 0 ==> Chain(tr, buf, n, Pending(tr, k))
  {
    VisibleIsLatest(c, tr, k);
    PendingAreReferences(tr, k);
    var ps := Pending(tr, k);
    if ps != [] {
      assert ps[|ps|-1] in ps;
      ActionPosPositive(c, tr, ps[|ps|-1]);
    } else if Visible(tr, k) >= 0 {
      ActionPosPositive(c, tr, Visible(tr, k));
    }
  }

  /** Is `q` the cell of one of the chain members `ps[m..]`? */
  predicate Visited(tr: Trace, ps: seq<nat>, m: nat, q: int) {
    exists a :: m <= a < |ps| && ps[a] < |tr| && q == tr[ps[a]].pos
  }

  /** Having walked `ps[m..]`, writing `v` into each of its cells. */
  predicate Walked(tr: Trace, ps: seq<nat>, m: nat, v: int, buf0: Buffer, buf: Buffer) {
    && buf.Keys == buf0.Keys
    && forall q :: q in buf ==> buf[q] == if Visited(tr, ps, m, q) then v else buf0[q]
  }

  /** A list of references in trace order. */
  predicate RefList(tr: Trace, ps: seq<nat>) {
    && (forall a :: 0 <= a < |ps| ==> ps[a] < |tr| && IsReference(tr[ps[a]]))
    && (forall a, b :: 0 <= a < b < |ps| ==> ps[a] < ps[b])
  }

  lemma PendingIsRefList(tr: Trace, k: Key)
    ensures RefList(tr, Pending(tr, k))
  {
    var ps := Pending(tr, k);
    PendingAreReferences(tr, k);
    PendingSorted(tr, k);
    forall a | 0 <= a < |ps| ensures ps[a] < |tr| && IsReference(tr[ps[a]]) { assert ps[a] in ps; }
  }

  lemma WalkStep(c: Config, tr: Trace, ps: seq<nat>, m: nat, n: int, v: int, buf0: Buffer, buf: Buffer)
    requires TraceOk(c, tr) && RefList(tr, ps) && 0 < m <= |ps|
    requires Walked(tr, ps, m, v, buf0, buf)
    requires Chain(tr, buf, n, ps[..m])
    ensures n in buf
    ensures Walked(tr, ps, m - 1, v, buf0, buf[n := v])
    ensures Chain(tr, buf[n := v], buf[n], ps[..m-1])
  {
    var rest, buf' := ps[..m-1], buf[n := v];
    assert ps[..m][..m-1] == rest && ps[..m][m-1] == ps[m-1];
    WalkWrites(tr, ps, m, n, v, buf0, buf);
    forall i: nat | i in rest ensures i < |tr| && KeepsRef(tr, buf, buf', i) {
      CellsDisjoint(c, tr, i, ps[m-1]);
    }
    ChainFrame(tr, tr, buf, buf', buf[n], rest);
  }

  lemma ChainHeadPositive(c: Config, tr: Trace, buf: Buffer, n: int, ps: seq<nat>)
    requires TraceOk(c, tr) && RefList(tr, ps) && Chain(tr, buf, n, ps)
    ensures n > 0 <==> ps != []
    ensures n >= 0
  {
    if ps != [] {
      ActionPosPositive(c, tr, ps[|ps|-1]);
    }
  }

  lemma WalkNext(c: Config, tr: Trace, ps: seq<nat>, m: nat, n: int, v: int, buf0: Buffer, buf: Buffer)
    requires TraceOk(c, tr) && RefList(tr, ps) && m <= |ps| && n > 0
    requires Walked(tr, ps, m, v, buf0, buf) && Chain(tr, buf, n, ps[..m])
    ensures m > 0 && n in buf && (buf[n] <= 0 ==> m == 1)
    ensures Walked(tr, ps, m - 1, v, buf0, buf[n := v])
    ensures Chain(tr, buf[n := v], buf[n], ps[..m-1])
  {
    ChainHeadPositive(c, tr, buf, n, ps[..m]);
    WalkStep(c, tr, ps, m, n, v, buf0, buf);
    ChainHeadPositive(c, tr, buf[n := v], buf[n], ps[..m-1]);
  }

  lemma WalkWrites(tr: Trace, ps: seq<nat>, m: nat, n: int, v: int, buf0: Buffer, buf: Buffer)
    requires 0 < m <= |ps| && ps[m-1] < |tr| && n == tr[ps[m-1]].pos && n in buf
    requires Walked(tr, ps, m, v, buf0, buf)
    ensures Walked(tr, ps, m - 1, v, buf0, buf[n := v])
  {
    forall q | q in buf ensures buf[n := v][q] == if Visited(tr, ps, m - 1, q) then v else buf0[q] {
      if q == n {
        assert ps[m-1] < |tr| && q == tr[ps[m-1]].pos;
      } else {
        assert Visited(tr, ps, m - 1, q) == Visited(tr, ps, m, q);
      }
    }
  }

  /** A completed walk collapses the chain and disturbs nothing else. */
  lemma WalkDone(c: Config, tr: Trace, k: Key, v: int, buf0: Buffer, buf: Buffer)
    requires TraceOk(c, tr) && AllStored(tr, buf0)
    requires Walked(tr, Pending(tr, k), 0, v, buf0, buf)
    ensures Collapsed(tr, k, v, buf0, buf) && KeepsStored(tr, buf0, buf)
  {
    var ps := Pending(tr, k);
    PendingAreReferences(tr, k);
    assert forall a :: 0 <= a < |ps| ==> ps[a] in ps;
    forall i | i in ps ensures tr[i].pos in buf && buf[tr[i].pos] == v {
      var a :| 0 <= a < |ps| && ps[a] == i;
      assert Stored(tr[i], buf0) && Visited(tr, ps, 0, tr[i].pos);
    }
    forall i: nat | i < |tr| ensures Stored(tr[i], buf)
      ensures IsReference(tr[i]) && i !in ps ==> KeepsRef(tr, buf0, buf, i)
    {
      WalkSpares(c, tr, k, i);
      assert Stored(tr[i], buf0);
    }
  }

  /** The walk passes only through reference cells of its own label. */
  lemma WalkSpares(c: Config, tr: Trace, k: Key, i: nat)
    requires TraceOk(c, tr) && i < |tr|
    ensures EventSlots(tr[i]) > 0 && i !in Pending(tr, k) ==> !Visited(tr, Pending(tr, k), 0, tr[i].pos)
    ensures EventSlots(tr[i]) > 1 ==> !Visited(tr, Pending(tr, k), 0, tr[i].pos + 1)
  {
    var ps := Pending(tr, k);
    PendingAreReferences(tr, k);
    forall a | 0 <= a < |ps| && ps[a] < |tr| && ps[a] != i && !tr[i].what.CheckStep?
      ensures EventSlots(tr[i]) > 0 ==> tr[ps[a]].pos != tr[i].pos
      ensures EventSlots(tr[i]) > 1 ==> tr[ps[a]].pos != tr[i].pos + 1
    {
      assert ps[a] in ps;
      if ps[a] < i { CellsDisjoint(c, tr, ps[a], i); } else { CellsDisjoint(c, tr, i, ps[a]); }
    }
  }

  lemma CollapsedThenWritten(tr: Trace, k: Key, v: int, buf0: Buffer, buf1: Buffer, buf2: Buffer)
    requires Collapsed(tr, k, v, buf0, buf1) && KeepsRefs(tr, buf1, buf2)
    ensures Collapsed(tr, k, v, buf0, buf2)
  {
    PendingAreReferences(tr, k);
    forall i: nat | i < |tr| && IsReference(tr[i])
      ensures i !in Pending(tr, k) ==> KeepsRef(tr, buf0, buf2, i)
      ensures i in Pending(tr, k) ==> tr[i].pos in buf2 && buf2[tr[i].pos] == v
    {
      assert KeepsRef(tr, buf1, buf2, i);
      if i !in Pending(tr, k) { assert KeepsRef(tr, buf0, buf1, i); }
    }
  }

  // ---------- between the passes ----------

  /** Forgetting the local labels once nothing waits for them. */
  lemma ForgetLocals(c: Config, tr: Trace, lg: seq<int>, pc: seq<int>, buf: Buffer, lg': seq<int>)
    requires c.nlg >= 10 && Pass1Inv(c, tr, lg, pc, buf) && EndsClosed(tr)
    requires forall n :: 1 <= n <= 9 ==> lg[n] <= 0
    requires |lg'| == |lg| && forall n :: 0 <= n < |lg| ==> lg'[n] == if 1 <= n <= 9 then 0 else lg[n]
    ensures Pass1Inv(c, tr + [Event(0, 0, CheckStep, 0)], lg', pc, buf)
  {
    var e := Event(0, 0, CheckStep, 0);
    var tr' := tr + [e];
    forall k | IsReset(k) ensures Pending(tr, k) == [] {
      assert ValidKey(c, k);
      CellSign(c, tr, buf, Cell(lg, pc, k), k);
    }
    TraceGrows(c, tr, e);
    StoredGrows(tr, e, buf, buf);
    Snoc(tr, e);
    forall k | ValidKey(c, k) ensures CellOk(tr', buf, Cell(lg', pc, k), k) {
      if !IsReset(k) { UntouchedCell(c, tr, e, buf, buf, Cell(lg, pc, k), k); }
    }
    forall k, i: nat, j: nat | IsTarget(tr', k, i, j) ensures tr'[i].pos in buf && buf[tr'[i].pos] == tr'[j].pos {
      TargetsGrow(c, tr, e, k, i, j);
    }
  }

  /** Global labels below `m` that nothing defines are marked foreign; the others still hold chains. */
  ghost predicate ForeignUpTo(c: Config, tr: Trace, lg: seq<int>, pc: seq<int>, buf: Buffer, m: int) {
    && TraceOk(c, tr) && AllStored(tr, buf) && TargetsOk(tr, buf)
    && |lg| == c.nlg && |pc| == c.npc
    && (forall k :: ValidKey(c, k) && k.LG? && k.n >= m ==> CellOk(tr, buf, Cell(lg, pc, k), k))
    && (forall k: Key, i ::
        k.LG? && 10 <= k.n < m && i in Pending(tr, k) ==> tr[i].pos in buf && buf[tr[i].pos] == -k.n)
  }

  lemma ForeignStep(c: Config, tr: Trace, lg: seq<int>, pc: seq<int>, buf: Buffer, buf': Buffer, m: int)
    requires ForeignUpTo(c, tr, lg, pc, buf, m) && 0 <= m < c.nlg
    requires Collapsed(tr, LG(m), -m, buf, buf') && KeepsStored(tr, buf, buf')
    ensures ForeignUpTo(c, tr, lg, pc, buf', m + 1)
  {
    forall k | ValidKey(c, k) && k.LG? && k.n >= m + 1 ensures CellOk(tr, buf', Cell(lg, pc, k), k) {
      OtherPendingKept(tr, LG(m), -m, buf, buf', k);
      if Pending(tr, k) != [] { ChainFrame(tr, tr, buf, buf', Cell(lg, pc, k), Pending(tr, k)); }
    }
    forall k: Key, i | k.LG? && 10 <= k.n < m + 1 && i in Pending(tr, k) ensures tr[i].pos in buf'
        && buf'[tr[i].pos] == -k.n {
      if k != LG(m) { OtherPendingKept(tr, LG(m), -m, buf, buf', k); }
    }
    forall k, i: nat, j: nat | IsTarget(tr, k, i, j) ensures tr[i].pos in buf' && buf'[tr[i].pos] == tr[j].pos {
      ResolvedIsNotPending(c, tr, LG(m), k, i, j);
      assert IsReference(tr[i]) && KeepsRef(tr, buf, buf', i);
    }
  }

  lemma OtherPendingKept(tr: Trace, k: Key, v: int, buf: Buffer, buf': Buffer, k': Key)
    requires Collapsed(tr, k, v, buf, buf') && k != k'
    ensures forall i: nat :: i in Pending(tr, k') ==> i < |tr| && KeepsRef(tr, buf, buf', i)
  {
    PendingAreReferences(tr, k);
    PendingAreReferences(tr, k');
  }
}
