/**
 The x86 encoding engine of DynASM, part 4: what pass 2 decides and what pass 3 writes, and why the
 machine code means what the trace says.
 */
module DynasmLink {
  import opened DynasmTrace
  import opened DynasmPass1
  import opened DynasmLayout

  function At(m: map<int, int>, q: int): int { if q in m then m[q] else 0 }

  /** `x` is a multiple of `mask + 1`. */
  predicate Aligned(x: int, mask: byte) { x % (mask as int + 1) == 0 }

  // ---------- pass 2 ----------

  /** Final offset before event `i`: the estimate, less everything saved before it. */
  function Cursor(all: Trace, dl: seq<int>, i: nat): int
    requires i <= |all| && i < |dl|
  {
    Est(all, i) + dl[i]
  }

  predicate IsRelEvent(e: Event) { e.what.Act? && IsRel(e.what.a) }
  predicate IsLabelEvent(e: Event) { e.what.Act? && IsLabel(e.what.a) }
  predicate IsByteEvent(e: Event) { e.what.Act? && IsByte(e.what.a) }

  /** The opcode byte before a branch. */
  function Opcode(all: Trace, i: nat): int
    requires i < |all|
  {
    if i >= 1 && all[i-1].what.Act? then OpByte(all[i-1].what.a) else -1
  }

  /** The distance pass 2 tests: by estimates to a later label, by final offsets to an earlier one. */
  function Distance(all: Trace, dl: seq<int>, i: nat, b: nat): int
    requires i < |all| && b < |all| && i < |dl| && (b < i ==> b < |dl|)
  {
    if b > i then Est(all, b) - Est(all, i + 1)
    else if b < i then Cursor(all, dl, b) - (Est(all, i + 1) + dl[i])
    else 0
  }

  function ShrinkBy(op: int, distance: int): int {
    var shrink := ShrinkOf(op);
    if shrink != 0 && -128 - shrink <= distance <= 127 then shrink else 0
  }

  /** The right number of bytes to drop from branch `i` whose reference cell is `cell`. */
  predicate ShrinkRight(all: Trace, dl: seq<int>, i: nat, cell: int, shrink: int)
    requires i < |all| && i < |dl|
  {
    && (shrink == 0 || shrink == ShrinkOf(Opcode(all, i)))
    && (cell < 0 ==> shrink == 0)
    && (forall b: nat :: b < |all| && IsLabelEvent(all[b]) && all[b].pos == cell ==>
          shrink == ShrinkBy(Opcode(all, i), Distance(all, dl, i, b)))
  }

  /** The effect of pass 2 on event `i`: `dl` is the running correction, `buf` becomes `buf'`. */
  predicate LinkStep(all: Trace, dl: seq<int>, buf: Buffer, buf': Buffer, i: nat)
    requires i < |all| && i + 1 < |dl|
  {
    var e := all[i];
    match e.what
    case Enter(st) => dl[i+1] == dl[i] && e.pos in buf' && buf'[e.pos] == st
    case CheckStep => dl[i+1] == dl[i]
    case Act(_, a, arg) =>
      if IsRel(a) then
        && e.pos in buf && e.pos in buf' && buf'[e.pos] == buf[e.pos]
        && e.pos + 1 in buf' && buf'[e.pos + 1] == dl[i] - dl[i+1]
        && ShrinkRight(all, dl, i, buf[e.pos], dl[i] - dl[i+1])
      else if IsLabel(a) then
        dl[i+1] == dl[i] && e.pos in buf' && buf'[e.pos] == Cursor(all, dl, i)
      else if a.Align? then
        0 <= dl[i] - dl[i+1] <= a.mask && Aligned(Est(all, i + 1) + dl[i+1], a.mask)
      else
        && dl[i+1] == dl[i]
        && (IsImm(a) ==> e.pos in buf' && buf'[e.pos] == arg)
        && (IsImmLabel(a) ==> e.pos in buf && e.pos in buf' && buf'[e.pos] == buf[e.pos])
  }

  /** Pass 2 has treated the first `n` events. */
  predicate LinkedUpTo(all: Trace, dl: seq<int>, buf: Buffer, buf': Buffer, n: nat) {
    && n <= |all| && |dl| == n + 1 && dl[0] == 0
    && forall i :: 0 <= i < n ==> LinkStep(all, dl, buf, buf', i)
  }

  /** Treating one more event, touching no cell of the earlier ones. */
  lemma LinkNext(all: Trace, dl: seq<int>, d: int, buf: Buffer, buf1: Buffer, buf2: Buffer, n: nat)
    requires LinkedUpTo(all, dl, buf, buf1, n) && n < |all| && PosOrdered(all)
    requires forall q :: q in buf1 && q < all[n].pos ==> q in buf2 && buf2[q] == buf1[q]
    requires LinkStep(all, dl + [d], buf, buf2, n)
    ensures LinkedUpTo(all, dl + [d], buf, buf2, n + 1)
  {
    forall i | 0 <= i < n ensures LinkStep(all, dl + [d], buf, buf2, i) {
      assert LinkStep(all, dl, buf, buf1, i);
      assert all[i].pos + EventSlots(all[i]) <= all[n].pos;
      LinkStepFrame(all, dl, d, buf, buf1, buf2, i);
    }
  }

  lemma LinkStepFrame(all: Trace, dl: seq<int>, d: int, buf: Buffer, buf1: Buffer, buf2: Buffer, i: nat)
    requires i < |all| && i + 1 < |dl| && LinkStep(all, dl, buf, buf1, i)
    requires forall q :: q in buf1 && q < all[i].pos + EventSlots(all[i]) ==> q in buf2 && buf2[q] == buf1[q]
    ensures LinkStep(all, dl + [d], buf, buf2, i)
  {
    assert (dl + [d])[i] == dl[i] && (dl + [d])[i+1] == dl[i+1];
    if IsRelEvent(all[i]) { ShrinkRightFrame(all, dl, d, i, buf[all[i].pos], dl[i] - dl[i+1]); }
  }

  /** What pass 2 may rely on: every reference is resolved, or marked as foreign. */
  ghost predicate Resolved(c: Config, tr: Trace, buf: Buffer) {
    && TraceOk(c, tr) && EndsClosed(tr) && c.nlg >= 10
    && AllStored(tr, buf) && TargetsOk(tr, buf)
    && (forall k :: ValidKey(c, k) && (IsLocal(k) || k.PC?) ==> Pending(tr, k) == [])
    && (forall k, i :: ValidKey(c, k) && !IsLocal(k) && k.LG? && i in Pending(tr, k) ==>
          tr[i].pos in buf && buf[tr[i].pos] == -k.n)
  }

  lemma FlatIndex(tr: Trace, n: nat, t: nat) returns (i: nat)
    requires t < |tr| && !tr[t].what.CheckStep? && tr[t].sec < n
    ensures i < |Flat(tr, n)| && Flat(tr, n)[i] == tr[t]
  {
    FlatMembers(tr, n);
    assert tr[t] in Flat(tr, n);
    i :| 0 <= i < |Flat(tr, n)| && Flat(tr, n)[i] == tr[t];
  }

  lemma TraceIndex(tr: Trace, n: nat, i: nat) returns (t: nat)
    requires i < |Flat(tr, n)|
    ensures t < |tr| && Flat(tr, n)[i] == tr[t] && !tr[t].what.CheckStep? && tr[t].sec < n
  {
    FlatMembers(tr, n);
    assert Flat(tr, n)[i] in Flat(tr, n);
    t :| 0 <= t < |tr| && tr[t] == Flat(tr, n)[i];
  }

  lemma {:induction false} AcceptedBefore(c: Config, tr: Trace, t: nat)
    requires TraceOk(c, tr) && t < |tr|
    ensures Extends(c, tr[..t], tr[t])
    decreases |tr|
  {
    var n := |tr| - 1;
    if t < n {
      AcceptedBefore(c, tr[..n], t);
      assert tr[..n][..t] == tr[..t];
    }
  }

  lemma ReferenceKey(c: Config, tr: Trace, t: nat) returns (k: Key)
    requires TraceOk(c, tr) && c.nlg >= 10 && t < |tr| && IsReference(tr[t])
    ensures RefersTo(tr[t], k) && ValidKey(c, k)
  {
    AcceptedBefore(c, tr, t);
    ActionLabel(c, tr[..t], tr[t]);
    k := LabelOf(tr[t].what.a, tr[t].what.arg).0;
  }

  /** The cell of a reference holds its target's position, or marks an undefined global label. */
  lemma CellOfReference(c: Config, tr: Trace, buf: Buffer, t: nat) returns (k: Key, j: nat)
    requires Resolved(c, tr, buf) && t < |tr| && IsReference(tr[t])
    ensures tr[t].pos in buf && RefersTo(tr[t], k) && ValidKey(c, k)
    ensures if buf[tr[t].pos] < 0 then t in Pending(tr, k) && k == LG(-buf[tr[t].pos]) && !IsLocal(k)
            else IsTarget(tr, k, t, j) && buf[tr[t].pos] == tr[j].pos
  {
    j := 0;
    k := ReferenceKey(c, tr, t);
    assert Stored(tr[t], buf);
    if t !in Pending(tr, k) {
      j := EveryReferenceResolves(c, tr, k, t);
      PosBelow(c, tr, j);
    }
  }

  /** A reference cell that is not negative is the position of a label of this code. */
  lemma FindTarget(c: Config, tr: Trace, buf: Buffer, t: nat) returns (b: nat)
    requires Resolved(c, tr, buf) && t < |tr| && IsReference(tr[t])
    ensures tr[t].pos in buf
    ensures buf[tr[t].pos] >= 0 ==>
              && b < |Flat(tr, c.nsec)| && IsLabelEvent(Flat(tr, c.nsec)[b])
              && Flat(tr, c.nsec)[b].pos == buf[tr[t].pos]
  {
    b := 0;
    var k, j := CellOfReference(c, tr, buf, t);
    if buf[tr[t].pos] >= 0 {
      AcceptedBefore(c, tr, j);
      b := FlatIndex(tr, c.nsec, j);
    }
  }

  lemma RecordedActions(c: Config, tr: Trace, i: nat)
    requires TraceOk(c, tr) && i < |Flat(tr, c.nsec)| && Flat(tr, c.nsec)[i].what.Act?
    ensures var w := Flat(tr, c.nsec)[i].what; w.p < |c.al| && w.a == c.al[w.p]
  {
    var t := TraceIndex(tr, c.nsec, i);
    AcceptedBefore(c, tr, t);
  }

  /** Event `i` is the action at `p`, in section `s` at cell `pos`. */
  predicate ActionAt(c: Config, tr: Trace, s: nat, p: nat, pos: int, i: nat) {
    var all := Flat(tr, c.nsec);
    && s < c.nsec && Located(tr, s, i, pos) && i < |Flat(tr, s + 1)|
    && i < |all| && all[i].pos == pos && all[i].sec == s
    && p < |c.al| && all[i].what.Act? && all[i].what.p == p && all[i].what.a == c.al[p]
  }

  /** Event `i`, at cell `pos`, begins a call of section `s`, or the section ends there. */
  predicate CallAt(c: Config, tr: Trace, s: nat, pos: int, i: nat) {
    && s < c.nsec && Located(tr, s, i, pos)
    && (i < |Flat(tr, s + 1)| ==> i < |Flat(tr, c.nsec)| && Flat(tr, c.nsec)[i].what.Enter?)
  }

  lemma WalkFirst(c: Config, tr: Trace, s: nat)
    requires TraceOk(c, tr) && EndsClosed(tr) && s < c.nsec
    ensures CallAt(c, tr, s, s * SECTION_SIZE, |Flat(tr, s)|)
    ensures s * SECTION_SIZE == SecPos(tr, s) <==> |Flat(tr, s)| == |Flat(tr, s + 1)|
  {
    LocatedFirst(c, tr, s);
    if |Flat(tr, s)| < |Flat(tr, s + 1)| { LocatedNext(c, tr, c.nsec, s, |Flat(tr, s)|, s * SECTION_SIZE); }
    LocatedLast(c, tr, c.nsec, s, |Flat(tr, s)|, s * SECTION_SIZE);
  }

  /** Stepping over a call marker, whose cell names the first action of the call. */
  lemma WalkEnter(c: Config, tr: Trace, s: nat, pos: int, i: nat)
    requires TraceOk(c, tr) && EndsClosed(tr) && CallAt(c, tr, s, pos, i) && i < |Flat(tr, s + 1)|
    ensures var all := Flat(tr, c.nsec);
      && all[i].what.Enter? && all[i].pos == pos && all[i].sec == s
      && ActionAt(c, tr, s, all[i].what.start, pos + 1, i + 1)
  {
    LocatedNext(c, tr, c.nsec, s, i, pos);
    WhatFollows(c, tr, c.nsec, s, i);
    LocatedNext(c, tr, c.nsec, s, i + 1, pos + 1);
    RecordedActions(c, tr, i + 1);
  }

  /** Stepping over an action leads to the next action of the call, or to the next call. */
  lemma WalkAction(c: Config, tr: Trace, s: nat, p: nat, pos: int, i: nat)
    requires TraceOk(c, tr) && EndsClosed(tr) && ActionAt(c, tr, s, p, pos, i)
    ensures var pos' := pos + Slots(c.al[p]);
      if IsEnd(c.al[p]) then
        CallAt(c, tr, s, pos', i + 1) && (pos' == SecPos(tr, s) <==> i + 1 == |Flat(tr, s + 1)|)
      else
        ActionAt(c, tr, s, p + 1, pos', i + 1)
  {
    var pos' := pos + Slots(c.al[p]);
    LocatedNext(c, tr, c.nsec, s, i, pos);
    WhatFollows(c, tr, c.nsec, s, i);
    if i + 1 < |Flat(tr, s + 1)| {
      LocatedNext(c, tr, c.nsec, s, i + 1, pos');
      if !IsEnd(c.al[p]) { RecordedActions(c, tr, i + 1); }
    }
    if IsEnd(c.al[p]) { LocatedLast(c, tr, c.nsec, s, i + 1, pos'); }
  }

  /** The opcode byte pass 2 looks at in the action list is the one recorded before the branch. */
  lemma OpcodeInActions(c: Config, tr: Trace, i: nat)
    requires TraceOk(c, tr) && EndsClosed(tr) && i < |Flat(tr, c.nsec)| && IsRelEvent(Flat(tr, c.nsec)[i])
    ensures var p := Flat(tr, c.nsec)[i].what.p;
      1 <= p <= |c.al| && Opcode(Flat(tr, c.nsec), i) == OpByte(c.al[p-1])
  {
    var all := Flat(tr, c.nsec);
    FlatOrdered(c, tr, c.nsec);
    assert OpcodesAt(all, i) && Follows(all[i-1], all[i-1+1]);
    var t := TraceIndex(tr, c.nsec, i - 1);
    AcceptedBefore(c, tr, t);
  }

  /** The quantity pass 2 computes from buffer cells and section sizes is the distance to the label. */
  lemma DistanceFormula(c: Config, tr: Trace, dl: seq<int>, buf: Buffer, buf1: Buffer, i: nat, b: nat)
    requires var all := Flat(tr, c.nsec);
      && Resolved(c, tr, buf) && LinkedUpTo(all, dl, buf, buf1, i) && i < |all|
      && IsRelEvent(all[i]) && b < |all| && IsLabelEvent(all[b])
      && (forall q :: q in buf && q >= all[i].pos ==> q in buf1 && buf1[q] == buf[q])
    ensures var all := Flat(tr, c.nsec);
      && all[b].pos in buf1 && all[i].pos + 1 in buf1 && b != i
      && (all[b].pos > all[i].pos <==> b > i)
      && all[b].pos / SECTION_SIZE == all[b].sec < c.nsec
      && (b > i ==> all[b].sec >= all[i].sec)
      && buf1[all[i].pos + 1] == all[i].ofs
      && (b > i ==>
            buf1[all[b].pos] + Base(tr, all[b].sec) - Base(tr, all[i].sec) - all[i].ofs == Distance(all, dl, i, b))
      && (b < i ==> buf1[all[b].pos] - (Base(tr, all[i].sec) + dl[i]) - all[i].ofs == Distance(all, dl, i, b))
  {
    var all := Flat(tr, c.nsec);
    FlatPositions(c, tr, c.nsec);
    FlatEstimates(c, tr, c.nsec);
    var t := TraceIndex(tr, c.nsec, b);
    PosBelow(c, tr, t);
    var u := TraceIndex(tr, c.nsec, i);
    PosBelow(c, tr, u);
    assert Stored(tr[t], buf) && Stored(tr[u], buf);
    if b < i {
      assert LinkStep(all, dl, buf, buf1, b);
      assert all[b].pos + EventSlots(all[b]) <= all[i].pos;
    } else {
      assert all[i].pos + EventSlots(all[i]) <= all[b].pos;
    }
    assert Est(all, b + 1) == Est(all, b);
  }

  /** Labels at the same position are the same label. */
  lemma SameLabel(all: Trace, b: nat, b': nat)
    requires PosOrdered(all) && b < |all| && b' < |all| && IsLabelEvent(all[b]) && IsLabelEvent(all[b'])
    requires all[b].pos == all[b'].pos
    ensures b == b'
  {
  }

  lemma ShrinkIsRight(all: Trace, dl: seq<int>, i: nat, cell: int, b: nat)
    requires PosOrdered(all) && (forall j :: 0 <= j < |all| ==> 0 <= all[j].pos)
    requires i < |all| && i < |dl|
    ensures cell < 0 ==> ShrinkRight(all, dl, i, cell, 0)
    ensures cell >= 0 && b < |all| && IsLabelEvent(all[b]) && all[b].pos == cell ==>
              ShrinkRight(all, dl, i, cell, ShrinkBy(Opcode(all, i), Distance(all, dl, i, b)))
  {
    forall b': nat | b < |all| && b' < |all| && IsLabelEvent(all[b]) && IsLabelEvent(all[b'])
        && all[b].pos == all[b'].pos
      ensures b == b'
    {
      SameLabel(all, b, b');
    }
  }

  /** The buffers after pass 2 has treated event `e` at running offset `ofs`. */
  function CellsAfterLink(buf: Buffer, e: Event, ofs: int, shrink: int): Buffer {
    if IsRelEvent(e) then buf[e.pos + 1 := shrink]
    else if IsLabelEvent(e) then buf[e.pos := At(buf, e.pos) + ofs]
    else buf
  }

  /** How many bytes less than estimated event `e` takes. */
  function Saved(buf: Buffer, e: Event, ofs: int, shrink: int): int {
    if IsRelEvent(e) then shrink
    else if e.what.Act? && e.what.a.Align? then (At(buf, e.pos) + ofs) % (e.what.a.mask as int + 1)
    else 0
  }

  lemma LinkEvent(c: Config, tr: Trace, dl: seq<int>, buf0: Buffer, buf: Buffer, i: nat, ofs: int, shrink: int)
    requires var all := Flat(tr, c.nsec);
      && Resolved(c, tr, buf0) && LinkedUpTo(all, dl, buf0, buf, i) && i < |all|
      && (forall q :: q in buf0 && q >= all[i].pos ==> q in buf && buf[q] == buf0[q])
      && ofs == Base(tr, all[i].sec) + dl[i]
      && (IsRelEvent(all[i]) ==> all[i].pos in buf0 && ShrinkRight(all, dl, i, buf0[all[i].pos], shrink))
    ensures var all := Flat(tr, c.nsec);
      var buf' := CellsAfterLink(buf, all[i], ofs, shrink);
      && LinkedUpTo(all, dl + [dl[i] - Saved(buf, all[i], ofs, shrink)], buf0, buf', i + 1)
      && (forall q :: q in buf0 && q >= all[i].pos + EventSlots(all[i]) ==> q in buf' && buf'[q] == buf0[q])
  {
    LinkStepHere(c, tr, dl, buf0, buf, i, ofs, shrink);
    FlatPositions(c, tr, c.nsec);
    var all := Flat(tr, c.nsec);
    LinkNext(all, dl, dl[i] - Saved(buf, all[i], ofs, shrink), buf0, buf, CellsAfterLink(buf, all[i], ofs, shrink), i);
  }

  lemma LinkStepHere(c: Config, tr: Trace, dl: seq<int>, buf0: Buffer, buf: Buffer, i: nat, ofs: int, shrink: int)
    requires var all := Flat(tr, c.nsec);
      && Resolved(c, tr, buf0) && LinkedUpTo(all, dl, buf0, buf, i) && i < |all|
      && (forall q :: q in buf0 && q >= all[i].pos ==> q in buf && buf[q] == buf0[q])
      && ofs == Base(tr, all[i].sec) + dl[i]
      && (IsRelEvent(all[i]) ==> all[i].pos in buf0 && ShrinkRight(all, dl, i, buf0[all[i].pos], shrink))
    ensures var all := Flat(tr, c.nsec);
      LinkStep(all, dl + [dl[i] - Saved(buf, all[i], ofs, shrink)], buf0, CellsAfterLink(buf, all[i], ofs, shrink), i)
  {
    var all := Flat(tr, c.nsec);
    var e := all[i];
    var d := dl[i] - Saved(buf, e, ofs, shrink);
    var t := TraceIndex(tr, c.nsec, i);
    assert Stored(tr[t], buf0);
    FlatEstimates(c, tr, c.nsec);
    assert (dl + [d])[i] == dl[i] && (dl + [d])[i+1] == d;
    if IsRelEvent(e) { ShrinkRightFrame(all, dl, d, i, buf0[e.pos], shrink); }
    if e.what.Act? && e.what.a.Align? { RoundDown(e.ofs + ofs, e.what.a.mask); }
  }

  lemma ShrinkRightFrame(all: Trace, dl: seq<int>, d: int, i: nat, cell: int, shrink: int)
    requires i < |all| && i < |dl| && ShrinkRight(all, dl, i, cell, shrink)
    ensures ShrinkRight(all, dl + [d], i, cell, shrink)
  {
    forall b: nat | b < |all| ensures Distance(all, dl + [d], i, b) == Distance(all, dl, i, b) {
    }
  }

  /** Pass 2 only shrinks: a stretch of code is no longer than estimated, and never negative. */
  lemma {:induction false} OnlyShrinks(all: Trace, dl: seq<int>, buf: Buffer, buf': Buffer, i: nat, j: nat)
    requires LinkedUpTo(all, dl, buf, buf', |all|) && Ordered(all)
    requires i <= j <= |all|
    ensures 0 <= Cursor(all, dl, j) - Cursor(all, dl, i) <= Est(all, j) - Est(all, i)
    decreases j
  {
    if i < j {
      OnlyShrinks(all, dl, buf, buf', i, j - 1);
      assert LinkStep(all, dl, buf, buf', j - 1) && SizeOk(all[j-1]);
    }
  }

  /** A branch that pass 2 shortened reaches its label with a signed byte. */
  lemma ShortBranchReaches(all: Trace, dl: seq<int>, buf: Buffer, buf': Buffer, i: nat, b: nat)
    requires LinkedUpTo(all, dl, buf, buf', |all|) && Ordered(all)
    requires i < |all| && IsRelEvent(all[i]) && dl[i+1] != dl[i]
    requires b < |all| && IsLabelEvent(all[b]) && all[i].pos in buf && all[b].pos == buf[all[i].pos]
    ensures FitsSignedByte(Cursor(all, dl, b) - Cursor(all, dl, i + 1))
  {
    assert LinkStep(all, dl, buf, buf', i);
    if b > i {
      OnlyShrinks(all, dl, buf, buf', i + 1, b);
    } else {
      OnlyShrinks(all, dl, buf, buf', b, i + 1);
    }
  }

  /** Dropping the remainder leaves a multiple. */
  lemma RoundDown(y: int, mask: byte)
    ensures Aligned(y - y % (mask as int + 1), mask)
  {
    var w := mask as int + 1;
    var q, r := y / w, y % w;
    assert y - r == q * w;
    ModOfMultiple(q, w, 0);
  }

  /** Less than a full width below an estimate, there is one multiple: the next one after the code so far. */
  lemma PaddingIs(x: int, mask: byte, y: int)
    requires x <= y <= x + mask && Aligned(y, mask)
    ensures y == x + Padding(x, mask)
  {
    var w := mask as int + 1;
    var q := y / w;
    assert y == q * w;
    assert -x == (-q) * w + (y - x);
    ModOfMultiple(-q, w, y - x);
  }

  lemma ModOfMultiple(q: int, w: int, r: int)
    requires 0 <= r < w
    ensures (q * w + r) % w == r
  {
    var z := q * w + r;
    var q', r' := z / w, z % w;
    assert z == q' * w + r';
    assert (q - q') * w == r' - r;
    assert q - q' >= 1 ==> (q - q') * w >= w;
    assert q - q' <= -1 ==> (q - q') * w <= -w;
  }

  // ---------- pass 3 ----------

  type Code = seq<byte>

  function Low(n: int): byte { n % 256 }

  function Plus(b: byte, d: int): byte { (b as int + d) % 256 }

  /** The low `k` bytes of `n`, least significant first. */
  function Bytes(n: int, k: nat): (r: Code)
    ensures |r| == k
    decreases k
  {
    if k == 0 then [] else [Low(n)] + Bytes(n / 256, k - 1)
  }

  function Word(n: int): Code { Bytes(n, 2) }

  function Dword(n: int): Code { Bytes(n, 4) }

  function Fill(n: nat, b: byte): Code { seq(n, _ => b) }

  /** Distance from `x` to the next multiple of `mask + 1`. */
  function Padding(x: int, mask: byte): (d: int)
    ensures 0 <= d <= mask
  {
    (-x) % (mask as int + 1)
  }

  /** Where pass 3 finds things: the linked buffers, the load address, addresses of foreign globals. */
  datatype Env = Env(buf: Buffer, base: int, globals: map<int, int>)

  /** The absolute address a reference cell denotes: a label of this code, or a foreign global. */
  function Address(env: Env, cell: int): int {
    if cell < 0 then At(env.globals, -cell) else env.base + At(env.buf, cell)
  }

  /** Bytes written so far, after one more event that lost `shrink` bytes. */
  function Emit(env: Env, o: Code, e: Event, shrink: int): Code {
    if !e.what.Act? then o
    else
      var n := At(env.buf, e.pos);
      EmitAction(o, e.what.a, n, Address(env, n), env.base, shrink)
  }

  /** The bytes of one action: `n` is its buffer cell, `address` what a reference cell denotes. */
  function EmitAction(o: Code, a: Action, n: int, address: int, base: int, shrink: int): Code {
    if IsByte(a) then o + [a.b]
    else if a.ImmS? || a.ImmB? then o + [Low(n)]
    else if a.ImmW? then o + Word(n)
    else if a.ImmD? then o + Dword(n)
    else if IsShortImm(a) then
      if FitsSignedByte(n) then
        if |o| < 2 then o else o[|o|-2 := Plus(o[|o|-2], 2)] + [Low(n)]
      else if a.ImmWB? then o + Word(n) else o + Dword(n)
    else if a.Space? then if n >= 0 then o + Fill(n, a.fill) else o
    else if IsRel(a) then EmitRel(o, address - (base + |o| + 4 - shrink), shrink)
    else if IsImmLabel(a) then o + Dword(address)
    else if a.Align? then o + Fill(Padding(|o|, a.mask), 0x90)
    else o
  }

  /** A branch: long, or short by patching the opcode bytes already written. */
  function EmitRel(o: Code, disp: int, shrink: int): Code {
    if shrink == 0 then o + Dword(disp)
    else if shrink == 4 then
      if |o| < 2 then o else o[..|o|-2] + [Plus(o[|o|-1], -0x10), Low(disp)]
    else
      if |o| < 1 then o else o[..|o|-1] + [0xeb, Low(disp)]
  }

  /** `os[i+1]` is the code after event `i`, given the code `os[i]` before it. */
  predicate EmitsAt(env: Env, all: Trace, dl: seq<int>, os: seq<Code>, i: nat)
    requires i < |all| && i + 1 < |dl| && i + 1 < |os|
  {
    os[i+1] == Emit(env, os[i], all[i], dl[i] - dl[i+1])
  }

  /** `os` lists the code written before each event, as far as pass 3 has come. */
  predicate Emitted(env: Env, all: Trace, dl: seq<int>, os: seq<Code>) {
    && 1 <= |os| <= |all| + 1 <= |dl| && os[0] == []
    && forall i {:trigger EmitsAt(env, all, dl, os, i)} :: 0 <= i < |os| - 1 ==> EmitsAt(env, all, dl, os, i)
  }

  lemma EmittedMore(env: Env, all: Trace, dl: seq<int>, os: seq<Code>, o: Code)
    requires Emitted(env, all, dl, os) && |os| <= |all| && |all| < |dl|
    requires o == Emit(env, os[|os|-1], all[|os|-1], dl[|os|-1] - dl[|os|])
    ensures Emitted(env, all, dl, os + [o])
  {
    forall i | 0 <= i < |os| ensures EmitsAt(env, all, dl, os + [o], i) {
      if i < |os| - 1 { assert EmitsAt(env, all, dl, os, i); }
    }
  }

  /** How many bytes already written an event patches. */
  function Reach(e: Event, shrink: int): nat {
    if !e.what.Act? then 0
    else if IsRel(e.what.a) then if shrink == 0 then 0 else if shrink == 4 then 2 else 1
    else if IsShortImm(e.what.a) then 2
    else 0
  }

  lemma EmitStep(env: Env, o: Code, e: Event, shrink: int)
    requires SizeOk(e) && Reach(e, shrink) <= |o|
    requires IsRelEvent(e) ==> shrink == 0 || shrink == 3 || shrink == 4
    requires e.what.Act? && IsImm(e.what.a) ==> e.pos in env.buf && env.buf[e.pos] == e.what.arg
    ensures o[..|o| - Reach(e, shrink)] <= Emit(env, o, e, shrink)
    ensures !(e.what.Act? && (IsRel(e.what.a) || e.what.a.Align?)) ==> |Emit(env, o, e, shrink)| == |o| + EventMax(e)
    ensures e.what.Act? && IsRel(e.what.a) ==> |Emit(env, o, e, shrink)| == |o| + 4 - shrink
    ensures e.what.Act? && e.what.a.Align? ==>
              |Emit(env, o, e, shrink)| == |o| + Padding(|o|, e.what.a.mask)
  {
  }

  /** The bytes event `i` patches were all written by opcode events. */
  lemma ReachesOpcodes(all: Trace, dl: seq<int>, buf: Buffer, buf': Buffer, i: nat)
    requires LinkedUpTo(all, dl, buf, buf', |all|) && Ordered(all) && i < |all|
    ensures var k := Reach(all[i], dl[i] - dl[i+1]);
      && dl[i] - dl[i+1] >= 0
      && k <= i && k <= 2
      && (k >= 1 ==> IsByteEvent(all[i-1])) && (k >= 2 ==> IsByteEvent(all[i-2]))
      && Cursor(all, dl, i - k) == Cursor(all, dl, i) - k
  {
    assert OpcodesAt(all, i) && LinkStep(all, dl, buf, buf', i) && SizeOk(all[i]);
    var k := Reach(all[i], dl[i] - dl[i+1]);
    if k >= 1 { assert LinkStep(all, dl, buf, buf', i - 1); }
    if k >= 2 { assert LinkStep(all, dl, buf, buf', i - 2) && Est(all, i - 1) == Est(all, i - 2) + 1; }
  }

  /** One event takes the code to the next event's final offset, keeping all but the patched opcode bytes. */
  lemma EmittedNext(env: Env, all: Trace, dl: seq<int>, os: seq<Code>, buf: Buffer, i: nat)
    requires LinkedUpTo(all, dl, buf, env.buf, |all|) && Ordered(all) && Emitted(env, all, dl, os) && i + 1 < |os|
    requires |os[i]| == Cursor(all, dl, i)
    ensures |os[i+1]| == Cursor(all, dl, i + 1)
    ensures var k := Reach(all[i], dl[i] - dl[i+1]);
      k <= Cursor(all, dl, i) && os[i][..Cursor(all, dl, i) - k] <= os[i+1]
  {
    ReachesOpcodes(all, dl, buf, env.buf, i);
    OnlyShrinks(all, dl, buf, env.buf, 0, i - Reach(all[i], dl[i] - dl[i+1]));
    EmitLength(env, all, dl, buf, i, os[i]);
    assert EmitsAt(env, all, dl, os, i);
  }

  lemma EmitLength(env: Env, all: Trace, dl: seq<int>, buf: Buffer, i: nat, o: Code)
    requires LinkedUpTo(all, dl, buf, env.buf, |all|) && Ordered(all) && i < |all|
    requires |o| == Cursor(all, dl, i) && Reach(all[i], dl[i] - dl[i+1]) <= |o|
    ensures var r := Emit(env, o, all[i], dl[i] - dl[i+1]);
      && |r| == Cursor(all, dl, i + 1)
      && o[..|o| - Reach(all[i], dl[i] - dl[i+1])] <= r
  {
    assert LinkStep(all, dl, buf, env.buf, i) && SizeOk(all[i]);
    if all[i].what.Act? && all[i].what.a.Align? {
      PaddingIs(Cursor(all, dl, i), all[i].what.a.mask, Cursor(all, dl, i + 1));
    }
    if IsRelEvent(all[i]) { assert OpcodesAt(all, i); }
    EmitStep(env, o, all[i], dl[i] - dl[i+1]);
  }

  /** Link and encode agree: the bytes written up to each event end at its final offset. */
  lemma {:induction false} EmittedLength(env: Env, all: Trace, dl: seq<int>, os: seq<Code>, buf: Buffer, n: nat)
    requires LinkedUpTo(all, dl, buf, env.buf, |all|) && Ordered(all) && Emitted(env, all, dl, os) && n < |os|
    ensures |os[n]| == Cursor(all, dl, n)
  {
    if n > 0 {
      EmittedLength(env, all, dl, os, buf, n - 1);
      EmittedNext(env, all, dl, os, buf, n - 1);
    }
  }

  /** Later patches never reach back over an event that is not an opcode byte. */
  lemma {:induction false} EmittedStable(env: Env, all: Trace, dl: seq<int>, os: seq<Code>, buf: Buffer, m: nat, n: nat)
    requires LinkedUpTo(all, dl, buf, env.buf, |all|) && Ordered(all) && Emitted(env, all, dl, os)
    requires 1 <= m <= n < |os| && !IsByteEvent(all[m-1])
    ensures os[m] <= os[n]
    decreases n
  {
    if m < n {
      var i := n - 1;
      EmittedStable(env, all, dl, os, buf, m, i);
      EmittedLength(env, all, dl, os, buf, i);
      EmittedNext(env, all, dl, os, buf, i);
      EmittedLength(env, all, dl, os, buf, m);
      ReachesOpcodes(all, dl, buf, env.buf, i);
      var k := Reach(all[i], dl[i] - dl[n]);
      OnlyShrinks(all, dl, buf, env.buf, m, i - k);
      PrefixTrans(os[m], os[i], Cursor(all, dl, i) - k, os[n]);
    }
  }

  lemma PrefixTrans(a: Code, b: Code, n: nat, c: Code)
    requires a <= b && |a| <= n <= |b| && b[..n] <= c
    ensures a <= c
  {
    assert a == b[..n][..|a|];
  }

  // ---------- what the code means ----------

  function SignedByte(b: byte): int { if b < 128 then b else b - 256 }

  function SignedDword(b0: byte, b1: byte, b2: byte, b3: byte): int {
    var u := b0 as int + 256 * b1 + 65536 * b2 + 16777216 * b3;
    if u < 0x8000_0000 then u else u - 0x1_0000_0000
  }

  predicate FitsDword(n: int) { -0x8000_0000 <= n < 0x8000_0000 }

  lemma ByteRoundTrip(n: int)
    requires FitsSignedByte(n)
    ensures SignedByte(Low(n)) == n
  {
  }

  lemma DwordRoundTrip(n: int)
    requires FitsDword(n)
    ensures var d := Dword(n); SignedDword(d[0], d[1], d[2], d[3]) == n
  {
    var n1 := n / 256;
    var n2 := n1 / 256;
    var n3 := n2 / 256;
    assert Bytes(n3, 1) == [Low(n3)];
    assert Bytes(n2, 2) == [Low(n2), Low(n3)];
    assert Bytes(n1, 3) == [Low(n1), Low(n2), Low(n3)];
    assert n == 256 * n1 + Low(n) && n1 == 256 * n2 + Low(n1) && n2 == 256 * n3 + Low(n2);
    assert -128 <= n3 < 128;
  }

  /** Branches as the processor reads them; targets are offsets into the code. */
  datatype Insn = Jump(target: int) | CondJump(cc: int, target: int) | Other

  function Decode(code: Code, s: int): Insn {
    if 0 <= s && s + 2 <= |code| && code[s] == 0xeb then
      Jump(s + 2 + SignedByte(code[s+1]))
    else if 0 <= s && s + 2 <= |code| && 0x70 <= code[s] < 0x80 then
      CondJump(code[s] - 0x70, s + 2 + SignedByte(code[s+1]))
    else if 0 <= s && s + 5 <= |code| && code[s] == 0xe9 then
      Jump(s + 5 + SignedDword(code[s+1], code[s+2], code[s+3], code[s+4]))
    else if 0 <= s && s + 6 <= |code| && code[s] == 0x0f && 0x80 <= code[s+1] < 0x90 then
      CondJump(code[s+1] - 0x80, s + 6 + SignedDword(code[s+2], code[s+3], code[s+4], code[s+5]))
    else Other
  }

  /** A 32-bit field that ends at `s`, relative to that end. */
  function RelativeTo(code: Code, s: int): int {
    if 4 <= s <= |code| then s + SignedDword(code[s-4], code[s-3], code[s-2], code[s-1]) else -1
  }

  /** The code ending in a branch with opcode `op` at `end` transfers control to `t`. */
  predicate Lands(code: Code, op: int, end: int, short: bool, t: int) {
    if op == 0xe9 then Decode(code, if short then end - 2 else end - 5) == Jump(t)
    else if 0x80 <= op < 0x90 then Decode(code, if short then end - 2 else end - 6) == CondJump(op - 0x80, t)
    else !short && RelativeTo(code, end) == t
  }

  lemma EmitRelLands(o: Code, op: byte, shrink: int, disp: int)
    requires |o| >= 1 && o[|o|-1] == op
    requires shrink == 0 || shrink == ShrinkOf(op)
    requires 0x80 <= op < 0x90 ==> |o| >= 2 && o[|o|-2] == 0x0f
    requires if shrink == 0 then FitsDword(disp) else FitsSignedByte(disp)
    ensures var r := EmitRel(o, disp, shrink);
      |r| == |o| + 4 - shrink && Lands(r, op, |r|, shrink != 0, |r| + disp)
  {
    if shrink == 0 {
      DwordRoundTrip(disp);
    } else {
      ByteRoundTrip(disp);
    }
  }

  /** Code that follows a branch does not change where it lands. */
  lemma LandsInLonger(code: Code, more: Code, op: int, end: int, short: bool, t: int)
    requires code <= more && end == |code| && Lands(code, op, end, short, t)
    ensures Lands(more, op, end, short, t)
  {
  }

  /** The value a branch field must hold, relative to the end of the branch. */
  function Displacement(env: Env, all: Trace, dl: seq<int>, i: nat): int
    requires i < |all| && i + 1 < |dl|
  {
    Address(env, At(env.buf, all[i].pos)) - (env.base + Cursor(all, dl, i + 1))
  }

  /** In the final code every branch lands on the address its reference cell denotes. */
  lemma BranchLands(env: Env, all: Trace, dl: seq<int>, os: seq<Code>, buf: Buffer, i: nat)
    requires LinkedUpTo(all, dl, buf, env.buf, |all|) && Ordered(all)
    requires Emitted(env, all, dl, os) && |os| == |all| + 1
    requires i < |all| && IsRelEvent(all[i])
    requires if dl[i] == dl[i+1] then FitsDword(Displacement(env, all, dl, i))
             else FitsSignedByte(Displacement(env, all, dl, i))
    ensures Lands(os[|all|], Opcode(all, i), Cursor(all, dl, i + 1), dl[i] != dl[i+1],
                  Address(env, At(env.buf, all[i].pos)) - env.base)
  {
    var code, here, end := os[|all|], os[i + 1], Cursor(all, dl, i + 1);
    BranchLandsWhenWritten(env, all, dl, os, buf, i);
    assert here <= code by { EmittedStable(env, all, dl, os, buf, i + 1, |all|); }
    assert |here| == end by { EmittedLength(env, all, dl, os, buf, i + 1); }
    LandsInLonger(here, code, Opcode(all, i), end, dl[i] != dl[i+1],
                  Address(env, At(env.buf, all[i].pos)) - env.base);
  }

  lemma BranchLandsWhenWritten(env: Env, all: Trace, dl: seq<int>, os: seq<Code>, buf: Buffer, i: nat)
    requires LinkedUpTo(all, dl, buf, env.buf, |all|) && Ordered(all)
    requires Emitted(env, all, dl, os) && |os| == |all| + 1
    requires i < |all| && IsRelEvent(all[i])
    requires if dl[i] == dl[i+1] then FitsDword(Displacement(env, all, dl, i))
             else FitsSignedByte(Displacement(env, all, dl, i))
    ensures Lands(os[i + 1], Opcode(all, i), Cursor(all, dl, i + 1), dl[i] != dl[i+1],
                  Address(env, At(env.buf, all[i].pos)) - env.base)
  {
    var o, shrink, disp := os[i], dl[i] - dl[i+1], Displacement(env, all, dl, i);
    assert LinkStep(all, dl, buf, env.buf, i);
    EmittedLength(env, all, dl, os, buf, i);
    OpcodesEmitted(env, all, dl, os, buf, i);
    EmitRelLands(o, Opcode(all, i), shrink, disp);
    assert |o| + 4 - shrink == Cursor(all, dl, i + 1);
    assert EmitsAt(env, all, dl, os, i);
  }

  /** When pass 3 reaches a branch, its opcode bytes are the last ones written. */
  lemma OpcodesEmitted(env: Env, all: Trace, dl: seq<int>, os: seq<Code>, buf: Buffer, i: nat)
    requires LinkedUpTo(all, dl, buf, env.buf, |all|) && Ordered(all)
    requires Emitted(env, all, dl, os) && |os| == |all| + 1
    requires i < |all| && IsRelEvent(all[i])
    ensures var o, op := os[i], Opcode(all, i);
      && |o| >= 1 && o[|o|-1] == op
      && (0x80 <= op < 0x90 ==> |o| >= 2 && o[|o|-2] == 0x0f)
  {
    assert OpcodesAt(all, i) && EmitsAt(env, all, dl, os, i - 1);
    if 0x80 <= Opcode(all, i) < 0x90 {
      assert EmitsAt(env, all, dl, os, i - 2);
    }
  }

  /** The branch that event `i` ends transfers control to where event `b` ends up, and is short if it can be. */
  predicate BranchGoes(all: Trace, dl: seq<int>, code: Code, i: nat, b: nat) {
    && i < |all| && b < |all| && |dl| == |all| + 1
    && Lands(code, Opcode(all, i), Cursor(all, dl, i + 1), dl[i] != dl[i+1], Cursor(all, dl, b))
    && dl[i] - dl[i+1] == ShrinkBy(Opcode(all, i), Distance(all, dl, i, b))
  }

  /** The displacement of a branch to a label of this code is the distance to that label. */
  lemma BranchToLabelLands(env: Env, all: Trace, dl: seq<int>, os: seq<Code>, buf: Buffer, i: nat, b: nat)
    requires LinkedUpTo(all, dl, buf, env.buf, |all|) && Ordered(all) && Est(all, |all|) < 0x8000_0000
    requires Emitted(env, all, dl, os) && |os| == |all| + 1
    requires i < |all| && IsRelEvent(all[i])
    requires b < |all| && IsLabelEvent(all[b]) && all[i].pos in buf && all[b].pos == buf[all[i].pos] >= 0
    ensures BranchGoes(all, dl, os[|all|], i, b)
  {
    assert LinkStep(all, dl, buf, env.buf, i) && LinkStep(all, dl, buf, env.buf, b);
    assert Address(env, At(env.buf, all[i].pos)) - env.base == Cursor(all, dl, b);
    OnlyShrinks(all, dl, buf, env.buf, 0, b);
    OnlyShrinks(all, dl, buf, env.buf, b, |all|);
    OnlyShrinks(all, dl, buf, env.buf, 0, i + 1);
    OnlyShrinks(all, dl, buf, env.buf, i + 1, |all|);
    if dl[i] != dl[i+1] {
      ShortBranchReaches(all, dl, buf, env.buf, i, b);
    }
    BranchLands(env, all, dl, os, buf, i);
  }

  // ---------- support for the pass 3 loops ----------

  /** Between `x` and the next multiple of `w` there is no other multiple. */
  lemma NextMultiple(x: int, w: int, y: int)
    requires w > 0 && x <= y <= x + (-x) % w
    ensures y % w == 0 <==> y == x + (-x) % w
  {
    var q, r := (-x) / w, (-x) % w;
    assert -x == q * w + r;
    var d := x + r - y;
    assert y == (-q) * w - d;
    if d == 0 {
      ModOfMultiple(-q, w, 0);
    } else {
      assert y == (-q - 1) * w + (w - d);
      ModOfMultiple(-q - 1, w, w - d);
    }
  }

  /** A foreign reference is to a label that this code never defines. */
  lemma ForeignIsUndefined(c: Config, tr: Trace, buf: Buffer, t: nat)
    requires Resolved(c, tr, buf) && t < |tr| && IsReference(tr[t]) && tr[t].pos in buf && buf[tr[t].pos] < 0
    ensures NoDef(tr, LG(-buf[tr[t].pos]), 0, |tr|) && -buf[tr[t].pos] >= 10
    ensures t in Pending(tr, LG(-buf[tr[t].pos]))
  {
    var k, j := CellOfReference(c, tr, buf, t);
    PendingMeans(c, tr, k, t);
  }

  /** The cells pass 3 reads for action `i`. */
  lemma EncodeCells(c: Config, tr: Trace, dl: seq<int>, buf0: Buffer, buf: Buffer, i: nat)
    requires var all := Flat(tr, c.nsec);
      Resolved(c, tr, buf0) && LinkedUpTo(all, dl, buf0, buf, |all|) && i < |all| && all[i].what.Act?
    ensures var all := Flat(tr, c.nsec);
      var a, pos, shrink := all[i].what.a, all[i].pos, dl[i] - dl[i+1];
      && (IsImm(a) || IsRel(a) || IsImmLabel(a) || IsLabel(a) ==> pos in buf)
      && (IsRel(a) ==> pos + 1 in buf && buf[pos + 1] == shrink && (shrink == 0 || shrink == 3 || shrink == 4))
      && (IsRel(a) || IsImmLabel(a) ==> pos in buf0 && buf[pos] == buf0[pos])
      && (IsLabel(a) ==> buf[pos] == Cursor(all, dl, i))
      && (a.Space? ==> buf[pos] >= 0)
  {
    var all := Flat(tr, c.nsec);
    FlatOrdered(c, tr, c.nsec);
    assert LinkStep(all, dl, buf0, buf, i) && SizeOk(all[i]);
  }

  /** The room pass 3 has for event `i`. */
  lemma EncodeRoom(c: Config, tr: Trace, dl: seq<int>, os: seq<Code>, buf0: Buffer, env: Env)
    requires var all := Flat(tr, c.nsec);
      && Resolved(c, tr, buf0) && LinkedUpTo(all, dl, buf0, env.buf, |all|)
      && Emitted(env, all, dl, os) && |os| <= |all|
    ensures var all, i := Flat(tr, c.nsec), |os| - 1;
      && Reach(all[i], dl[i] - dl[i+1]) <= |os[i]| == Cursor(all, dl, i)
      && |Emit(env, os[i], all[i], dl[i] - dl[i+1])| <= Cursor(all, dl, |all|)
  {
    var all, i := Flat(tr, c.nsec), |os| - 1;
    FlatOrdered(c, tr, c.nsec);
    EmittedLength(env, all, dl, os, buf0, i);
    ReachesOpcodes(all, dl, buf0, env.buf, i);
    OnlyShrinks(all, dl, buf0, env.buf, 0, i - Reach(all[i], dl[i] - dl[i+1]));
    EmitLength(env, all, dl, buf0, i, os[i]);
    OnlyShrinks(all, dl, buf0, env.buf, i + 1, |all|);
  }

  /** Arguments an action does not use do not matter. */
  lemma EmitActionUses(o: Code, a: Action, n: int, n': int, adr: int, adr': int, base: int, shrink: int, shrink': int)
    requires IsImm(a) || IsRel(a) || IsImmLabel(a) ==> n == n'
    requires IsRel(a) || IsImmLabel(a) ==> adr == adr'
    requires IsRel(a) ==> shrink == shrink'
    ensures EmitAction(o, a, n, adr, base, shrink) == EmitAction(o, a, n', adr', base, shrink')
  {
  }

  /** Addresses of foreign globals are as given, those of defined ones point at their latest definition. */
  ghost predicate GlobalsSoFar(c: Config, tr: Trace, dl: seq<int>, env: Env, gl: map<int, int>, i: nat) {
    var all := Flat(tr, c.nsec);
    && i <= |all| < |dl|
    && (forall g: int :: g < 10 || NoDef(tr, LG(g), 0, |tr|) ==> At(gl, g) == At(env.globals, g))
    && (forall g: int, b: nat :: g >= 10 && b < i && Defines(all[b], LG(g)) && NoDef(all, LG(g), b + 1, i) ==>
          At(gl, g) == env.base + Cursor(all, dl, b))
  }

  /** The globals array after an action whose label, if it is one, is at address `v`. */
  function NextGlobals(gl: map<int, int>, a: Action, v: int): map<int, int> {
    if a.LabelLG? && a.n >= 10 then gl[a.n as int := v] else gl
  }

  lemma GlobalsNext(c: Config, tr: Trace, dl: seq<int>, env: Env, gl: map<int, int>, i: nat, v: int)
    requires GlobalsSoFar(c, tr, dl, env, gl, i) && i < |Flat(tr, c.nsec)|
    requires IsLabelEvent(Flat(tr, c.nsec)[i]) ==> v == env.base + Cursor(Flat(tr, c.nsec), dl, i)
    ensures var w := Flat(tr, c.nsec)[i].what;
      GlobalsSoFar(c, tr, dl, env, if w.Act? then NextGlobals(gl, w.a, v) else gl, i + 1)
  {
    var t := TraceIndex(tr, c.nsec, i);
  }

  /** Reading the globals array during pass 3 gives a foreign reference the address the client supplied. */
  lemma ForeignAddress(c: Config, tr: Trace, dl: seq<int>, buf0: Buffer, env: Env, gl: map<int, int>, i: nat)
    requires Resolved(c, tr, buf0) && GlobalsSoFar(c, tr, dl, env, gl, i)
    requires i < |Flat(tr, c.nsec)| && IsReference(Flat(tr, c.nsec)[i])
    requires var pos := Flat(tr, c.nsec)[i].pos; pos in buf0 && pos in env.buf && env.buf[pos] == buf0[pos]
    ensures var n := env.buf[Flat(tr, c.nsec)[i].pos]; n < 0 ==> At(gl, -n) == At(env.globals, -n)
  {
    var t := TraceIndex(tr, c.nsec, i);
    if buf0[tr[t].pos] < 0 {
      ForeignIsUndefined(c, tr, buf0, t);
    }
  }

  /** With the values pass 3 reads, one action's bytes are those the event emits. */
  lemma EncodeBytesOk(all: Trace, env: Env, gl: map<int, int>, o: Code, i: nat, n: int, shrink: int, address: int,
      lost: int)
    requires i < |all| && all[i].what.Act?
    requires var a, pos := all[i].what.a, all[i].pos;
      && (IsImm(a) || IsRel(a) || IsImmLabel(a) ==> n == At(env.buf, pos)) && (IsRel(a) ==> shrink == lost)
      && address == (if n < 0 then At(gl, -n) else env.base + At(env.buf, n))
      && ((IsRel(a) || IsImmLabel(a)) && n < 0 ==> At(gl, -n) == At(env.globals, -n))
    ensures EmitAction(o, all[i].what.a, n, address, env.base, shrink) == Emit(env, o, all[i], lost)
  {
    var a, m := all[i].what.a, At(env.buf, all[i].pos);
    EmitActionUses(o, a, n, m, address, Address(env, m), env.base, shrink, lost);
  }

  lemma ReferenceCell(c: Config, tr: Trace, dl: seq<int>, buf0: Buffer, env: Env, gl: map<int, int>, i: nat)
    requires var all := Flat(tr, c.nsec);
      && Resolved(c, tr, buf0) && LinkedUpTo(all, dl, buf0, env.buf, |all|) && i < |all| && all[i].what.Act?
      && GlobalsSoFar(c, tr, dl, env, gl, i)
    ensures var a, n := Flat(tr, c.nsec)[i].what.a, At(env.buf, Flat(tr, c.nsec)[i].pos);
      (IsRel(a) || IsImmLabel(a)) && n < 0 ==> At(gl, -n) == At(env.globals, -n)
  {
    var a := Flat(tr, c.nsec)[i].what.a;
    EncodeCells(c, tr, dl, buf0, env.buf, i);
    if IsRel(a) || IsImmLabel(a) { ForeignAddress(c, tr, dl, buf0, env, gl, i); }
  }

  /** The values pass 3 reads for its next action are those of the event. */
  lemma EncodeSame(c: Config, tr: Trace, dl: seq<int>, os: seq<Code>, buf0: Buffer, env: Env, gl: map<int, int>,
                 n: int, shrink: int, address: int)
    requires var all, i := Flat(tr, c.nsec), |os| - 1;
      && Resolved(c, tr, buf0) && LinkedUpTo(all, dl, buf0, env.buf, |all|)
      && Emitted(env, all, dl, os) && |os| <= |all| && all[i].what.Act?
      && GlobalsSoFar(c, tr, dl, env, gl, i)
      && (var a, pos := all[i].what.a, all[i].pos;
          && n == (if IsImm(a) || IsRel(a) || IsImmLabel(a) || IsLabel(a) then At(env.buf, pos) else 0)
          && shrink == (if IsRel(a) then At(env.buf, pos + 1) else 0)
          && address == (if n < 0 then At(gl, -n) else env.base + At(env.buf, n)))
    ensures var all, i := Flat(tr, c.nsec), |os| - 1; var a, o := all[i].what.a, os[i];
      && EmitAction(o, a, n, address, env.base, shrink) == Emit(env, o, all[i], dl[i] - dl[i+1])
      && (a.Space? ==> n >= 0)
      && (IsLabel(a) ==> n == Cursor(all, dl, i))
  {
    var all, i := Flat(tr, c.nsec), |os| - 1;
    EncodeCells(c, tr, dl, buf0, env.buf, i);
    ReferenceCell(c, tr, dl, buf0, env, gl, i);
    EncodeBytesOk(all, env, gl, os[i], i, n, shrink, address, dl[i] - dl[i+1]);
  }

  /** The bytes fit the code size, and what they patch has been written. */
  lemma EncodeFits(c: Config, tr: Trace, dl: seq<int>, os: seq<Code>, buf0: Buffer, env: Env, shrink: int)
    requires var all, i := Flat(tr, c.nsec), |os| - 1;
      && Resolved(c, tr, buf0) && LinkedUpTo(all, dl, buf0, env.buf, |all|)
      && Emitted(env, all, dl, os) && |os| <= |all| && all[i].what.Act?
      && shrink == (if IsRel(all[i].what.a) then At(env.buf, all[i].pos + 1) else 0)
    ensures var all, i := Flat(tr, c.nsec), |os| - 1;
      && |Emit(env, os[i], all[i], dl[i] - dl[i+1])| <= Cursor(all, dl, |all|)
      && (IsRel(all[i].what.a) ==> (shrink == 0 || shrink == 3 || shrink == 4))
      && Reach(all[i], shrink) <= |os[i]|
  {
    EncodeCells(c, tr, dl, buf0, env.buf, |os| - 1);
    EncodeRoom(c, tr, dl, os, buf0, env);
  }

  /** With the values pass 3 reads, one action's bytes extend the code as specified. */
  lemma EncodeOk(c: Config, tr: Trace, dl: seq<int>, os: seq<Code>, buf0: Buffer, env: Env, gl: map<int, int>,
                 n: int, shrink: int, address: int)
    requires var all, i := Flat(tr, c.nsec), |os| - 1;
      && Resolved(c, tr, buf0) && LinkedUpTo(all, dl, buf0, env.buf, |all|)
      && Emitted(env, all, dl, os) && |os| <= |all| && all[i].what.Act?
      && GlobalsSoFar(c, tr, dl, env, gl, i)
      && (var a, pos := all[i].what.a, all[i].pos;
          && n == (if IsImm(a) || IsRel(a) || IsImmLabel(a) || IsLabel(a) then At(env.buf, pos) else 0)
          && shrink == (if IsRel(a) then At(env.buf, pos + 1) else 0)
          && address == (if n < 0 then At(gl, -n) else env.base + At(env.buf, n)))
    ensures var all, i := Flat(tr, c.nsec), |os| - 1; var a, o := all[i].what.a, os[i];
      && EmitAction(o, a, n, address, env.base, shrink) == Emit(env, o, all[i], dl[i] - dl[i+1])
      && |EmitAction(o, a, n, address, env.base, shrink)| <= Cursor(all, dl, |all|)
      && (IsRel(a) ==> (shrink == 0 || shrink == 3 || shrink == 4))
      && Reach(all[i], shrink) <= |o|
      && (a.Space? ==> n >= 0)
      && (IsLabel(a) ==> n == Cursor(all, dl, i))
  {
    EncodeSame(c, tr, dl, os, buf0, env, gl, n, shrink, address);
    EncodeFits(c, tr, dl, os, buf0, env, shrink);
  }

  /** Pass 3 has come to event `|os| - 1`: the code so far, and the globals array. */
  ghost predicate Encoded(c: Config, tr: Trace, dl: seq<int>, env: Env, gl: map<int, int>, os: seq<Code>) {
    Emitted(env, Flat(tr, c.nsec), dl, os) && GlobalsSoFar(c, tr, dl, env, gl, |os| - 1)
  }

  /** One action later. */
  lemma EncodedNext(c: Config, tr: Trace, dl: seq<int>, env: Env, gl: map<int, int>, os: seq<Code>, a: Action, n: int,
                    gl': map<int, int>, os': seq<Code>)
    requires var all, i := Flat(tr, c.nsec), |os| - 1;
      && Encoded(c, tr, dl, env, gl, os) && i < |all| < |dl| && all[i].what.Act? && all[i].what.a == a
      && (IsLabel(a) ==> n == Cursor(all, dl, i))
      && os' == os + [Emit(env, os[i], all[i], dl[i] - dl[i+1])]
    requires gl' == NextGlobals(gl, a, env.base + n)
    ensures Encoded(c, tr, dl, env, gl', os')
  {
    var all, i := Flat(tr, c.nsec), |os| - 1;
    EmittedMore(env, all, dl, os, Emit(env, os[i], all[i], dl[i] - dl[i+1]));
    GlobalsNext(c, tr, dl, env, gl, i, env.base + n);
  }
}
