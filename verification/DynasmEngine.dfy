/**
 The x86 encoding engine of DynASM, part 6: the engine, an object that the three passes update in place.
 */
module DynasmEngine {
  import opened DynasmTrace
  import opened DynasmPass1
  import opened DynasmLayout
  import opened DynasmLink
  import opened DynasmMeaning
  import opened DynasmStatus

  /** With the chain collapsed, the estimate stored and the cell set, the label is defined. */
  lemma LabelDefined(c: Config, tr: Trace, lg: seq<int>, pc: seq<int>, buf0: Buffer, e: Event, buf1: Buffer, k: Key)
    requires Pass1Inv(c, tr, lg, pc, buf0) && Extends(c, tr, e) && Defines(e, k) && ValidKey(c, k)
    requires Collapsed(tr, k, e.pos, buf0, buf1) && KeepsStored(tr, buf0, buf1)
    ensures HasCell(lg, pc, k)
    ensures Pass1Inv(c, tr + [e], SetLg(lg, k, -e.pos), SetPc(pc, k, -e.pos), buf1[e.pos := e.ofs])
  {
    var buf2 := buf1[e.pos := e.ofs];
    WriteFresh(c, tr, e, buf1, buf2);
    CollapsedThenWritten(tr, k, e.pos, buf0, buf1, buf2);
    DefineStep(c, tr, lg, pc, buf0, e, buf2, k);
  }

  class State {
    const c: Config
    var lglabels: seq<int>
    var pclabels: seq<int>
    var buf: Buffer
    var secpos: seq<int>
    var secofs: seq<int>
    var section: nat
    var status: Status
    var codesize: int
    ghost var tr: Trace
    /** Pass 2's running correction at each event, and the buffers it started from. */
    ghost var dl: seq<int>
    ghost var buf0: Buffer

    /** Setting up with room for `nlg` local and global labels, `npc` PC labels and `nsec` sections. */
    constructor (c: Config)
      requires c.nlg >= 10 && 0 < c.nsec <= MAX_SECTIONS
      ensures Valid() && status.OK? && tr == [] && this.c == c && section == 0
    {
      this.c := c;
      lglabels := seq(c.nlg, i => 0);
      pclabels := seq(c.npc, i => 0);
      buf := map[];
      secpos := seq(c.nsec, i => i * SECTION_SIZE);
      secofs := seq(c.nsec, i => 0);
      section := 0;
      status := OK;
      codesize := 0;
      tr := [];
      dl := [0];
      buf0 := map[];
    }

    ghost predicate Valid()
      reads this
    {
      && c.nlg >= 10 && section < c.nsec <= MAX_SECTIONS
      && (status.OK? ==>
            && Pass1Inv(c, tr, lglabels, pclabels, buf)
            && EndsClosed(tr)
            && SectionsMatch(c.nsec))
    }

    /** The section cursors agree with the trace, for all sections but possibly `busy`. */
    ghost predicate SectionsMatch(busy: nat)
      reads this
    {
      && |secpos| == c.nsec && |secofs| == c.nsec
      && forall s :: 0 <= s < c.nsec && s != busy ==> secpos[s] == SecPos(tr, s) && secofs[s] == SecOfs(tr, s)
    }

    method SetLabelCell(k: Key, v: int)
      requires HasCell(lglabels, pclabels, k)
      modifies this`lglabels, this`pclabels
      ensures lglabels == SetLg(old(lglabels), k, v) && pclabels == SetPc(old(pclabels), k, v)
    {
      if k.LG? {
        lglabels := lglabels[k.n := v];
      } else {
        pclabels := pclabels[k.n := v];
      }
    }

    /** Store a reference to `k`: the label's position if it shows one, else a link of its chain. */
    method PutReference(k: Key, forward: bool, rel: bool, pos: int, ofs: int, ghost e: Event)
      requires Pass1Inv(c, tr, lglabels, pclabels, buf) && Extends(c, tr, e)
      requires RefersTo(e, k) && ValidKey(c, k) && pos == e.pos && ofs == e.ofs
      requires forward == IsForwardLocal(e) && rel == IsRel(e.what.a)
      modifies this`buf, this`lglabels, this`pclabels
      ensures Pass1Inv(c, tr + [e], lglabels, pclabels, buf)
    {
      var n := Cell(lglabels, pclabels, k);
      if n < 0 && !forward {
        ReferToShown(c, tr, lglabels, pclabels, buf, e, k);
        StoreReference(pos, -n, rel, ofs);
      } else {
        if n < 0 { n := 0; }
        ReferToChain(c, tr, lglabels, pclabels, buf, e, k, n);
        StoreReference(pos, n, rel, ofs);
        SetLabelCell(k, pos);
      }
    }

    method StoreReference(pos: int, n: int, rel: bool, ofs: int)
      modifies this`buf
      ensures buf == ReferenceCells(old(buf), pos, n, rel, ofs)
    {
      buf := buf[pos := n];
      if rel {
        buf := buf[pos + 1 := ofs];
      }
    }

    /** Walk the chain `ps` from its head, writing `v` into every cell. */
    method Walk(ghost ps: seq<nat>, head: int, v: int)
      requires TraceOk(c, tr) && RefList(tr, ps)
      requires if head > 0 then Chain(tr, buf, head, ps) else ps == []
      modifies this`buf
      ensures Walked(tr, ps, 0, v, old(buf), buf)
    {
      ghost var m: nat := |ps|;
      assert ps[..m] == ps;
      var n := head;
      while n > 0
        invariant m <= |ps| && (n <= 0 ==> m == 0)
        invariant n > 0 ==> Chain(tr, buf, n, ps[..m])
        invariant Walked(tr, ps, m, v, old(buf), buf)
        decreases m
      {
        WalkNext(c, tr, ps, m, n, v, old(buf), buf);
        var next := buf[n];
        buf := buf[n := v];
        n := next;
        m := m - 1;
      }
    }

    /** Replace every link of the chain of `k` that starts at `head` by `v`. */
    method Collapse(ghost k: Key, head: int, v: int)
      requires TraceOk(c, tr) && AllStored(tr, buf) && CellOk(tr, buf, head, k)
      modifies this`buf
      ensures Collapsed(tr, k, v, old(buf), buf) && KeepsStored(tr, old(buf), buf)
    {
      CellSign(c, tr, buf, head, k);
      PendingIsRefList(tr, k);
      Walk(Pending(tr, k), head, v);
      WalkDone(c, tr, k, v, old(buf), buf);
    }

    /** Define label `k` here: everything waiting for it is told so. */
    method PutLabel(k: Key, pos: int, ofs: int, ghost e: Event)
      requires Pass1Inv(c, tr, lglabels, pclabels, buf) && Extends(c, tr, e)
      requires Defines(e, k) && ValidKey(c, k) && pos == e.pos && ofs == e.ofs
      modifies this`buf, this`lglabels, this`pclabels
      ensures Pass1Inv(c, tr + [e], lglabels, pclabels, buf)
    {
      ghost var buf0, lg0, pc0 := buf, lglabels, pclabels;
      Collapse(k, Cell(lglabels, pclabels, k), pos);
      LabelDefined(c, tr, lg0, pc0, buf0, e, buf, k);
      SetLabelCell(k, -pos);
      buf := buf[pos := ofs];
    }

    /** Store a plain value in the next cell. */
    method PutCell(pos: int, v: int, ghost e: Event)
      requires Pass1Inv(c, tr, lglabels, pclabels, buf) && Extends(c, tr, e)
      requires pos == e.pos && EventSlots(e) == 1 && (forall k :: !RefersTo(e, k) && !Defines(e, k))
      requires Stored(e, map[pos := v])
      modifies this`buf
      ensures Pass1Inv(c, tr + [e], lglabels, pclabels, buf)
    {
      ghost var buf0 := buf;
      buf := buf[pos := v];
      WriteFresh(c, tr, e, buf0, buf);
      PlainStep(c, tr, lglabels, pclabels, buf0, e, buf);
    }

    /** The range checks on one action, made on the label cells themselves. */
    method CheckAction(p: nat, arg: int) returns (st: Status)
      requires p < |c.al| && c.nlg >= 10 && Pass1Inv(c, tr, lglabels, pclabels, buf)
      ensures st == Check(c, tr, p, c.al[p], arg)
    {
      var a := c.al[p];
      st := OK;
      if a.ImmS? && !FitsSignedByte(arg) {
        st := RangeI(p);
      } else if a.ImmB? && !(0 <= arg < 256) {
        st := RangeI(p);
      } else if (a.ImmW? || (a.ImmWB? && !FitsSignedByte(arg))) && !(0 <= arg < 65536) {
        st := RangeI(p);
      } else if a.Section? && a.n >= c.nsec {
        st := RangeSec(p);
      } else if IsRel(a) || IsImmLabel(a) || IsLabel(a) {
        var (k, forward) := LabelOf(a, arg);
        if k.PC? {
          if !(0 <= k.n < c.npc) { st := RangePC(p); }
        } else if !forward {
          if !IsLabel(a) && k.n < 10 {
            assert ValidKey(c, k);
            CellSign(c, tr, buf, Cell(lglabels, pclabels, k), k);
            if lglabels[k.n] >= 0 { st := RangeLG(p); }
          }
          if st.OK? && k.n >= c.nlg { st := RangeLG(p); }
        }
      }
    }

    /** Fill the cells of an accepted action. */
    method PutCells(a: Action, arg: int, pos: int, ofs: int, ghost e: Event)
      requires c.nlg >= 10 && Pass1Inv(c, tr, lglabels, pclabels, buf) && Extends(c, tr, e)
      requires e.what.Act? && a == e.what.a && arg == e.what.arg && pos == e.pos && ofs == e.ofs
      modifies this`buf, this`lglabels, this`pclabels
      ensures Pass1Inv(c, tr + [e], lglabels, pclabels, buf)
    {
      ActionLabel(c, tr, e);
      if IsImm(a) {
        PutCell(pos, arg, e);
      } else if IsLabel(a) {
        PutLabel(LabelOf(a, arg).0, pos, ofs, e);
      } else if a.Align? {
        PutCell(pos, ofs, e);
      } else if IsRel(a) || IsImmLabel(a) {
        PutReference(LabelOf(a, arg).0, LabelOf(a, arg).1, IsRel(a), pos, ofs, e);
      } else {
        PlainStep(c, tr, lglabels, pclabels, buf, e, buf);
      }
    }

    /** The state inside pass 1, in section `sec` whose cursors are still held in `pos` and `ofs`. */
    ghost predicate InPut(sec: nat, pos: int, ofs: int)
      reads this
    {
      && c.nlg >= 10 && sec < c.nsec && status.OK?
      && Pass1Inv(c, tr, lglabels, pclabels, buf)
      && SectionsMatch(sec)
      && pos == SecPos(tr, sec) && ofs == SecOfs(tr, sec)
    }

    /** One turn of the pass 1 loop: the action at `p`. */
    method PutAction(sec: nat, ghost start: nat, p: nat, arg: int, pos: int, ofs: int) returns (pos': int, ofs': int)
      requires InPut(sec, pos, ofs) && Running(c, tr, sec, start, p)
      requires p < |c.al| && ActionOk(c.al, start, p) && (c.al[p].Space? ==> arg >= 0)
      requires pos + Slots(c.al[p]) < (sec + 1) * SECTION_SIZE
      modifies this`buf, this`lglabels, this`pclabels, this`status, this`section, this`tr
      ensures status == Check(c, old(tr), p, c.al[p], arg)
      ensures !status.OK? ==> section == old(section)
      ensures status.OK? ==>
                && tr == old(tr) + [EventFor(old(tr), sec, Act(p, c.al[p], arg))]
                && InPut(sec, pos', ofs') && pos' == pos + Slots(c.al[p])
                && section == (if c.al[p].Section? then c.al[p].n else old(section))
                && (if IsEnd(c.al[p]) then EndsClosed(tr) else Running(c, tr, sec, start, p + 1))
    {
      var a := c.al[p];
      pos', ofs' := pos, ofs;
      status := CheckAction(p, arg);
      if !status.OK? {
        return;
      }
      ghost var e := EventFor(tr, sec, Act(p, a, arg));
      StepExtends(c, tr, sec, start, p, arg);
      OtherSections(tr, e);
      ofs' := ofs + MaxSize(a, arg);
      PutCells(a, arg, pos, ofs', e);
      section := if a.Section? then a.n else section;
      pos' := pos + Slots(a);
      tr := tr + [e];
    }

    /** The call marker every pass 1 call begins with. */
    method PutEnter(start: nat) returns (pos: int, ofs: int)
      requires Valid() && status.OK? && secpos[section] + 1 < (section + 1) * SECTION_SIZE
      modifies this`buf, this`tr
      ensures tr == old(tr) + [EventFor(old(tr), section, Enter(start))]
      ensures InPut(section, pos, ofs) && pos == secpos[section] + 1
      ensures start <= |c.al| ==> Running(c, tr, section, start, start)
    {
      pos, ofs := secpos[section], secofs[section];
      ghost var enter := EventFor(tr, section, Enter(start));
      Snoc(tr, enter);
      OtherSections(tr, enter);
      PutCell(pos, start, enter);
      tr := tr + [enter];
      pos := pos + 1;
    }

    /** The pass 1 loop: replay actions until the call ends or one is rejected. */
    method PutActions(sec: nat, start: nat, args: seq<int>, ghost room: int, pos: int, ofs: int)
      returns (pos': int, ofs': int)
      requires InPut(sec, pos, ofs) && section == sec && Running(c, tr, sec, start, start)
      requires Runnable(c.al, start, start, args, room) && pos + room < (sec + 1) * SECTION_SIZE
      modifies this`buf, this`lglabels, this`pclabels, this`status, this`section, this`tr
      ensures match Replay(c, old(tr), sec, start, start, args, room)
              case Accepted(tr', next) => InPut(sec, pos', ofs') && tr == tr' && section == next < c.nsec
                  && EndsClosed(tr)
              case Rejected(st) => status == st != OK && section == sec
    {
      pos', ofs' := pos, ofs;
      var p, rest := start, args;
      ghost var left := room;
      while true
        invariant InPut(sec, pos', ofs') && section == sec && Running(c, tr, sec, start, p)
        invariant Runnable(c.al, start, p, rest, left) == Runnable(c.al, start, start, args, room)
        invariant pos' + left < (sec + 1) * SECTION_SIZE
        invariant Replay(c, old(tr), sec, start, start, args, room) == Replay(c, tr, sec, start, p, rest, left)
        decreases |c.al| - p
      {
        var a := c.al[p];
        pos', ofs', rest := PutNext(sec, start, p, rest, left, pos', ofs');
        if !status.OK? || IsEnd(a) {
          return;
        }
        p, left := p + 1, left - Slots(a);
      }
    }

    /** The action at `p` with its arguments, and what is left to replay. */
    method PutNext(sec: nat, ghost start: nat, p: nat, args: seq<int>, ghost room: int, pos: int, ofs: int)
      returns (pos': int, ofs': int, rest: seq<int>)
      requires InPut(sec, pos, ofs) && section == sec && Running(c, tr, sec, start, p)
      requires Runnable(c.al, start, p, args, room) && pos + room < (sec + 1) * SECTION_SIZE
      modifies this`buf, this`lglabels, this`pclabels, this`status, this`section, this`tr
      ensures status.OK? ==> InPut(sec, pos', ofs')
      ensures status.OK? && !IsEnd(c.al[p]) ==>
                && section == sec && Running(c, tr, sec, start, p + 1)
                && Runnable(c.al, start, p + 1, rest, room - Slots(c.al[p]))
                && pos' + room - Slots(c.al[p]) < (sec + 1) * SECTION_SIZE
                && Replay(c, old(tr), sec, start, p, args, room) ==
                    Replay(c, tr, sec, start, p + 1, rest, room - Slots(c.al[p]))
      ensures status.OK? && IsEnd(c.al[p]) ==>
                section < c.nsec && EndsClosed(tr)
                    && Replay(c, old(tr), sec, start, p, args, room) == Accepted(tr, section)
      ensures !status.OK? ==> section == sec && Replay(c, old(tr), sec, start, p, args, room) == Rejected(status)
    {
      var a, arg := c.al[p], FirstArg(c.al[p], args);
      ghost var tr0 := tr;
      pos', ofs' := PutAction(sec, start, p, arg, pos, ofs);
      rest := RestArgs(a, args);
      if status.OK? && !IsEnd(a) {
        ReplayNext(c, tr0, sec, start, p, args, room);
      }
    }

    /** Pass 1: store actions and arguments, link branches and labels, estimate offsets. */
    method Put(start: nat, args: seq<int>)
      requires Valid() && status.OK?
      requires Runnable(c.al, start, start, args, DASM_MAXSECPOS - 1)
      requires secpos[section] + DASM_MAXSECPOS < (section + 1) * SECTION_SIZE
      modifies this
      ensures Valid()
      ensures match Record(c, old(tr), old(section), start, args)
              case Accepted(tr', next) => status.OK? && tr == tr' && section == next
              case Rejected(st) => status == st != OK
    {
      var sec := section;
      var pos, ofs := PutEnter(start);
      pos, ofs := PutActions(sec, start, args, DASM_MAXSECPOS - 1, pos, ofs);
      if status.OK? {
        secpos := secpos[sec := pos];
        secofs := secofs[sec := ofs];
      }
    }

    // ---------- pass 2 ----------

    /** The state inside pass 2, `buf0` being the buffers it started from, at event `i` and cell `pos`. */
    ghost predicate InLink(buf0: Buffer, dl: seq<int>, i: nat, pos: int)
      reads this
    {
      && Resolved(c, tr, buf0) && SectionsMatch(c.nsec)
      && LinkedUpTo(Flat(tr, c.nsec), dl, buf0, buf, i)
      && (forall q :: q in buf0 && q >= pos ==> q in buf && buf[q] == buf0[q])
    }

    /** Sum of the estimated sizes of sections `from..to`. */
    method SectionSizes(from: nat, to: nat) returns (sum: int)
      requires SectionsMatch(c.nsec) && from <= to <= c.nsec
      ensures sum == Base(tr, to) - Base(tr, from)
    {
      sum := 0;
      for s := from to to
        invariant sum == Base(tr, s) - Base(tr, from)
      {
        sum := sum + secofs[s];
      }
    }

    /** How many bytes the branch at `pos` can lose. */
    method ShrinkBranch(secnum: nat, p: nat, pos: int, ofs: int, ghost buf0: Buffer, ghost dl: seq<int>, ghost i: nat)
      returns (shrink: int)
      requires InLink(buf0, dl, i, pos) && ActionAt(c, tr, secnum, p, pos, i) && ofs == Base(tr, secnum) + dl[i]
      requires IsRel(c.al[p])
      ensures pos in buf0 && pos in buf && buf[pos] == buf0[pos]
      ensures ShrinkRight(Flat(tr, c.nsec), dl, i, buf0[pos], shrink)
    {
      ghost var all := Flat(tr, c.nsec);
      ghost var t := TraceIndex(tr, c.nsec, i);
      ghost var b := FindTarget(c, tr, buf0, t);
      OpcodeInActions(c, tr, i);
      FlatPositions(c, tr, c.nsec);
      shrink := ShrinkOf(OpByte(c.al[p-1]));
      var lpos := buf[pos];
      ShrinkIsRight(all, dl, i, lpos, b);
      if lpos < 0 {
        shrink := 0;
      } else if shrink != 0 {
        DistanceFormula(c, tr, dl, buf0, buf, i, b);
        var lofs := buf[lpos];
        if lpos > pos {
          var sum := SectionSizes(secnum, lpos / SECTION_SIZE);
          lofs := lofs + sum;
        } else {
          lofs := lofs - ofs;
        }
        lofs := lofs - buf[pos + 1];
        if !(-128 - shrink <= lofs <= 127) {
          shrink := 0;
        }
      }
    }

    /** One turn of the pass 2 loop: fix a label, shrink a branch or an alignment. */
    method LinkAction(secnum: nat, p: nat, pos: int, ofs: int, ghost buf0: Buffer, ghost dl: seq<int>, ghost i: nat)
      returns (pos': int, ofs': int, ghost dl': seq<int>)
      requires InLink(buf0, dl, i, pos) && ActionAt(c, tr, secnum, p, pos, i) && ofs == Base(tr, secnum) + dl[i]
      modifies this`buf
      ensures InLink(buf0, dl', i + 1, pos') && pos' == pos + Slots(c.al[p])
      ensures ofs' == Base(tr, secnum) + dl'[i+1]
    {
      ghost var all := Flat(tr, c.nsec);
      ghost var t := TraceIndex(tr, c.nsec, i);
      assert Stored(tr[t], buf0);
      var a := c.al[p];
      pos', ofs' := pos + Slots(a), ofs;
      var shrink := 0;
      if IsRel(a) {
        shrink := ShrinkBranch(secnum, p, pos, ofs, buf0, dl, i);
      }
      LinkEvent(c, tr, dl, buf0, buf, i, ofs, shrink);
      dl' := dl + [dl[i] - Saved(buf, all[i], ofs, shrink)];
      if IsRel(a) {
        ofs' := ofs - shrink;
        buf := buf[pos + 1 := shrink];
      } else if IsLabel(a) {
        buf := buf[pos := buf[pos] + ofs];
      } else if a.Align? {
        ofs' := ofs - (buf[pos] + ofs) % (a.mask as int + 1);
      }
      assert buf == CellsAfterLink(old(buf), all[i], ofs, shrink);
    }

    /** Pass 2 steps over the call marker at event `i`. */
    method LinkEnter(secnum: nat, pos: int, ofs: int, ghost buf0: Buffer, ghost dl: seq<int>, ghost i: nat)
      returns (p: nat, ghost dl': seq<int>)
      requires InLink(buf0, dl, i, pos) && CallAt(c, tr, secnum, pos, i) && i < |Flat(tr, secnum + 1)|
      requires ofs == Base(tr, secnum) + dl[i]
      ensures InLink(buf0, dl', i + 1, pos + 1) && ActionAt(c, tr, secnum, p, pos + 1, i + 1)
      ensures ofs == Base(tr, secnum) + dl'[i+1]
    {
      WalkEnter(c, tr, secnum, pos, i);
      ghost var t := TraceIndex(tr, c.nsec, i);
      assert Stored(tr[t], buf0);
      LinkEvent(c, tr, dl, buf0, buf, i, ofs, 0);
      dl' := dl + [dl[i]];
      p := buf[pos];
    }

    /** Pass 2 over the actions of one call. */
    method LinkCall(secnum: nat, pos: int, ofs: int, ghost buf0: Buffer, ghost dl: seq<int>, ghost i: nat)
      returns (pos': int, ofs': int, ghost dl': seq<int>, ghost i': nat)
      requires InLink(buf0, dl, i, pos) && CallAt(c, tr, secnum, pos, i) && i < |Flat(tr, secnum + 1)|
      requires ofs == Base(tr, secnum) + dl[i]
      modifies this`buf
      ensures InLink(buf0, dl', i', pos') && CallAt(c, tr, secnum, pos', i') && i < i'
      ensures ofs' == Base(tr, secnum) + dl'[i']
      ensures pos' == SecPos(tr, secnum) <==> i' == |Flat(tr, secnum + 1)|
    {
      var p: nat;
      p, dl' := LinkEnter(secnum, pos, ofs, buf0, dl, i);
      pos', ofs', i' := pos + 1, ofs, i + 1;
      while true
        invariant InLink(buf0, dl', i', pos') && ofs' == Base(tr, secnum) + dl'[i']
        invariant ActionAt(c, tr, secnum, p, pos', i') && i < i'
        decreases |Flat(tr, secnum + 1)| - i'
      {
        pos', ofs', dl' := LinkNext(secnum, p, pos', ofs', buf0, dl', i');
        i' := i' + 1;
        if IsEnd(c.al[p]) {
          return;
        }
        p := p + 1;
      }
    }

    /** The action at `p`, and where pass 2 is after it. */
    method LinkNext(secnum: nat, p: nat, pos: int, ofs: int, ghost buf0: Buffer, ghost dl: seq<int>, ghost i: nat)
      returns (pos': int, ofs': int, ghost dl': seq<int>)
      requires InLink(buf0, dl, i, pos) && ActionAt(c, tr, secnum, p, pos, i) && ofs == Base(tr, secnum) + dl[i]
      modifies this`buf
      ensures InLink(buf0, dl', i + 1, pos') && i < |Flat(tr, secnum + 1)| && ofs' == Base(tr, secnum) + dl'[i+1]
      ensures !IsEnd(c.al[p]) ==> ActionAt(c, tr, secnum, p + 1, pos', i + 1)
      ensures IsEnd(c.al[p]) ==>
          CallAt(c, tr, secnum, pos', i + 1) && (pos' == SecPos(tr, secnum) <==> i + 1 == |Flat(tr, secnum + 1)|)
    {
      WalkAction(c, tr, secnum, p, pos, i);
      pos', ofs', dl' := LinkAction(secnum, p, pos, ofs, buf0, dl, i);
    }

    /** Pass 2 over one section. */
    method LinkSection(secnum: nat, ofs: int, ghost buf0: Buffer, ghost dl: seq<int>, ghost i: nat)
      returns (ofs': int, ghost dl': seq<int>, ghost i': nat)
      requires secnum < c.nsec && InLink(buf0, dl, i, secnum * SECTION_SIZE) && i == |Flat(tr, secnum)|
      requires ofs == Base(tr, secnum) + dl[i]
      modifies this`buf
      ensures InLink(buf0, dl', i', secpos[secnum]) && i' == |Flat(tr, secnum + 1)|
      ensures ofs' == Base(tr, secnum) + dl'[i']
    {
      var pos, lastpos := secnum * SECTION_SIZE, secpos[secnum];
      ofs', dl', i' := ofs, dl, i;
      WalkFirst(c, tr, secnum);
      while pos != lastpos
        invariant InLink(buf0, dl', i', pos) && CallAt(c, tr, secnum, pos, i')
        invariant ofs' == Base(tr, secnum) + dl'[i']
        invariant pos == lastpos <==> i' == |Flat(tr, secnum + 1)|
        decreases |Flat(tr, secnum + 1)| - i'
      {
        pos, ofs', dl', i' := LinkCall(secnum, pos, ofs', buf0, dl', i');
      }
    }

    /** Replace the chains of global labels that nothing defines by negative markers. */
    method MarkForeign()
      requires status.OK? && Valid()
      modifies this`buf
      ensures ForeignUpTo(c, tr, lglabels, pclabels, buf, c.nlg)
    {
      for idx := 10 to c.nlg
        invariant ForeignUpTo(c, tr, lglabels, pclabels, buf, idx)
      {
        ghost var buf0 := buf;
        assert ValidKey(c, LG(idx));
        Collapse(LG(idx), lglabels[idx], -idx);
        ForeignStep(c, tr, lglabels, pclabels, buf0, buf, idx);
      }
    }

    lemma PcCell(pc: nat)
      requires Valid() && status.OK? && pc < c.npc
      ensures pclabels[pc] > 0 <==> Pending(tr, PC(pc)) != []
      ensures pclabels[pc] <= 0 ==>
        pclabels[pc] == if Visible(tr, PC(pc)) >= 0 then -tr[Visible(tr, PC(pc))].pos else 0
    {
      assert ValidKey(c, PC(pc));
      CellSign(c, tr, buf, Cell(lglabels, pclabels, PC(pc)), PC(pc));
    }

    /** Are there still references to an undefined PC label? */
    method UndefinedPc() returns (st: Status)
      requires status.OK? && Valid()
      ensures st.OK? <==> forall k :: ValidKey(c, k) && k.PC? ==> Pending(tr, k) == []
      ensures st.OK? ==> PcCellsShown()
      ensures if st.OK? then NoPc(c, tr) else st.UndefPC? && FirstPc(c, tr, st.n)
    {
      for pc := 0 to c.npc
        invariant forall q :: 0 <= q < pc ==> Pending(tr, PC(q)) == []
        invariant forall q :: 0 <= q < pc ==>
          pclabels[q] == if Visible(tr, PC(q)) >= 0 then -tr[Visible(tr, PC(q))].pos else 0
      {
        PcCell(pc);
        if pclabels[pc] > 0 {
          PcKeys(c, tr);
          return UndefPC(pc);
        }
      }
      PcKeys(c, tr);
      return OK;
    }

    /** Clear the local label cells up to the first one that is still awaited. */
    method ClearLocals() returns (st: Status)
      requires |lglabels| >= 10
      modifies this`lglabels
      ensures |lglabels| == old(|lglabels|)
      ensures st.OK? ==>
                && (forall n :: 1 <= n <= 9 ==> old(lglabels)[n] <= 0)
                && (forall n :: 0 <= n < |lglabels| ==> lglabels[n] == if 1 <= n <= 9 then 0 else old(lglabels)[n])
      ensures !st.OK? ==> st.UndefL? && 1 <= st.n <= 9 && old(lglabels)[st.n] > 0
      ensures !st.OK? ==> forall n :: 1 <= n < st.n ==> old(lglabels)[n] <= 0
    {
      for n := 1 to 10
        invariant |lglabels| == old(|lglabels|)
        invariant forall m :: 1 <= m < n ==> old(lglabels)[m] <= 0
        invariant forall m :: 0 <= m < |lglabels| ==> lglabels[m] == if 1 <= m < n then 0 else old(lglabels)[m]
      {
        if lglabels[n] > 0 {
          return UndefL(n);
        }
        lglabels := lglabels[n := 0];
      }
      return OK;
    }

    /** Sanity check between encoding steps: no local label may be awaited, and all are forgotten. */
    method CheckBetween(secmatch: int) returns (st: Status)
      requires Valid() && secmatch < c.nsec
      modifies this`lglabels, this`status, this`tr
      ensures Valid() && st == status
      ensures !old(status).OK? ==> st == old(status)
      ensures old(status).OK? ==>
                (st.OK? <==>
                   && (forall n :: 1 <= n <= 9 ==> Pending(old(tr), LG(n)) == [])
                   && (secmatch >= 0 ==> section == secmatch))
      ensures old(status).OK? && NoLocal(old(tr)) ==>
                && st == (if secmatch >= 0 && section != secmatch then MatchSec(section) else OK)
                && tr == old(tr) + [Event(0, 0, CheckStep, 0)]
      ensures old(status).OK? && !NoLocal(old(tr)) ==> st.UndefL? && FirstLocal(old(tr), st.n) && tr == old(tr)
      ensures section == old(section)
    {
      if status.OK? {
        forall n | 1 <= n <= 9 ensures lglabels[n] > 0 <==> Pending(tr, LG(n)) != [] {
          assert ValidKey(c, LG(n));
          CellSign(c, tr, buf, Cell(lglabels, pclabels, LG(n)), LG(n));
        }
        ghost var lg0 := lglabels;
        status := ClearLocals();
        if status.OK? {
          ForgetLocals(c, tr, lg0, pclabels, buf, lglabels);
          OtherSections(tr, Event(0, 0, CheckStep, 0));
          tr := tr + [Event(0, 0, CheckStep, 0)];
        }
      }
      if status.OK? && secmatch >= 0 && section != secmatch {
        status := MatchSec(section);
      }
      return status;
    }

    /** Pass 2 is complete. */
    ghost predicate Linked()
      reads this
    {
      var all := Flat(tr, c.nsec);
      && Resolved(c, tr, buf0) && SectionsMatch(c.nsec)
      && LinkedUpTo(all, dl, buf0, buf, |all|)
      && codesize == Cursor(all, dl, |all|)
    }

    /** After pass 1 with nothing awaited, each PC label cell shows its latest definition. */
    ghost predicate PcCellsShown()
      reads this
    {
      |pclabels| == c.npc &&
      forall pc :: 0 <= pc < c.npc ==>
        pclabels[pc] == if Visible(tr, PC(pc)) >= 0 then -tr[Visible(tr, PC(pc))].pos else 0
    }

    /** Pass 2: link sections, shrink branches and alignments, fix label offsets. */
    method Link() returns (st: Status, size: int)
      requires Valid()
      requires status.OK? ==> forall n :: 0 <= n <= 9 ==> Pending(tr, LG(n)) == []
      modifies this`buf, this`codesize, this`dl, this`buf0
      ensures !status.OK? ==> st == status
      ensures status.OK? ==> (st.OK? <==> forall k :: ValidKey(c, k) && k.PC? ==> Pending(tr, k) == [])
      ensures status.OK? ==> if st.OK? then NoPc(c, tr) else st.UndefPC? && FirstPc(c, tr, st.n)
      ensures st.OK? ==> Linked() && PcCellsShown() && size == codesize
    {
      size := 0;
      if !status.OK? {
        return status, 0;
      }
      st := UndefinedPc();
      if !st.OK? {
        return;
      }
      size := LinkResolved();
    }

    method LinkResolved() returns (size: int)
      requires Valid() && status.OK?
      requires forall k :: ValidKey(c, k) && (IsLocal(k) || k.PC?) ==> Pending(tr, k) == []
      modifies this`buf, this`codesize, this`dl, this`buf0
      ensures Linked() && size == codesize
    {
      MarkForeign();
      assert Resolved(c, tr, buf);
      size := LinkSections();
      codesize := size;
    }

    method LinkSections() returns (ofs: int)
      requires Resolved(c, tr, buf) && SectionsMatch(c.nsec)
      modifies this`buf, this`dl, this`buf0
      ensures Resolved(c, tr, buf0) && LinkedUpTo(Flat(tr, c.nsec), dl, buf0, buf, |Flat(tr, c.nsec)|)
      ensures ofs == Cursor(Flat(tr, c.nsec), dl, |Flat(tr, c.nsec)|)
    {
      ghost var i: nat, old0, d := 0, buf, [0];
      ofs := 0;
      for secnum := 0 to c.nsec
        invariant InLink(old0, d, i, secnum * SECTION_SIZE) && i == |Flat(tr, secnum)|
        invariant ofs == Base(tr, secnum) + d[i]
      {
        ofs, d, i := LinkSection(secnum, ofs, old0, d, i);
        ofs := ofs + secofs[secnum];
        SecPosInRange(c, tr, secnum);
      }
      FlatEstimates(c, tr, c.nsec);
      buf0, dl := old0, d;
    }

    // ---------- pass 3 ----------

    /** The state inside pass 3: `cp` bytes are written, the next event is number `|os| - 1`. */
    ghost predicate InEncode(env: Env, gl: map<int, int>, out: array<byte>, cp: nat, os: seq<Code>)
      reads this, out
    {
      && Encoded(c, tr, dl, env, gl, os)
      && cp <= out.Length && out[..cp] == os[|os|-1]
    }

    /** One turn of the pass 3 loop: the bytes of one action, the address of a global label. */
    method EncodeAction(base: int, gl: map<int, int>, out: array<byte>, cp: nat, p: nat, pos: int,
                        ghost env: Env, ghost os: seq<Code>)
      returns (cp': nat, gl': map<int, int>, ghost os': seq<Code>)
      requires Linked() && env.buf == buf && env.base == base && codesize <= out.Length
      requires InEncode(env, gl, out, cp, os)
      requires |os| <= |Flat(tr, c.nsec)| && Flat(tr, c.nsec)[|os|-1].pos == pos
      requires p < |c.al| && Flat(tr, c.nsec)[|os|-1].what.Act? && Flat(tr, c.nsec)[|os|-1].what.a == c.al[p]
      modifies out
      ensures InEncode(env, gl', out, cp', os') && |os'| == |os| + 1
    {
      ghost var i := |os| - 1;
      var n;
      os' := os + [Emit(env, os[i], Flat(tr, c.nsec)[i], dl[i] - dl[i+1])];
      cp', n := EncodeBytes(base, gl, out, cp, p, pos, env, os);
      gl' := NextGlobals(gl, c.al[p], base + n);
      EncodedNext(c, tr, dl, env, gl, os, c.al[p], n, gl', os');
    }

    /** Write the bytes of the action at `p`; also return its buffer cell. */
    method EncodeBytes(base: int, gl: map<int, int>, out: array<byte>, cp: nat, p: nat, pos: int,
                       ghost env: Env, ghost os: seq<Code>)
      returns (cp': nat, n: int)
      requires Linked() && env.buf == buf && env.base == base && codesize <= out.Length
      requires InEncode(env, gl, out, cp, os)
      requires |os| <= |Flat(tr, c.nsec)| && Flat(tr, c.nsec)[|os|-1].pos == pos
      requires p < |c.al| && Flat(tr, c.nsec)[|os|-1].what.Act? && Flat(tr, c.nsec)[|os|-1].what.a == c.al[p]
      modifies out
      ensures cp' <= out.Length
      ensures out[..cp'] == Emit(env, os[|os|-1], Flat(tr, c.nsec)[|os|-1], dl[|os|-1] - dl[|os|])
      ensures IsLabel(c.al[p]) ==> n == Cursor(Flat(tr, c.nsec), dl, |os| - 1)
    {
      EncodeCells(c, tr, dl, buf0, buf, |os| - 1);
      var a := c.al[p];
      n := if IsImm(a) || IsRel(a) || IsImmLabel(a) || IsLabel(a) then buf[pos] else 0;
      var shrink := if IsRel(a) then buf[pos + 1] else 0;
      var address := if n < 0 then At(gl, -n) else base + At(buf, n);
      EncodeOk(c, tr, dl, os, buf0, env, gl, n, shrink, address);
      cp' := WriteAction(out, cp, a, n, address, base, shrink);
    }

    /** Pass 3 steps over the call marker that is the next event. */
    method EncodeEnter(secnum: nat, gl: map<int, int>, out: array<byte>, cp: nat, pos: int, ghost env: Env,
        ghost os: seq<Code>)
      returns (p: nat, ghost os': seq<Code>)
      requires Linked() && InEncode(env, gl, out, cp, os)
      requires CallAt(c, tr, secnum, pos, |os| - 1) && |os| <= |Flat(tr, secnum + 1)|
      ensures InEncode(env, gl, out, cp, os') && |os'| == |os| + 1
      ensures ActionAt(c, tr, secnum, p, pos + 1, |os|)
    {
      WalkEnter(c, tr, secnum, pos, |os| - 1);
      assert LinkStep(Flat(tr, c.nsec), dl, buf0, buf, |os| - 1);
      p := buf[pos];
      GlobalsNext(c, tr, dl, env, gl, |os| - 1, 0);
      EmittedMore(env, Flat(tr, c.nsec), dl, os, os[|os|-1]);
      os' := os + [os[|os|-1]];
    }

    /** Pass 3 over the actions of one call. */
    method EncodeCall(secnum: nat, base: int, gl: map<int, int>, out: array<byte>, cp: nat, pos: int,
                      ghost env: Env, ghost os: seq<Code>)
      returns (cp': nat, gl': map<int, int>, pos': int, ghost os': seq<Code>)
      requires Linked() && env.buf == buf && env.base == base && codesize <= out.Length
      requires InEncode(env, gl, out, cp, os)
      requires CallAt(c, tr, secnum, pos, |os| - 1) && |os| <= |Flat(tr, secnum + 1)|
      modifies out
      ensures InEncode(env, gl', out, cp', os') && |os| < |os'|
      ensures CallAt(c, tr, secnum, pos', |os'| - 1)
      ensures pos' == SecPos(tr, secnum) <==> |os'| - 1 == |Flat(tr, secnum + 1)|
    {
      var p: nat;
      p, os' := EncodeEnter(secnum, gl, out, cp, pos, env, os);
      cp', gl', pos' := cp, gl, pos + 1;
      while true
        invariant InEncode(env, gl', out, cp', os') && |os| < |os'|
        invariant ActionAt(c, tr, secnum, p, pos', |os'| - 1)
        decreases |Flat(tr, secnum + 1)| - |os'|
      {
        cp', gl', pos', os' := EncodeNext(secnum, base, gl', out, cp', p, pos', env, os');
        if IsEnd(c.al[p]) {
          return;
        }
        p := p + 1;
      }
    }

    /** The action at `p`, and where pass 3 is after it. */
    method EncodeNext(secnum: nat, base: int, gl: map<int, int>, out: array<byte>, cp: nat, p: nat, pos: int,
                      ghost env: Env, ghost os: seq<Code>)
      returns (cp': nat, gl': map<int, int>, pos': int, ghost os': seq<Code>)
      requires Linked() && env.buf == buf && env.base == base && codesize <= out.Length
      requires InEncode(env, gl, out, cp, os) && ActionAt(c, tr, secnum, p, pos, |os| - 1)
      modifies out
      ensures InEncode(env, gl', out, cp', os') && |os'| == |os| + 1 <= |Flat(tr, secnum + 1)| + 1
      ensures !IsEnd(c.al[p]) ==> ActionAt(c, tr, secnum, p + 1, pos', |os|)
      ensures IsEnd(c.al[p]) ==>
          CallAt(c, tr, secnum, pos', |os|) && (pos' == SecPos(tr, secnum) <==> |os| == |Flat(tr, secnum + 1)|)
    {
      WalkAction(c, tr, secnum, p, pos, |os| - 1);
      cp', gl', os' := EncodeAction(base, gl, out, cp, p, pos, env, os);
      pos' := pos + Slots(c.al[p]);
    }

    /** Pass 3 over one section. */
    method EncodeSection(secnum: nat, base: int, gl: map<int, int>, out: array<byte>, cp: nat,
                         ghost env: Env, ghost os: seq<Code>)
      returns (cp': nat, gl': map<int, int>, ghost os': seq<Code>)
      requires Linked() && env.buf == buf && env.base == base && codesize <= out.Length
      requires InEncode(env, gl, out, cp, os) && secnum < c.nsec && |os| - 1 == |Flat(tr, secnum)|
      modifies out
      ensures InEncode(env, gl', out, cp', os') && |os'| - 1 == |Flat(tr, secnum + 1)|
    {
      var pos, endpos := secnum * SECTION_SIZE, secpos[secnum];
      cp', gl', os' := cp, gl, os;
      WalkFirst(c, tr, secnum);
      while pos != endpos
        invariant InEncode(env, gl', out, cp', os') && CallAt(c, tr, secnum, pos, |os'| - 1)
        invariant pos == endpos <==> |os'| - 1 == |Flat(tr, secnum + 1)|
        decreases |Flat(tr, secnum + 1)| - |os'|
      {
        cp', gl', pos, os' := EncodeCall(secnum, base, gl', out, cp', pos, env, os');
      }
    }

    lemma AllEncoded(env: Env, os: seq<Code>)
      requires Linked() && env.buf == buf && Emitted(env, Flat(tr, c.nsec), dl, os) && |os| == |Flat(tr, c.nsec)| + 1
      ensures |os[|Flat(tr, c.nsec)|]| == codesize
    {
      FlatOrdered(c, tr, c.nsec);
      EmittedLength(env, Flat(tr, c.nsec), dl, os, buf0, |Flat(tr, c.nsec)|);
    }

    /**
     Pass 3: encode sections.  The phase check cannot fail, and exactly `codesize` bytes are written.
     */
    method Encode(base: int, globals: map<int, int>, out: array<byte>)
      returns (st: Status, gl: map<int, int>, ghost os: seq<Code>)
      requires Linked() && codesize <= out.Length
      modifies out
      ensures st.OK?
      ensures Emitted(Env(buf, base, globals), Flat(tr, c.nsec), dl, os) && |os| == |Flat(tr, c.nsec)| + 1
      ensures 0 <= codesize && out[..codesize] == os[|Flat(tr, c.nsec)|]
      ensures GlobalsSoFar(c, tr, dl, Env(buf, base, globals), gl, |Flat(tr, c.nsec)|)
    {
      ghost var env := Env(buf, base, globals);
      var cp := 0;
      gl, os := globals, [[]];
      for secnum := 0 to c.nsec
        invariant InEncode(env, gl, out, cp, os) && |os| - 1 == |Flat(tr, secnum)|
      {
        cp, gl, os := EncodeSection(secnum, base, gl, out, cp, env, os);
      }
      AllEncoded(env, os);
      st := if codesize != cp then Phase else OK;
    }

    /** The offset of a PC label: -1 if it is awaited but undefined, -2 if unused or out of range. */
    method GetPcLabel(pc: nat) returns (ofs: int)
      requires Linked() && PcCellsShown()
      ensures ofs == -2 <==> pc >= c.npc || Visible(tr, PC(pc)) < 0
      ensures ofs != -2 ==> ofs >= 0 && IsOffsetOf(tr[Visible(tr, PC(pc))], ofs)
    {
      if pc < c.npc {
        var pos := pclabels[pc];
        assert ValidKey(c, PC(pc));
        if Visible(tr, PC(pc)) >= 0 {
          ghost var v: nat := Visible(tr, PC(pc));
          VisibleIsLatest(c, tr, PC(pc));
          ActionPosPositive(c, tr, v);
          LabelOffset(c, tr, dl, buf0, buf, v);
        }
        if pos < 0 {
          return buf[-pos];
        }
        if pos > 0 {
          return -1;
        }
      }
      return -2;
    }

    /** Label event `e` ends up at offset `ofs` of the code. */
    ghost predicate IsOffsetOf(e: Event, ofs: int)
      reads this
      requires |dl| > |Flat(tr, c.nsec)|
    {
      exists b: nat :: b < |Flat(tr, c.nsec)| && Flat(tr, c.nsec)[b] == e && ofs == Cursor(Flat(tr, c.nsec), dl, b)
    }

    /** Make a run of pass 1 calls, stopping at the first one that is rejected. */
    method PutAll(calls: seq<Call>)
      requires Valid() && status.OK? && Callable(c, tr, section, calls)
      modifies this
      ensures Valid()
      ensures match Run(c, old(tr), old(section), calls)
              case Accepted(tr', next) => status.OK? && tr == tr' && section == next
              case Rejected(st) => status == st != OK
    {
      var rest := calls;
      while rest != []
        invariant Valid() && status.OK? && Callable(c, tr, section, rest)
        invariant Run(c, old(tr), old(section), calls) == Run(c, tr, section, rest)
        decreases |rest|
      {
        ghost var r := Record(c, tr, section, rest[0].start, rest[0].args);
        Put(rest[0].start, rest[0].args);
        if !status.OK? {
          return;
        }
        assert r == Accepted(tr, section);
        rest := rest[1..];
      }
    }

    /** After the check, no local label is awaited, label 0 included. */
    lemma NothingLocalAwaited()
      requires Valid() && status.OK? && tr != [] && tr[|tr|-1].what.CheckStep?
      ensures forall n :: 0 <= n <= 9 ==> Pending(tr, LG(n)) == []
      ensures forall k :: Pending(tr, k) == Pending(tr[..|tr|-1], k)
    {
      ZeroNeverPending(c, tr);
      forall n | 1 <= n <= 9 ensures Pending(tr, LG(n)) == [] {
        assert IsReset(LG(n));
      }
    }

    lemma CodeSizeNonnegative()
      requires Linked()
      ensures codesize >= 0
    {
      FlatOrdered(c, tr, c.nsec);
      OnlyShrinks(Flat(tr, c.nsec), dl, buf0, buf, 0, |Flat(tr, c.nsec)|);
    }
  }

  /** Write some bytes at the cursor. */
  method Write(out: array<byte>, cp: nat, bytes: Code) returns (cp': nat)
    requires cp + |bytes| <= out.Length
    modifies out
    ensures cp' == cp + |bytes| && out[..cp'] == old(out[..cp]) + bytes
  {
    cp' := cp;
    while cp' < cp + |bytes|
      invariant cp <= cp' <= cp + |bytes|
      invariant out[..cp'] == old(out[..cp]) + bytes[..cp' - cp]
    {
      out[cp'] := bytes[cp' - cp];
      cp' := cp' + 1;
    }
  }

  /** Pad with no-ops up to a multiple of `mask + 1`. */
  method WriteNops(out: array<byte>, cp: nat, mask: byte) returns (cp': nat)
    requires cp + Padding(cp, mask) <= out.Length
    modifies out
    ensures cp' == cp + Padding(cp, mask) && out[..cp'] == old(out[..cp]) + Fill(cp' - cp, 0x90)
  {
    cp' := cp;
    while cp' % (mask as int + 1) != 0
      invariant cp <= cp' <= cp + Padding(cp, mask)
      invariant out[..cp'] == old(out[..cp]) + Fill(cp' - cp, 0x90)
      decreases out.Length - cp'
    {
      NextMultiple(cp, mask as int + 1, cp');
      out[cp'] := 0x90;
      cp' := cp' + 1;
    }
    NextMultiple(cp, mask as int + 1, cp');
  }

  /** Write a branch field, patching the opcode when the branch is short. */
  method WriteRel(out: array<byte>, cp: nat, disp: int, shrink: int) returns (cp': nat)
    requires shrink == 0 || shrink == 3 || shrink == 4
    requires cp <= out.Length && cp + 4 - shrink <= out.Length
        && cp >= (if shrink == 4 then 2 else if shrink == 3 then 1 else 0)
    modifies out
    ensures cp' == cp + 4 - shrink && out[..cp'] == EmitRel(old(out[..cp]), disp, shrink)
  {
    if shrink == 0 {
      cp' := Write(out, cp, Dword(disp));
    } else {
      cp' := cp;
      if shrink == 4 {
        cp' := cp - 1;
        out[cp' - 1] := Plus(out[cp'], -0x10);
      } else {
        out[cp' - 1] := 0xeb;
      }
      cp' := Write(out, cp', [Low(disp)]);
    }
  }

  /** Write an immediate that shrinks to a byte when it can, setting the opcode's sign-extension bit. */
  method WriteShortImm(out: array<byte>, cp: nat, n: int, wide: Code) returns (cp': nat)
    requires 2 <= cp <= out.Length && cp + (if FitsSignedByte(n) then 1 else |wide|) <= out.Length
    modifies out
    ensures var o := old(out[..cp]);
      && cp' == cp + (if FitsSignedByte(n) then 1 else |wide|)
      && out[..cp'] == if FitsSignedByte(n) then o[|o|-2 := Plus(o[|o|-2], 2)] + [Low(n)] else o + wide
  {
    if FitsSignedByte(n) {
      out[cp - 2] := Plus(out[cp - 2], 2);
      cp' := Write(out, cp, [Low(n)]);
    } else {
      cp' := Write(out, cp, wide);
    }
  }

  /** Write the bytes of one action. */
  method WriteAction(out: array<byte>, cp: nat, a: Action, n: int, address: int, base: int, shrink: int)
    returns (cp': nat)
    requires cp <= out.Length && |EmitAction(out[..cp], a, n, address, base, shrink)| <= out.Length
    requires IsRel(a) ==> shrink == 0 || shrink == 3 || shrink == 4
    requires IsRel(a) && shrink == 3 ==> cp >= 1
    requires IsShortImm(a) || (IsRel(a) && shrink == 4) ==> cp >= 2
    requires a.Space? ==> n >= 0
    modifies out
    ensures cp' <= out.Length && out[..cp'] == EmitAction(old(out[..cp]), a, n, address, base, shrink)
  {
    cp' := cp;
    if IsByte(a) {
      cp' := Write(out, cp, [a.b]);
    } else if a.ImmS? || a.ImmB? {
      cp' := Write(out, cp, [Low(n)]);
    } else if a.ImmW? {
      cp' := Write(out, cp, Word(n));
    } else if a.ImmD? {
      cp' := Write(out, cp, Dword(n));
    } else if IsShortImm(a) {
      cp' := WriteShortImm(out, cp, n, if a.ImmWB? then Word(n) else Dword(n));
    } else if a.Space? {
      cp' := Write(out, cp, Fill(n, a.fill));
    } else if IsRel(a) {
      cp' := WriteRel(out, cp, address - (base + cp + 4 - shrink), shrink);
    } else if IsImmLabel(a) {
      cp' := Write(out, cp, Dword(address));
    } else if a.Align? {
      cp' := WriteNops(out, cp, a.mask);
    }
  }

  /**
   The whole assembler, as a build runs it: set up, feed all calls, check, link, encode.  It succeeds
   exactly when pass 1 accepts every call and no local or PC label is still awaited at the end, and
   then the code means what the calls say.
   */
  method Assemble(c: Config, calls: seq<Call>, base: int, globals: map<int, int>)
    returns (st: Status, out: array<byte>, ghost tr: Trace, ghost dl: seq<int>)
    requires c.nlg >= 10 && 0 < c.nsec <= MAX_SECTIONS && Callable(c, [], 0, calls)
    ensures var r := Run(c, [], 0, calls);
      && (r.Rejected? ==> st == r.status)
      && (r.Accepted? ==>
            (st.OK? <==> forall k :: ValidKey(c, k) && (IsReset(k) || k.PC?) ==> Pending(r.tr, k) == []))
      && (r.Accepted? ==> Verdict(c, r.tr, st))
    ensures st.OK? ==>
      && Run(c, [], 0, calls).Accepted?
      && tr == Run(c, [], 0, calls).tr + [Event(0, 0, CheckStep, 0)]
      && (Base(tr, c.nsec) < 0x8000_0000 ==> CodeMeans(c, tr, dl, base, globals, out[..]))
  {
    var asm := new State(c);
    asm.PutAll(calls);
    ghost var tr0 := asm.tr;
    st := asm.CheckBetween(-1);
    tr, dl := asm.tr, [0];
    out := new byte[0];
    if st.OK? {
      asm.NothingLocalAwaited();
      assert tr[..|tr| - 1] == tr0;
      st, out, dl := LinkAndEncode(asm, base, globals);
      SameVerdict(c, tr0, tr, st);
    }
    if Run(c, [], 0, calls).Accepted? {
      VerdictKeys(c, tr0, st);
    }
  }

  /** Passes 2 and 3. */
  method LinkAndEncode(asm: State, base: int, globals: map<int, int>)
    returns (st: Status, out: array<byte>, ghost dl: seq<int>)
    requires asm.Valid() && asm.status.OK? && forall n :: 0 <= n <= 9 ==> Pending(asm.tr, LG(n)) == []
    modifies asm`buf, asm`codesize, asm`dl, asm`buf0
    ensures st.OK? <==> forall k :: ValidKey(asm.c, k) && k.PC? ==> Pending(asm.tr, k) == []
    ensures if st.OK? then NoPc(asm.c, asm.tr) else st.UndefPC? && FirstPc(asm.c, asm.tr, st.n)
    ensures st.OK? && Base(asm.tr, asm.c.nsec) < 0x8000_0000 ==> CodeMeans(asm.c, asm.tr, dl, base, globals, out[..])
  {
    var size;
    st, size := asm.Link();
    dl := [0];
    out := new byte[0];
    if st.OK? {
      out, dl := EncodeAll(asm, size, base, globals);
    }
  }

  /** Pass 3 into a fresh buffer of just the size pass 2 computed. */
  method EncodeAll(asm: State, size: int, base: int, globals: map<int, int>)
    returns (out: array<byte>, ghost dl: seq<int>)
    requires asm.Linked() && size == asm.codesize
    ensures Base(asm.tr, asm.c.nsec) < 0x8000_0000 ==> CodeMeans(asm.c, asm.tr, dl, base, globals, out[..])
  {
    asm.CodeSizeNonnegative();
    out := new byte[size](_ => 0);
    dl := asm.dl;
    ghost var os;
    var st, gl;
    st, gl, os := asm.Encode(base, globals, out);
    assert out[..] == out[..asm.codesize];
    if Base(asm.tr, asm.c.nsec) < 0x8000_0000 {
      AssembledCodeMeans(asm.c, asm.tr, dl, os, asm.buf0, Env(asm.buf, base, globals));
    }
  }
}
