/**
 The x86 encoding engine of DynASM, part 5: what the assembled code is and means.
 */
module DynasmMeaning {
  import opened DynasmTrace
  import opened DynasmPass1
  import opened DynasmLayout
  import opened DynasmLink
  import opened DynasmFields

  // ---------- references ----------

  /**
   In the code of a linked trace, the branch recorded as event `t` transfers control to the label
   recorded as event `j` whenever `j` is what `t` means.
   */
  ghost predicate BranchMeans(c: Config, tr: Trace, dl: seq<int>, code: Code, t: nat, j: nat)
    requires t < |tr| && j < |tr| && |dl| == |Flat(tr, c.nsec)| + 1
  {
    var all := Flat(tr, c.nsec);
    exists i: nat, b: nat :: BranchGoes(all, dl, code, i, b) && all[i] == tr[t] && all[b] == tr[j]
  }

  /** Where a reference and its target are in the final code. */
  lemma Placed(c: Config, tr: Trace, buf0: Buffer, k: Key, t: nat, j: nat) returns (i: nat, b: nat)
    requires Resolved(c, tr, buf0) && IsTarget(tr, k, t, j)
    ensures var all := Flat(tr, c.nsec);
      && i < |all| && b < |all| && all[i] == tr[t] && all[b] == tr[j]
      && IsLabelEvent(all[b]) && all[i].pos in buf0 && buf0[all[i].pos] == all[b].pos >= 0
  {
    AcceptedBefore(c, tr, t);
    AcceptedBefore(c, tr, j);
    i := FlatIndex(tr, c.nsec, t);
    b := FlatIndex(tr, c.nsec, j);
    PosBelow(c, tr, j);
  }

  lemma BranchesMeanTargets(c: Config, tr: Trace, dl: seq<int>, os: seq<Code>, buf0: Buffer, env: Env, k: Key,
      t: nat, j: nat)
    requires var all := Flat(tr, c.nsec);
      Resolved(c, tr, buf0) && LinkedUpTo(all, dl, buf0, env.buf, |all|) && Base(tr, c.nsec) < 0x8000_0000
    requires IsTarget(tr, k, t, j) && IsRelEvent(tr[t])
    requires Emitted(env, Flat(tr, c.nsec), dl, os) && |os| == |Flat(tr, c.nsec)| + 1
    ensures BranchMeans(c, tr, dl, os[|Flat(tr, c.nsec)|], t, j)
  {
    var all := Flat(tr, c.nsec);
    var i, b := Placed(c, tr, buf0, k, t, j);
    FlatOrdered(c, tr, c.nsec);
    FlatEstimates(c, tr, c.nsec);
    BranchToLabelLands(env, all, dl, os, buf0, i, b);
  }

  /** A label reference stored as an immediate is the address its cell denotes. */
  lemma ImmediateEmitted(env: Env, all: Trace, dl: seq<int>, os: seq<Code>, buf: Buffer, i: nat)
    requires LinkedUpTo(all, dl, buf, env.buf, |all|) && Ordered(all)
    requires Emitted(env, all, dl, os) && |os| == |all| + 1
    requires i < |all| && all[i].what.Act? && IsImmLabel(all[i].what.a)
    ensures var code := os[|all|];
      && 0 <= Cursor(all, dl, i) && Cursor(all, dl, i + 1) == Cursor(all, dl, i) + 4 <= |code|
      && code[Cursor(all, dl, i)..Cursor(all, dl, i + 1)] == Dword(Address(env, At(env.buf, all[i].pos)))
  {
    var code, here := os[|all|], os[i + 1];
    assert LinkStep(all, dl, buf, env.buf, i);
    EmittedLength(env, all, dl, os, buf, i);
    assert here <= code by { EmittedStable(env, all, dl, os, buf, i + 1, |all|); }
    assert EmitsAt(env, all, dl, os, i);
  }

  /** A label reference stored as an immediate is the address at which that label ends up. */
  ghost predicate ImmediateMeans(c: Config, tr: Trace, dl: seq<int>, base: int, code: Code, t: nat, j: nat)
    requires t < |tr| && j < |tr| && |dl| == |Flat(tr, c.nsec)| + 1
  {
    var all := Flat(tr, c.nsec);
    exists i: nat, b: nat :: ImmediateIs(all, dl, base, code, i, b) && all[i] == tr[t] && all[b] == tr[j]
  }

  /** The four bytes of event `i` hold the address at which event `b` ends up. */
  predicate ImmediateIs(all: Trace, dl: seq<int>, base: int, code: Code, i: nat, b: nat) {
    && i < |all| && b < |all| && |dl| == |all| + 1
    && 0 <= Cursor(all, dl, i) && Cursor(all, dl, i + 1) == Cursor(all, dl, i) + 4 <= |code|
    && code[Cursor(all, dl, i)..Cursor(all, dl, i + 1)] == Dword(base + Cursor(all, dl, b))
  }

  lemma ImmediatesMeanTargets(c: Config, tr: Trace, dl: seq<int>, os: seq<Code>, buf0: Buffer, env: Env, k: Key,
      t: nat, j: nat)
    requires var all := Flat(tr, c.nsec);
      Resolved(c, tr, buf0) && LinkedUpTo(all, dl, buf0, env.buf, |all|)
    requires IsTarget(tr, k, t, j) && tr[t].what.Act? && IsImmLabel(tr[t].what.a)
    requires Emitted(env, Flat(tr, c.nsec), dl, os) && |os| == |Flat(tr, c.nsec)| + 1
    ensures ImmediateMeans(c, tr, dl, env.base, os[|Flat(tr, c.nsec)|], t, j)
  {
    var all := Flat(tr, c.nsec);
    var i, b := Placed(c, tr, buf0, k, t, j);
    FlatOrdered(c, tr, c.nsec);
    ImmediateToLabel(env, all, dl, os, buf0, i, b);
  }

  lemma ImmediateToLabel(env: Env, all: Trace, dl: seq<int>, os: seq<Code>, buf: Buffer, i: nat, b: nat)
    requires LinkedUpTo(all, dl, buf, env.buf, |all|) && Ordered(all)
    requires Emitted(env, all, dl, os) && |os| == |all| + 1
    requires i < |all| && all[i].what.Act? && IsImmLabel(all[i].what.a)
    requires b < |all| && IsLabelEvent(all[b]) && all[i].pos in buf && all[b].pos == buf[all[i].pos] >= 0
    ensures ImmediateIs(all, dl, env.base, os[|all|], i, b)
  {
    assert LinkStep(all, dl, buf, env.buf, i) && LinkStep(all, dl, buf, env.buf, b);
    ImmediateEmitted(env, all, dl, os, buf, i);
  }

  // ---------- where everything is and what is there ----------

  /** Event `i` takes the room its action needs: only branches may be short, and padding is the least possible. */
  predicate PartOk(all: Trace, dl: seq<int>, i: nat)
    requires i < |all| && i + 1 < |dl|
  {
    var e, size := all[i], Cursor(all, dl, i + 1) - Cursor(all, dl, i);
    if IsRelEvent(e) then size == 4 || (ShrinkOf(Opcode(all, i)) != 0 && size == 4 - ShrinkOf(Opcode(all, i)))
    else if e.what.Act? && e.what.a.Align? then size == Padding(Cursor(all, dl, i), e.what.a.mask)
    else size == EventMax(e)
  }

  /** The events lie one after the other, from offset 0 on. */
  ghost predicate LaidOut(all: Trace, dl: seq<int>) {
    && |dl| == |all| + 1 && Cursor(all, dl, 0) == 0
    && forall i: nat {:trigger PartOk(all, dl, i)} :: i < |all| ==> PartOk(all, dl, i)
  }

  predicate ShortBranch(all: Trace, dl: seq<int>, i: nat) {
    i < |all| && i + 1 < |dl| && IsRelEvent(all[i]) && dl[i] != dl[i+1]
  }

  /** Byte event `i` belongs to the opcode of a branch that was made short. */
  predicate InShortOpcode(all: Trace, dl: seq<int>, i: nat) {
    ShortBranch(all, dl, i + 1) || (ShortBranch(all, dl, i + 2) && ShrinkOf(Opcode(all, i + 2)) == 4)
  }

  /** Event `i` is an immediate that was narrowed to a byte, which sets a bit of the opcode. */
  predicate Narrowed(all: Trace, i: nat) {
    i < |all| && all[i].what.Act? && IsShortImm(all[i].what.a) && FitsSignedByte(all[i].what.arg)
  }

  /** What stands at event `i` is read back as the argument of its immediate, a C integer. */
  predicate FieldMeans(all: Trace, dl: seq<int>, code: Code, i: nat)
    requires i < |all| && i + 1 < |dl|
  {
    var x, y, w := Cursor(all, dl, i), Cursor(all, dl, i + 1), all[i].what;
    w.Act? && IsImm(w.a) && FitsDword(w.arg) ==> 0 <= x <= y <= |code| && Reads(w.a, code[x..y], w.arg)
  }

  /** The code holds at event `i` what its action says; branches and label addresses are dealt with elsewhere. */
  predicate ContentOk(all: Trace, dl: seq<int>, code: Code, i: nat)
    requires i < |all| && i + 1 < |dl|
  {
    var x, y := Cursor(all, dl, i), Cursor(all, dl, i + 1);
    && 0 <= x <= y <= |code|
    && (all[i].what.Act? ==>
          var a := all[i].what.a;
          && (IsByte(a) && !InShortOpcode(all, dl, i) ==>
                x < |code| && code[x] == if Narrowed(all, i + 2) then Plus(a.b, 2) else a.b)
          && (IsImm(a) ==> (a.Space? ==> all[i].what.arg >= 0) && code[x..y] == ImmBytes(a, all[i].what.arg))
          && (a.Align? ==> code[x..y] == Fill(y - x, 0x90) && Aligned(y, a.mask)))
  }

  lemma PartsLaidOut(env: Env, all: Trace, dl: seq<int>, buf: Buffer)
    requires LinkedUpTo(all, dl, buf, env.buf, |all|) && Ordered(all)
    ensures LaidOut(all, dl)
  {
    forall i: nat | i < |all| ensures PartOk(all, dl, i) {
      assert LinkStep(all, dl, buf, env.buf, i) && SizeOk(all[i]);
      if all[i].what.Act? && all[i].what.a.Align? {
        PaddingIs(Cursor(all, dl, i), all[i].what.a.mask, Cursor(all, dl, i + 1));
      }
    }
  }

  /** An opcode byte survives until the end, except for the bit that a narrowed immediate sets. */
  lemma {:induction false} ByteKept(env: Env, all: Trace, dl: seq<int>, os: seq<Code>, buf: Buffer, i: nat, n: nat)
    requires LinkedUpTo(all, dl, buf, env.buf, |all|) && Ordered(all) && Emitted(env, all, dl, os)
    requires i < n < |os| && IsByteEvent(all[i]) && !InShortOpcode(all, dl, i)
    ensures 0 <= Cursor(all, dl, i) < |os[n]|
    ensures os[n][Cursor(all, dl, i)] == if n >= i + 3 && Narrowed(all, i + 2) then Plus(all[i].what.a.b, 2)
        else all[i].what.a.b
    decreases n
  {
    EmittedLength(env, all, dl, os, buf, i);
    assert EmitsAt(env, all, dl, os, i);
    if n > i + 1 {
      var m := n - 1;
      ByteKept(env, all, dl, os, buf, i, m);
      EmittedLength(env, all, dl, os, buf, m);
      EmittedNext(env, all, dl, os, buf, m);
      ReachesOpcodes(all, dl, buf, env.buf, m);
      var k := Reach(all[m], dl[m] - dl[n]);
      assert Cursor(all, dl, i + 1) == Cursor(all, dl, i) + 1 by { assert LinkStep(all, dl, buf, env.buf, i); }
      if m - k > i {
        OnlyShrinks(all, dl, buf, env.buf, i + 1, m - k);
        PrefixKeeps(os[m], Cursor(all, dl, m) - k, os[n], Cursor(all, dl, i));
        if m == i + 2 { NotNarrow(all, dl, buf, env.buf, m); }
      } else {
        BytePatched(env, all, dl, os, buf, i, m);
      }
    }
  }

  lemma PrefixKeeps(a: Code, n: nat, b: Code, x: nat)
    requires x < n <= |a| && a[..n] <= b
    ensures b[x] == a[x]
  {
    assert a[..n][x] == a[x];
  }

  /** An immediate that patches nothing was not narrowed. */
  lemma NotNarrow(all: Trace, dl: seq<int>, buf: Buffer, buf': Buffer, m: nat)
    requires LinkedUpTo(all, dl, buf, buf', |all|) && m < |all| && Reach(all[m], dl[m] - dl[m+1]) < 2
    ensures !Narrowed(all, m)
  {
  }

  /** The event right behind an opcode byte, or the one after that, patches. */
  lemma BytePatched(env: Env, all: Trace, dl: seq<int>, os: seq<Code>, buf: Buffer, i: nat, m: nat)
    requires LinkedUpTo(all, dl, buf, env.buf, |all|) && Ordered(all) && Emitted(env, all, dl, os)
    requires i < m && m + 1 < |os| && IsByteEvent(all[i]) && !InShortOpcode(all, dl, i)
    requires m - Reach(all[m], dl[m] - dl[m+1]) <= i
    requires |os[m]| == Cursor(all, dl, m) && 0 <= Cursor(all, dl, i) < |os[m]|
        && os[m][Cursor(all, dl, i)] == all[i].what.a.b
    ensures var n := m + 1;
      && Cursor(all, dl, i) < |os[n]|
      && os[n][Cursor(all, dl, i)] == if n >= i + 3 && Narrowed(all, i + 2) then Plus(all[i].what.a.b, 2)
          else all[i].what.a.b
  {
    assert LinkStep(all, dl, buf, env.buf, i) && LinkStep(all, dl, buf, env.buf, m) && EmitsAt(env, all, dl, os, m);
    assert OpcodesAt(all, m);
    if m == i + 2 { assert LinkStep(all, dl, buf, env.buf, i + 1); }
    assert Cursor(all, dl, m) == Cursor(all, dl, i) + (m - i);
  }

  lemma ContentEmitted(env: Env, all: Trace, dl: seq<int>, os: seq<Code>, buf: Buffer, i: nat)
    requires LinkedUpTo(all, dl, buf, env.buf, |all|) && Ordered(all)
    requires Emitted(env, all, dl, os) && |os| == |all| + 1 && i < |all|
    ensures ContentOk(all, dl, os[|all|], i)
  {
    var code := os[|all|];
    OnlyShrinks(all, dl, buf, env.buf, 0, i);
    OnlyShrinks(all, dl, buf, env.buf, i, i + 1);
    OnlyShrinks(all, dl, buf, env.buf, i + 1, |all|);
    EmittedLength(env, all, dl, os, buf, |all|);
    if IsByteEvent(all[i]) {
      if !InShortOpcode(all, dl, i) {
        ByteKept(env, all, dl, os, buf, i, |all|);
        LastIsEnd(all, i);
      }
    } else if all[i].what.Act? && (IsImm(all[i].what.a) || all[i].what.a.Align?) {
      FieldEmitted(env, all, dl, os, buf, i);
    }
  }

  /** A byte event is followed by two more events unless nothing patches it. */
  lemma LastIsEnd(all: Trace, i: nat)
    requires i < |all|
    ensures Narrowed(all, i + 2) ==> |all| >= i + 3
  {
  }

  lemma FieldEmitted(env: Env, all: Trace, dl: seq<int>, os: seq<Code>, buf: Buffer, i: nat)
    requires LinkedUpTo(all, dl, buf, env.buf, |all|) && Ordered(all)
    requires Emitted(env, all, dl, os) && |os| == |all| + 1 && i < |all|
    requires all[i].what.Act? && (IsImm(all[i].what.a) || all[i].what.a.Align?)
    ensures var x, y, a, code := Cursor(all, dl, i), Cursor(all, dl, i + 1), all[i].what.a, os[|all|];
      && 0 <= x <= y <= |code|
      && (IsImm(a) ==> (a.Space? ==> all[i].what.arg >= 0) && code[x..y] == ImmBytes(a, all[i].what.arg))
      && (a.Align? ==> code[x..y] == Fill(y - x, 0x90) && Aligned(y, a.mask))
  {
    var x, y, code, here := Cursor(all, dl, i), Cursor(all, dl, i + 1), os[|all|], os[i + 1];
    FieldLies(env, all, dl, os, buf, i);
    assert here <= code by { EmittedStable(env, all, dl, os, buf, i + 1, |all|); }
    assert EmitsAt(env, all, dl, os, i);
    assert LinkStep(all, dl, buf, env.buf, i);
    FieldAppended(env, os[i], all[i], dl[i] - dl[i+1]);
    assert code[x..y] == here[x..y];
  }

  /** The bytes of event `i` lie between its cursor and the next one. */
  lemma FieldLies(env: Env, all: Trace, dl: seq<int>, os: seq<Code>, buf: Buffer, i: nat)
    requires LinkedUpTo(all, dl, buf, env.buf, |all|) && Ordered(all)
    requires Emitted(env, all, dl, os) && |os| == |all| + 1 && i < |all|
    requires all[i].what.Act? && (IsImm(all[i].what.a) || all[i].what.a.Align?)
    ensures |os[i]| == Cursor(all, dl, i) && |os[i + 1]| == Cursor(all, dl, i + 1)
    ensures SizeOk(all[i]) && Reach(all[i], dl[i] - dl[i+1]) <= |os[i]|
  {
    assert LinkStep(all, dl, buf, env.buf, i) && SizeOk(all[i]) && OpcodesAt(all, i);
    EmittedLength(env, all, dl, os, buf, i);
    EmittedLength(env, all, dl, os, buf, i + 1);
    ReachesOpcodes(all, dl, buf, env.buf, i);
    OnlyShrinks(all, dl, buf, env.buf, 0, i - Reach(all[i], dl[i] - dl[i+1]));
  }

  lemma FieldAppended(env: Env, o: Code, e: Event, shrink: int)
    requires e.what.Act? && (IsImm(e.what.a) || e.what.a.Align?) && SizeOk(e) && Reach(e, shrink) <= |o|
    requires IsImm(e.what.a) ==> At(env.buf, e.pos) == e.what.arg
    ensures var r, a := Emit(env, o, e, shrink), e.what.a;
      && |r| >= |o|
      && (IsImm(a) ==> (a.Space? ==> e.what.arg >= 0) && r[|o|..] == ImmBytes(a, e.what.arg))
      && (a.Align? ==> r[|o|..] == Fill(|r| - |o|, 0x90))
  {
  }

  // ---------- references to globals of the surroundings ----------

  /** Reference `t` to the undefined global label `g` leads to the address the client gave for it. */
  ghost predicate ForeignMeans(c: Config, tr: Trace, dl: seq<int>, base: int, globals: map<int, int>, code: Code,
      t: nat, g: int)
    requires t < |tr| && |dl| == |Flat(tr, c.nsec)| + 1
  {
    var all := Flat(tr, c.nsec);
    exists i: nat :: i < |all| && all[i] == tr[t] && ForeignGoes(all, dl, base, At(globals, g), code, i)
  }

  predicate ForeignGoes(all: Trace, dl: seq<int>, base: int, address: int, code: Code, i: nat)
    requires i < |all| && |dl| == |all| + 1
  {
    var x, y := Cursor(all, dl, i), Cursor(all, dl, i + 1);
    && 0 <= x <= y <= |code|
    && (IsRelEvent(all[i]) ==>
          && dl[i] == dl[i+1]
          && (FitsDword(address - (base + y)) ==> Lands(code, Opcode(all, i), y, false, address - base)))
    && (!IsRelEvent(all[i]) ==> code[x..y] == Dword(address))
  }

  lemma ForeignEmitted(c: Config, tr: Trace, dl: seq<int>, os: seq<Code>, buf0: Buffer, env: Env, t: nat, g: int)
    requires var all := Flat(tr, c.nsec);
      Resolved(c, tr, buf0) && LinkedUpTo(all, dl, buf0, env.buf, |all|)
    requires Emitted(env, Flat(tr, c.nsec), dl, os) && |os| == |Flat(tr, c.nsec)| + 1
    requires ValidKey(c, LG(g)) && !IsLocal(LG(g)) && t in Pending(tr, LG(g))
    ensures t < |tr| && ForeignMeans(c, tr, dl, env.base, env.globals, os[|Flat(tr, c.nsec)|], t, g)
  {
    var all := Flat(tr, c.nsec);
    PendingMeans(c, tr, LG(g), t);
    AcceptedBefore(c, tr, t);
    var i := FlatIndex(tr, c.nsec, t);
    FlatOrdered(c, tr, c.nsec);
    assert LinkStep(all, dl, buf0, env.buf, i);
    OnlyShrinks(all, dl, buf0, env.buf, 0, i);
    OnlyShrinks(all, dl, buf0, env.buf, i, i + 1);
    OnlyShrinks(all, dl, buf0, env.buf, i + 1, |all|);
    EmittedLength(env, all, dl, os, buf0, |all|);
    if IsRelEvent(all[i]) {
      if FitsDword(Displacement(env, all, dl, i)) { BranchLands(env, all, dl, os, buf0, i); }
    } else {
      ImmediateEmitted(env, all, dl, os, buf0, i);
    }
    assert ForeignGoes(all, dl, env.base, At(env.globals, g), os[|all|], i);
  }

  // ---------- the whole ----------

  /**
   What an assembled program is: the recorded actions lie one after the other without gaps, in their least
   room; every byte is the one its action says; branches and addresses lead to the labels the source refers
   to, or to the given globals; and aligned places are aligned.
   */
  ghost predicate CodeMeans(c: Config, tr: Trace, dl: seq<int>, base: int, globals: map<int, int>, code: Code) {
    var all := Flat(tr, c.nsec);
    && LaidOut(all, dl) && |code| == Cursor(all, dl, |all|)
    && (forall i: nat {:trigger ContentOk(all, dl, code, i)} :: i < |all| ==> ContentOk(all, dl, code, i))
    && (forall i: nat {:trigger FieldMeans(all, dl, code, i)} :: i < |all| ==> FieldMeans(all, dl, code, i))
    && (forall k, t: nat, j: nat :: IsTarget(tr, k, t, j) && IsRelEvent(tr[t]) ==> BranchMeans(c, tr, dl, code, t, j))
    && (forall k, t: nat, j: nat ::
        IsTarget(tr, k, t, j) && !IsRelEvent(tr[t]) ==> ImmediateMeans(c, tr, dl, base, code, t, j))
    && (forall g: int, t: nat :: ValidKey(c, LG(g)) && !IsLocal(LG(g)) && t in Pending(tr, LG(g)) ==>
          t < |tr| && ForeignMeans(c, tr, dl, base, globals, code, t, g))
  }

  /** What was accepted and written as recorded is read back. */
  lemma FieldReadBack(c: Config, tr: Trace, dl: seq<int>, code: Code, i: nat)
    requires TraceOk(c, tr) && i < |Flat(tr, c.nsec)| && i + 1 < |dl| && ContentOk(Flat(tr, c.nsec), dl, code, i)
    ensures FieldMeans(Flat(tr, c.nsec), dl, code, i)
  {
    var w := Flat(tr, c.nsec)[i].what;
    if w.Act? && IsImm(w.a) && FitsDword(w.arg) {
      var t := TraceIndex(tr, c.nsec, i);
      AcceptedBefore(c, tr, t);
      AcceptedFits(c, tr[..t], w.p, w.a, w.arg);
    }
  }

  lemma AssembledCodeMeans(c: Config, tr: Trace, dl: seq<int>, os: seq<Code>, buf0: Buffer, env: Env)
    requires var all := Flat(tr, c.nsec);
      Resolved(c, tr, buf0) && LinkedUpTo(all, dl, buf0, env.buf, |all|) && Base(tr, c.nsec) < 0x8000_0000
    requires Emitted(env, Flat(tr, c.nsec), dl, os) && |os| == |Flat(tr, c.nsec)| + 1
    ensures CodeMeans(c, tr, dl, env.base, env.globals, os[|Flat(tr, c.nsec)|])
  {
    var all := Flat(tr, c.nsec);
    var code := os[|all|];
    FlatOrdered(c, tr, c.nsec);
    PartsLaidOut(env, all, dl, buf0);
    EmittedLength(env, all, dl, os, buf0, |all|);
    forall i: nat | i < |all| ensures ContentOk(all, dl, code, i) { ContentEmitted(env, all, dl, os, buf0, i); }
    forall i: nat | i < |all| ensures FieldMeans(all, dl, code, i) { FieldReadBack(c, tr, dl, code, i); }
    forall k, t: nat, j: nat | IsTarget(tr, k, t, j) && IsRelEvent(tr[t]) ensures BranchMeans(c, tr, dl, code, t, j) {
      BranchesMeanTargets(c, tr, dl, os, buf0, env, k, t, j);
    }
    forall k, t: nat, j: nat | IsTarget(tr, k, t, j) && !IsRelEvent(tr[t])
      ensures ImmediateMeans(c, tr, dl, env.base, code, t, j)
    {
      ImmediatesMeanTargets(c, tr, dl, os, buf0, env, k, t, j);
    }
    forall g: int, t: nat | ValidKey(c, LG(g)) && !IsLocal(LG(g)) && t in Pending(tr, LG(g))
      ensures t < |tr| && ForeignMeans(c, tr, dl, env.base, env.globals, code, t, g)
    {
      ForeignEmitted(c, tr, dl, os, buf0, env, t, g);
    }
  }

  lemma LabelOffset(c: Config, tr: Trace, dl: seq<int>, buf0: Buffer, buf: Buffer, j: nat)
    requires var all := Flat(tr, c.nsec); Resolved(c, tr, buf0) && LinkedUpTo(all, dl, buf0, buf, |all|)
    requires j < |tr| && IsLabelEvent(tr[j])
    ensures tr[j].pos in buf && buf[tr[j].pos] >= 0
    ensures exists b: nat :: b < |Flat(tr, c.nsec)| && Flat(tr, c.nsec)[b] == tr[j]
                             && buf[tr[j].pos] == Cursor(Flat(tr, c.nsec), dl, b)
  {
    AcceptedBefore(c, tr, j);
    var b := FlatIndex(tr, c.nsec, j);
    FlatOrdered(c, tr, c.nsec);
    assert LinkStep(Flat(tr, c.nsec), dl, buf0, buf, b);
    OnlyShrinks(Flat(tr, c.nsec), dl, buf0, buf, 0, b);
  }
}
