/**
 The x86 encoding engine of DynASM, part 3: the final order of the code, section after section,
 and the offsets that pass 2 fixes in it.
 */
module DynasmLayout {
  import opened DynasmTrace

  /** Everything recorded in the first `n` sections, in the order of the final code. */
  function Flat(tr: Trace, n: nat): Trace {
    if n == 0 then [] else Flat(tr, n - 1) + Sect(tr, n - 1)
  }

  /** Estimated size of the first `n` sections. */
  function Base(tr: Trace, n: nat): int {
    if n == 0 then 0 else Base(tr, n - 1) + SecOfs(tr, n - 1)
  }

  /** Estimated offset before event `i`. */
  function Est(all: Trace, i: nat): int
    requires i <= |all|
  {
    if i == 0 then 0 else Est(all, i - 1) + EventMax(all[i-1])
  }

  /** The opcode bytes that event `i` patches directly precede it. */
  predicate OpcodesAt(all: Trace, i: nat)
    requires i < |all|
  {
    all[i].what.Act? ==>
      var a := all[i].what.a;
      && (IsRel(a) ==> i >= 1 && all[i-1].what.Act? && IsByte(all[i-1].what.a))
      && (IsRel(a) && ShrinkOf(OpByte(all[i-1].what.a)) == 4 ==>
            i >= 2 && all[i-2].what.Act? && OpByte(all[i-2].what.a) == 0x0f)
      && (IsShortImm(a) ==> i >= 2 && all[i-1].what.Act? && all[i-2].what.Act?
                            && IsByte(all[i-1].what.a) && IsByte(all[i-2].what.a))
  }

  predicate ClosedAt(all: Trace) {
    all == [] || (all[|all|-1].what.Act? && IsEnd(all[|all|-1].what.a))
  }

  /** Sizes are never negative, alignments are powers of two. */
  predicate SizeOk(e: Event) {
    && !e.what.CheckStep?
    && (e.what.Act? && e.what.a.Space? ==> e.what.arg >= 0)
    && (e.what.Act? && e.what.a.Align? ==> IsMask(e.what.a.mask))
  }

  /** A list of events in code order, `base` bytes of estimate before it. */
  predicate Ordered(all: Trace) {
    && (forall i {:trigger SizeOk(all[i])} :: 0 <= i < |all| ==> SizeOk(all[i]))
    && (forall i {:trigger OpcodesAt(all, i)} :: 0 <= i < |all| ==> OpcodesAt(all, i))
    && (forall i :: 0 <= i < |all| - 1 ==> Follows(all[i], all[i+1]))
    && (all != [] ==> all[0].what.Enter?)
  }

  predicate PosOrdered(all: Trace) {
    forall i, j :: 0 <= i < j < |all| ==> all[i].pos + EventSlots(all[i]) <= all[j].pos
  }

  // ---------- one section ----------

  lemma {:induction false} SectMembers(tr: Trace, s: nat)
    ensures forall e :: e in Sect(tr, s) <==> e in tr && InSection(e, s)
  {
    if tr != [] {
      SectMembers(tr[..|tr|-1], s);
      assert tr == tr[..|tr|-1] + [tr[|tr|-1]];
    }
  }

  /** A section that is not closed is the one the trace is busy with. */
  lemma {:induction false} SectLast(c: Config, tr: Trace, s: nat)
    requires TraceOk(c, tr)
    ensures var se := Sect(tr, s);
      && (se != [] && !ClosedAt(se) ==> se[|se|-1] == tr[|tr|-1])
      && (tr != [] && InSection(tr[|tr|-1], s) ==> se != [] && se[|se|-1] == tr[|tr|-1])
  {
    if tr != [] {
      var init := tr[..|tr|-1];
      SectLast(c, init, s);
      SectMembers(init, s);
      if Sect(init, s) != [] { assert Sect(init, s)[|Sect(init, s)|-1] in Sect(init, s); }
    }
  }

  lemma {:induction false} SectOrdered(c: Config, tr: Trace, s: nat)
    requires TraceOk(c, tr)
    ensures Ordered(Sect(tr, s))
  {
    if tr != [] {
      var n := |tr| - 1;
      var init, e := tr[..n], tr[n];
      SectOrdered(c, init, s);
      if InSection(e, s) {
        SectLast(c, init, s);
        SectOpcodes(c, init, e, s);
        var a, b := Sect(init, s), Sect(tr, s);
        assert b == a + [e];
        forall i | 0 <= i < |b| ensures SizeOk(b[i]) && OpcodesAt(b, i) {
          if i < |a| { assert OpcodesAt(a, i); }
        }
        assert a != [] ==> Follows(a[|a|-1], e);
        forall i | 0 <= i < |b| - 1 ensures Follows(b[i], b[i+1]) {
          if i < |a| - 1 { assert Follows(a[i], a[i+1]); }
        }
      }
    }
  }

  lemma SectOpcodes(c: Config, tr: Trace, e: Event, s: nat)
    requires TraceOk(c, tr) && Extends(c, tr, e) && InSection(e, s)
    ensures var se := Sect(tr, s);
      && (se != [] ==> Follows(se[|se|-1], e))
      && (se == [] ==> e.what.Enter?)
      && OpcodesAt(se + [e], |se|)
  {
    var se, n := Sect(tr, s), |tr|;
    SectLast(c, tr, s);
    if e.what.Act? {
      assert InSection(tr[n-1], s) && se == Sect(tr[..n-1], s) + [tr[n-1]];
      if n >= 2 && tr[n-1].what.Act? {
        assert tr[..n-1][n-2] == tr[n-2] && Follows(tr[n-2], tr[n-1]);
        if tr[n-2].what.Act? {
          assert Sect(tr[..n-1], s) == Sect(tr[..n-1][..n-2], s) + [tr[n-2]];
        }
      }
    }
  }

  lemma {:induction false} SectPositions(c: Config, tr: Trace, s: nat)
    requires TraceOk(c, tr)
    ensures PosOrdered(Sect(tr, s))
    ensures forall i :: 0 <= i < |Sect(tr, s)| ==>
              s * SECTION_SIZE <= Sect(tr, s)[i].pos
              && Sect(tr, s)[i].pos + EventSlots(Sect(tr, s)[i]) <= SecPos(tr, s)
  {
    if tr != [] {
      SectPositions(c, tr[..|tr|-1], s);
      SecPosInRange(c, tr[..|tr|-1], s);
    }
  }

  lemma EstPrefix(a: Trace, b: Trace, i: nat)
    requires i <= |a|
    ensures Est(a + b, i) == Est(a, i)
  {
    if i > 0 { EstPrefix(a, b, i - 1); }
  }

  lemma {:induction false} EstConcat(a: Trace, b: Trace, i: nat)
    requires i <= |b|
    ensures Est(a + b, |a| + i) == Est(a, |a|) + Est(b, i)
  {
    if i == 0 {
      EstPrefix(a, b, |a|);
    } else {
      EstConcat(a, b, i - 1);
      assert (a + b)[|a| + i - 1] == b[i-1];
    }
  }

  lemma {:induction false} SectEstimates(c: Config, tr: Trace, s: nat)
    requires TraceOk(c, tr)
    ensures Est(Sect(tr, s), |Sect(tr, s)|) == SecOfs(tr, s)
    ensures forall i :: 0 <= i < |Sect(tr, s)| ==> Sect(tr, s)[i].ofs == Est(Sect(tr, s), i + 1)
  {
    if tr != [] {
      var n := |tr| - 1;
      var a, b := Sect(tr[..n], s), Sect(tr, s);
      SectEstimates(c, tr[..n], s);
      if InSection(tr[n], s) {
        assert b == a + [tr[n]];
        EstPrefix(a, [tr[n]], |a|);
        forall i | 0 <= i < |b| ensures b[i].ofs == Est(b, i + 1) {
          if i < |a| { EstPrefix(a, [tr[n]], i + 1); }
        }
      }
    }
  }

  /** The buffer position of event `j` of a section, or the first free one. */
  function PosAt(tr: Trace, s: nat, j: nat): int
    requires j <= |Sect(tr, s)|
  {
    if j < |Sect(tr, s)| then Sect(tr, s)[j].pos else SecPos(tr, s)
  }

  /** The cells of a section are used without gaps. */
  lemma {:induction false} SectContiguous(c: Config, tr: Trace, s: nat, j: nat)
    requires TraceOk(c, tr) && j <= |Sect(tr, s)|
    ensures j == 0 ==> PosAt(tr, s, j) == s * SECTION_SIZE
    ensures j < |Sect(tr, s)| ==> PosAt(tr, s, j + 1) == PosAt(tr, s, j) + EventSlots(Sect(tr, s)[j])
  {
    if tr != [] {
      var n := |tr| - 1;
      if j <= |Sect(tr[..n], s)| {
        SectContiguous(c, tr[..n], s, j);
      }
    }
  }

  // ---------- all sections ----------

  lemma {:induction false} FlatPrefix(tr: Trace, m: nat, n: nat)
    requires m <= n
    ensures Flat(tr, m) <= Flat(tr, n)
    decreases n
  {
    if m < n { FlatPrefix(tr, m, n - 1); }
  }

  /** Event `j` of section `s` in the whole code. */
  lemma FlatAt(tr: Trace, s: nat, n: nat, j: nat)
    requires s < n && j < |Sect(tr, s)|
    ensures |Flat(tr, s)| + j < |Flat(tr, s + 1)| <= |Flat(tr, n)|
    ensures Flat(tr, n)[|Flat(tr, s)| + j] == Sect(tr, s)[j]
  {
    FlatPrefix(tr, s + 1, n);
    assert Flat(tr, s + 1)[|Flat(tr, s)| + j] == Sect(tr, s)[j];
  }

  lemma {:induction false} FlatMembers(tr: Trace, n: nat)
    ensures forall e :: e in Flat(tr, n) <==> e in tr && !e.what.CheckStep? && e.sec < n
  {
    if n > 0 {
      FlatMembers(tr, n - 1);
      SectMembers(tr, n - 1);
    }
  }

  lemma OrderedConcat(a: Trace, b: Trace)
    requires Ordered(a) && Ordered(b) && ClosedAt(a)
    ensures Ordered(a + b)
  {
    var all := a + b;
    forall i | 0 <= i < |all| ensures SizeOk(all[i]) && OpcodesAt(all, i) {
      if i < |a| { assert OpcodesAt(a, i); } else { assert OpcodesAt(b, i - |a|); }
    }
    forall i | 0 <= i < |all| - 1 ensures Follows(all[i], all[i+1]) {
      if i < |a| - 1 { assert Follows(a[i], a[i+1]); }
      if i >= |a| { assert Follows(b[i - |a|], b[i - |a| + 1]); }
    }
  }

  lemma {:induction false} FlatOrdered(c: Config, tr: Trace, n: nat)
    requires TraceOk(c, tr) && EndsClosed(tr)
    ensures Ordered(Flat(tr, n)) && ClosedAt(Flat(tr, n))
  {
    if n > 0 {
      FlatOrdered(c, tr, n - 1);
      SectOrdered(c, tr, n - 1);
      SectClosed(c, tr, n - 1);
      OrderedConcat(Flat(tr, n - 1), Sect(tr, n - 1));
    }
  }

  lemma SectClosed(c: Config, tr: Trace, s: nat)
    requires TraceOk(c, tr) && EndsClosed(tr)
    ensures ClosedAt(Sect(tr, s))
  {
    var se := Sect(tr, s);
    SectLast(c, tr, s);
    SectMembers(tr, s);
    if se != [] { assert se[|se|-1] in se; }
  }

  lemma {:induction false} FlatPositions(c: Config, tr: Trace, n: nat)
    requires TraceOk(c, tr)
    ensures PosOrdered(Flat(tr, n))
    ensures forall i :: 0 <= i < |Flat(tr, n)| ==>
              0 <= Flat(tr, n)[i].pos && Flat(tr, n)[i].pos + EventSlots(Flat(tr, n)[i]) < n * SECTION_SIZE
  {
    if n > 0 {
      FlatPositions(c, tr, n - 1);
      SectPositions(c, tr, n - 1);
      SecPosInRange(c, tr, n - 1);
    }
  }

  lemma {:induction false} FlatEstimates(c: Config, tr: Trace, n: nat)
    requires TraceOk(c, tr)
    ensures Est(Flat(tr, n), |Flat(tr, n)|) == Base(tr, n)
    ensures forall i :: 0 <= i < |Flat(tr, n)| ==>
              Base(tr, Flat(tr, n)[i].sec) + Flat(tr, n)[i].ofs == Est(Flat(tr, n), i + 1)
  {
    if n > 0 {
      var a, b := Flat(tr, n - 1), Sect(tr, n - 1);
      FlatEstimates(c, tr, n - 1);
      SectEstimates(c, tr, n - 1);
      SectMembers(tr, n - 1);
      EstConcat(a, b, |b|);
      forall i | 0 <= i < |a + b| ensures Base(tr, (a + b)[i].sec) + (a + b)[i].ofs == Est(a + b, i + 1) {
        if i < |a| {
          EstPrefix(a, b, i + 1);
        } else {
          EstConcat(a, b, i - |a| + 1);
          assert b[i - |a|] in b;
        }
      }
    }
  }

  // ---------- walking a section ----------

  /** Event `i` of the whole code lies in section `s` (or just after it) and starts at cell `pos`. */
  predicate Located(tr: Trace, s: nat, i: nat, pos: int) {
    && |Flat(tr, s)| <= i <= |Flat(tr, s + 1)|
    && pos == PosAt(tr, s, i - |Flat(tr, s)|)
  }

  lemma LocatedFirst(c: Config, tr: Trace, s: nat)
    requires TraceOk(c, tr)
    ensures Located(tr, s, |Flat(tr, s)|, s * SECTION_SIZE)
  {
    SectContiguous(c, tr, s, 0);
  }

  /** At the end of a section the position is the first free one, and only there. */
  lemma LocatedLast(c: Config, tr: Trace, n: nat, s: nat, i: nat, pos: int)
    requires TraceOk(c, tr) && Located(tr, s, i, pos) && s < n
    requires i < |Flat(tr, s + 1)| ==> i < |Flat(tr, n)| && Flat(tr, n)[i].what.Enter?
    ensures pos == SecPos(tr, s) <==> i == |Flat(tr, s + 1)|
  {
    if i < |Flat(tr, s + 1)| {
      var j := i - |Flat(tr, s)|;
      FlatAt(tr, s, n, j);
      SectPositions(c, tr, s);
    }
  }

  /** Walking over event `i`: where it is, what it is, and what comes next. */
  lemma LocatedNext(c: Config, tr: Trace, n: nat, s: nat, i: nat, pos: int)
    requires TraceOk(c, tr) && EndsClosed(tr) && s < n
    requires Located(tr, s, i, pos) && i < |Flat(tr, s + 1)|
    ensures i < |Flat(tr, s + 1)| <= |Flat(tr, n)|
    ensures var e := Flat(tr, n)[i];
      && e.sec == s && e.pos == pos && Located(tr, s, i + 1, pos + EventSlots(e))
      && (i == |Flat(tr, s)| ==> e.what.Enter?)
      && !e.what.CheckStep?
  {
    var j := i - |Flat(tr, s)|;
    FlatAt(tr, s, n, j);
    SectContiguous(c, tr, s, j);
    SectMembers(tr, s);
    SectOrdered(c, tr, s);
    assert Sect(tr, s)[j] in Sect(tr, s);
  }

  lemma WhatFollows(c: Config, tr: Trace, n: nat, s: nat, i: nat)
    requires TraceOk(c, tr) && EndsClosed(tr) && s < n
    requires |Flat(tr, s)| <= i < |Flat(tr, s + 1)| <= |Flat(tr, n)|
    ensures var e := Flat(tr, n)[i];
      if e.what.Enter? || (e.what.Act? && !IsEnd(e.what.a)) then
        i + 1 < |Flat(tr, s + 1)| && Follows(e, Flat(tr, n)[i+1])
      else
        i + 1 < |Flat(tr, s + 1)| ==> !Flat(tr, n)[i+1].what.Act?
  {
    var j := i - |Flat(tr, s)|;
    FlatAt(tr, s, n, j);
    SectClosed(c, tr, s);
    SectOrdered(c, tr, s);
    if j + 1 < |Sect(tr, s)| {
      FlatAt(tr, s, n, j + 1);
      assert Follows(Sect(tr, s)[j], Sect(tr, s)[j+1]);
    }
  }
}
