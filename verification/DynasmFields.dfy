/**
 The x86 encoding engine of DynASM: what a processor reads back from the fields of the code, and by that which
 actions pass 1 accepts and what it records.
 */
module DynasmFields {
  import opened DynasmTrace
  import opened DynasmPass1
  import opened DynasmLayout
  import opened DynasmLink

  function UnsignedWord(b0: byte, b1: byte): int { b0 as int + 256 * b1 }

  // ---------- reading a field ----------

  /** Of what `bytes` denote in the field of the immediate `a`, one reading is the value `v`. */
  predicate Reads(a: Action, bytes: Code, v: int) {
    match a
    case ImmS => ReadsSigned8(bytes, v)
    case ImmB => |bytes| == 1 && v == bytes[0]
    case ImmW => ReadsWord(bytes, v)
    case ImmD => ReadsDword(bytes, v)
    case ImmWB => ReadsSigned8(bytes, v) || ReadsWord(bytes, v)
    case ImmDB => ReadsSigned8(bytes, v) || ReadsDword(bytes, v)
    case Space(fill) => |bytes| == v && forall k :: 0 <= k < |bytes| ==> bytes[k] == fill
    case _ => false
  }

  predicate ReadsSigned8(bytes: Code, v: int) { |bytes| == 1 && v == SignedByte(bytes[0]) }

  predicate ReadsWord(bytes: Code, v: int) { |bytes| == 2 && v == UnsignedWord(bytes[0], bytes[1]) }

  predicate ReadsDword(bytes: Code, v: int) {
    |bytes| == 4 && v == SignedDword(bytes[0], bytes[1], bytes[2], bytes[3])
  }

  // ---------- which actions are accepted ----------

  /** An immediate is accepted exactly if some bytes in its field are read as its argument, a C integer. */
  lemma ImmediateAccepted(c: Config, tr: Trace, p: nat, a: Action, arg: int)
    requires IsImm(a) && !a.Space? && FitsDword(arg)
    ensures Check(c, tr, p, a, arg) == OK <==> exists bytes: Code :: Reads(a, bytes, arg)
    ensures Check(c, tr, p, a, arg) != OK ==> Check(c, tr, p, a, arg) == RangeI(p)
  {
    if Check(c, tr, p, a, arg) == OK {
      FieldReads(a, arg);
    } else if bytes: Code :| Reads(a, bytes, arg) {
      assert false;
    }
  }

  /** The bytes that are written for an immediate are read back as its argument. */
  lemma FieldReads(a: Action, arg: int)
    requires IsImm(a) && (a.Space? ==> arg >= 0) && (a.ImmD? || a.ImmDB? ==> FitsDword(arg))
    requires a.ImmS? ==> FitsSignedByte(arg)
    requires a.ImmB? ==> 0 <= arg < 256
    requires a.ImmW? || (a.ImmWB? && !FitsSignedByte(arg)) ==> 0 <= arg < 65536
    ensures Reads(a, ImmBytes(a, arg), arg)
  {
    if FitsSignedByte(arg) { ByteRoundTrip(arg); }
    if FitsDword(arg) { DwordRoundTrip(arg); }
    if 0 <= arg < 65536 { WordRoundTrip(arg); }
  }

  lemma WordRoundTrip(n: int)
    requires 0 <= n < 65536
    ensures var w := Word(n); UnsignedWord(w[0], w[1]) == n
  {
    assert Bytes(n / 256, 1) == [Low(n / 256)];
  }

  /** The bytes of an immediate with argument `n`. */
  function ImmBytes(a: Action, n: int): Code
    requires IsImm(a) && (a.Space? ==> n >= 0)
  {
    if a.ImmS? || a.ImmB? || (IsShortImm(a) && FitsSignedByte(n)) then [Low(n)]
    else if a.ImmW? || a.ImmWB? then Word(n)
    else if a.Space? then Fill(n, a.fill)
    else Dword(n)
  }

  /** The ranges that acceptance stands for. */
  lemma AcceptedFits(c: Config, tr: Trace, p: nat, a: Action, arg: int)
    requires IsImm(a) && Check(c, tr, p, a, arg) == OK && (a.Space? ==> arg >= 0)
    ensures a.ImmD? || a.ImmDB? ==> FitsDword(arg) ==> Reads(a, ImmBytes(a, arg), arg)
    ensures !a.ImmD? && !a.ImmDB? ==> Reads(a, ImmBytes(a, arg), arg)
  {
    if (a.ImmD? || a.ImmDB?) ==> FitsDword(arg) { FieldReads(a, arg); }
  }

  /**
   A label is accepted exactly if it has a cell in the label arrays; for a backward reference to a local label a
   definition must be visible, too.
   */
  lemma LabelAccepted(c: Config, tr: Trace, p: nat, a: Action, arg: int, lg: seq<int>, pc: seq<int>)
    requires IsRel(a) || IsImmLabel(a) || IsLabel(a)
    requires TraceOk(c, tr) && |lg| == c.nlg >= 10 && |pc| == c.npc
    ensures var e, k := Event(0, 0, Act(p, a, arg), 0), LabelOf(a, arg).0;
      && (RefersTo(e, k) || Defines(e, k))
      && (Check(c, tr, p, a, arg) == OK <==>
            && HasCell(lg, pc, k)
            && (RefersTo(e, k) && IsLocal(k) && !IsForwardLocal(e) ==>
                  exists j :: 0 <= j < |tr| && Defines(tr[j], k) && Visible(tr, k) == j))
  {
    var k := LabelOf(a, arg).0;
    VisibleIsLatest(c, tr, k);
  }

  lemma SectionAccepted(c: Config, tr: Trace, p: nat, n: byte, secpos: seq<int>)
    requires |secpos| == c.nsec
    ensures Check(c, tr, p, Section(n), 0) == OK <==> 0 <= n < |secpos|
    ensures Check(c, tr, p, Section(n), 0) != OK ==> Check(c, tr, p, Section(n), 0) == RangeSec(p)
  {
  }

  // ---------- what a call records ----------

  /** The arguments that a stretch of events has taken. */
  function Taken(events: Trace): seq<int> {
    if events == [] then []
    else
      var w := events[0].what;
      (if w.Act? && TakesArg(w.a) then [w.arg] else []) + Taken(events[1..])
  }

  /** A call only adds to the trace. */
  lemma {:induction false} CallAdds(c: Config, tr: Trace, sec: nat, start: nat, p: nat, args: seq<int>, room: int)
    requires Runnable(c.al, start, p, args, room) && Replay(c, tr, sec, start, p, args, room).Accepted?
    ensures var r := Replay(c, tr, sec, start, p, args, room);
      |tr| < |r.tr| && r.tr[..|tr|] == tr && p + (|r.tr| - |tr|) <= |c.al|
    decreases |c.al| - p
  {
    var a, arg := c.al[p], FirstArg(c.al[p], args);
    var tr' := tr + [EventFor(tr, sec, Act(p, a, arg))];
    assert tr'[..|tr|] == tr;
    if !IsEnd(a) {
      CallAdds(c, tr', sec, start, p + 1, RestArgs(a, args), room - Slots(a));
      var r := Replay(c, tr, sec, start, p, args, room);
      assert r.tr[..|tr|] == r.tr[..|tr'|][..|tr|];
    }
  }

  /** Event `k` of a call is the action `k` after the one it starts with; the call ends with the first end marker. */
  lemma {:induction false} CallAction(c: Config, tr: Trace, sec: nat, start: nat, p: nat, args: seq<int>, room: int,
                                      k: nat)
    requires Runnable(c.al, start, p, args, room) && Replay(c, tr, sec, start, p, args, room).Accepted?
    requires k < |Replay(c, tr, sec, start, p, args, room).tr| - |tr|
    ensures var r := Replay(c, tr, sec, start, p, args, room);
      && p + k < |c.al|
      && r.tr[|tr|+k].sec == sec && r.tr[|tr|+k].what.Act?
      && r.tr[|tr|+k].what.p == p + k && r.tr[|tr|+k].what.a == c.al[p+k]
      && (IsEnd(c.al[p+k]) <==> k == |r.tr| - |tr| - 1)
      && (k == |r.tr| - |tr| - 1 ==> r.next == if c.al[p+k].Section? then c.al[p+k].n else sec)
    decreases |c.al| - p
  {
    var a, arg := c.al[p], FirstArg(c.al[p], args);
    var tr', r := tr + [EventFor(tr, sec, Act(p, a, arg))], Replay(c, tr, sec, start, p, args, room);
    if !IsEnd(a) {
      CallAdds(c, tr', sec, start, p + 1, RestArgs(a, args), room - Slots(a));
      if k > 0 {
        CallAction(c, tr', sec, start, p + 1, RestArgs(a, args), room - Slots(a), k - 1);
      } else {
        assert r.tr[|tr|] == r.tr[..|tr'|][|tr|] == tr'[|tr|];
      }
    }
  }

  /** The actions of a call that take arguments are given those of the call, in order. */
  lemma {:induction false} CallArguments(c: Config, tr: Trace, sec: nat, start: nat, p: nat, args: seq<int>, room: int)
    requires Runnable(c.al, start, p, args, room) && Replay(c, tr, sec, start, p, args, room).Accepted?
    ensures var r := Replay(c, tr, sec, start, p, args, room);
      |tr| < |r.tr| && Taken(r.tr[|tr|..]) <= args
    decreases |c.al| - p
  {
    var a, arg := c.al[p], FirstArg(c.al[p], args);
    var e := EventFor(tr, sec, Act(p, a, arg));
    var tr', r := tr + [e], Replay(c, tr, sec, start, p, args, room);
    if IsEnd(a) {
      assert r.tr[|tr|..] == [e];
      assert [e] == [e] + [];
      TakenCons(e, [], args);
    } else {
      CallAdds(c, tr', sec, start, p + 1, RestArgs(a, args), room - Slots(a));
      CallArguments(c, tr', sec, start, p + 1, RestArgs(a, args), room - Slots(a));
      Cut(tr, e, r.tr);
      TakenCons(e, r.tr[|tr'|..], args);
    }
  }

  lemma Cut(tr: Trace, e: Event, t: Trace)
    requires |tr| < |t| && t[..|tr| + 1] == tr + [e]
    ensures t[|tr|..] == [e] + t[|tr| + 1..]
  {
    assert t[|tr|] == t[..|tr| + 1][|tr|];
  }

  lemma TakenCons(e: Event, rest: Trace, args: seq<int>)
    requires e.what.Act? && (TakesArg(e.what.a) ==> args != []) && e.what.arg == FirstArg(e.what.a, args)
    requires Taken(rest) <= RestArgs(e.what.a, args)
    ensures Taken([e] + rest) <= args
  {
    assert ([e] + rest)[1..] == rest;
  }

  // ---------- branches that stay long ----------

  /** The opcode bytes that have a short form: a jump, and the second byte of a conditional one. */
  predicate HasShortForm(op: int) { op == 0xe9 || 0x80 <= op <= 0x8f }

  /** The displacement that branch `i` to label `b` would have as a short one, under the estimates of pass 2. */
  function ShortDisplacement(all: Trace, dl: seq<int>, i: nat, b: nat): int
    requires i < |all| && b < |all| && i < |dl| && (b < i ==> b < |dl|)
  {
    if b > i then
      Est(all, b) - Est(all, i + 1)
    else
      Cursor(all, dl, b) - (Est(all, i + 1) + dl[i] - if Opcode(all, i) == 0xe9 then 3 else 4)
  }

  /** A branch that could be short stays long only if its short displacement would not fit a byte, as far as known. */
  lemma LongOnlyIfNeeded(all: Trace, dl: seq<int>, buf: Buffer, buf': Buffer, code: Code, i: nat, b: nat)
    requires LinkedUpTo(all, dl, buf, buf', |all|) && Ordered(all)
    requires BranchGoes(all, dl, code, i, b) && i != b && IsRelEvent(all[i]) && HasShortForm(Opcode(all, i))
    ensures dl[i] == dl[i+1] <==> !FitsSignedByte(ShortDisplacement(all, dl, i, b))
  {
    assert OpcodesAt(all, i) && SizeOk(all[i]);
    assert Est(all, i + 1) == Est(all, i) + 4;
    if b > i {
      OnlyShrinks(all, dl, buf, buf', i + 1, b);
    } else {
      OnlyShrinks(all, dl, buf, buf', b, i);
    }
  }
}
