/**
 The x86 encoding engine of DynASM: inputs that its interface allows and its code does not handle, with the
 conditions under which it does.
 */
module DynasmLimits {
  import opened DynasmTrace
  import opened DynasmLink

  // ---------- backward references ----------

  /** The actions of `1: jmp >1; jmp <1`. */
  function TwoJumps(): seq<Action> { [LabelLG(1), Esc(0xe9), RelLG(247), Esc(0xe9), RelLG(1), Stop] }

  lemma TwoJumpsRunnable()
    ensures var al := TwoJumps();
      && Runnable(al, 0, 4, [], 21) && Runnable(al, 0, 3, [], 21) && Runnable(al, 0, 2, [], 23)
      && Runnable(al, 0, 1, [], 23) && Runnable(al, 0, 0, [], 24)
  {
    var al := TwoJumps();
    assert Runnable(al, 0, 5, [], 19);
    assert Runnable(al, 0, 4, [], 21);
    assert Runnable(al, 0, 3, [], 21);
    assert Runnable(al, 0, 2, [], 23);
  }

  /** After the forward reference no definition is visible, so the backward one is refused. */
  lemma SecondJumpRefused(c: Config, tr: Trace)
    requires c.al == TwoJumps() && c.nlg >= 10 && Runnable(c.al, 0, 2, [], 23)
    ensures Replay(c, tr, 0, 0, 2, [], 23) == Rejected(RangeLG(4))
  {
    var e3 := EventFor(tr, 0, Act(2, RelLG(247), 0));
    Snoc(tr, e3);
    var tr3 := tr + [e3];
    assert Visible(tr3, LG(1)) == -1;
    var e4 := EventFor(tr3, 0, Act(3, Esc(0xe9), 0));
    Snoc(tr3, e4);
    var tr4 := tr3 + [e4];
    assert Visible(tr4, LG(1)) == -1;
    TwoJumpsRunnable();
    assert Check(c, tr4, 4, RelLG(1), 0) == RangeLG(4);
    assert Replay(c, tr4, 0, 0, 4, [], 21) == Rejected(RangeLG(4));
    assert Replay(c, tr3, 0, 0, 3, [], 21) == Rejected(RangeLG(4));
  }

  /**
   An earlier definition does not suffice for a backward reference: assembling `1: jmp >1; jmp <1` stops at
   the last reference, although its label has been defined before it.
   */
  lemma EarlierDefinitionNotEnough(c: Config)
    requires c.al == TwoJumps() && c.nlg >= 10 && c.nsec > 0
    ensures Callable(c, [], 0, [Call(0, [])]) && Run(c, [], 0, [Call(0, [])]) == Rejected(RangeLG(4))
  {
    TwoJumpsRunnable();
    FirstJumpTaken(c, [] + [EventFor([], 0, Enter(0))]);
    OneCall(c);
  }

  lemma FirstJumpTaken(c: Config, tr: Trace)
    requires c.al == TwoJumps() && c.nlg >= 10 && Runnable(c.al, 0, 0, [], 24)
    ensures Replay(c, tr, 0, 0, 0, [], 24) == Rejected(RangeLG(4))
  {
    TwoJumpsRunnable();
    var tr1 := tr + [EventFor(tr, 0, Act(0, LabelLG(1), 0))];
    SecondJumpRefused(c, tr1 + [EventFor(tr1, 0, Act(1, Esc(0xe9), 0))]);
    assert Replay(c, tr1, 0, 0, 1, [], 23) == Rejected(RangeLG(4));
  }

  /** A run of a single call that is rejected. */
  lemma OneCall(c: Config)
    requires Runnable(c.al, 0, 0, [], DASM_MAXSECPOS - 1) && Record(c, [], 0, 0, []).Rejected?
    ensures var calls := [Call(0, [])];
      Callable(c, [], 0, calls) && Run(c, [], 0, calls) == Record(c, [], 0, 0, [])
  {
  }

  // ---------- the number of sections ----------

  /** Buffer positions are 32-bit signed integers. */
  predicate FitsInt(pos: int) { 0 <= pos < 0x8000_0000 }

  /** Up to 128 sections, every position fits. */
  lemma PositionsFit(c: Config, tr: Trace, i: nat)
    requires TraceOk(c, tr) && i < |tr| && c.nsec <= MAX_SECTIONS
    ensures !tr[i].what.CheckStep? ==> FitsInt(tr[i].pos)
  {
    if !tr[i].what.CheckStep? {
      PosBelow(c, tr, i);
      AcceptedBefore(c, tr, i);
    }
  }

  /** A switch to section 128, and then a label. */
  function LateLabel(): seq<Action> { [Section(128), LabelLG(10), Stop] }

  /** With one section more, a label is accepted whose position does not fit. */
  lemma SectionTooHigh(c: Config)
    requires c.al == LateLabel() && c.nlg > 10 && c.nsec > MAX_SECTIONS
    ensures var calls := [Call(0, []), Call(1, [])];
      && Callable(c, [], 0, calls) && Run(c, [], 0, calls).Accepted?
      && var tr := Run(c, [], 0, calls).tr;
         |tr| > 3 && Defines(tr[3], LG(10)) && !FitsInt(tr[3].pos)
  {
    var calls := [Call(0, []), Call(1, [])];
    var tr0 := [EventFor([], 0, Enter(0))];
    var tr1 := tr0 + [EventFor(tr0, 0, Act(0, Section(128), 0))];
    assert [] + [EventFor([], 0, Enter(0))] == tr0;
    assert Runnable(c.al, 0, 0, [], 24) && Runnable(c.al, 1, 2, [], 23) && Runnable(c.al, 1, 1, [], 24);
    assert Record(c, [], 0, 0, []) == Accepted(tr1, 128);
    Snoc(tr0, EventFor(tr0, 0, Act(0, Section(128), 0)));
    assert tr0[..0] == [];
    assert SecPos(tr0, 128) == SecPos([], 128);
    assert SecPos(tr1, 128) == 128 * SECTION_SIZE;
    var tr2 := tr1 + [EventFor(tr1, 128, Enter(1))];
    var tr3 := tr2 + [EventFor(tr2, 128, Act(1, LabelLG(10), 0))];
    Snoc(tr1, EventFor(tr1, 128, Enter(1)));
    var tr4 := tr3 + [EventFor(tr3, 128, Act(2, Stop, 0))];
    assert Replay(c, tr3, 128, 1, 2, [], 23) == Accepted(tr4, 128);
    assert Record(c, tr1, 128, 1, []) == Accepted(tr4, 128);
    assert calls[1..] == [Call(1, [])] && calls[1..][1..] == [];
    assert Callable(c, tr4, 128, []);
    assert Callable(c, tr1, 128, [Call(1, [])]);
  }
}
