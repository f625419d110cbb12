/**
 Lua patterns, part 6: whole patterns.  A run goes over the elements one after the other, and what the matcher
 answers is the outcome of the run that comes before all others.
 */
module LuaRuns {
  import opened Options
  import opened LuaPattern
  import opened LuaSets
  import opened LuaElements
  import opened LuaMeaning
  import opened LuaMatcher

  // ---------- patterns and their text ----------

  /** A pattern is a list of elements, and a dollar behind them if it has to end with the subject. */
  function PatternText(els: seq<Elem>, dollar: bool): seq<char> {
    if els == [] then if dollar then ['$'] else [] else ElemText(els[0]) + PatternText(els[1..], dollar)
  }

  /** No element is read together with what stands behind it. */
  predicate GoodPattern(els: seq<Elem>, dollar: bool) {
    els != [] ==>
      && GoodElem(els[0]) && GoodBehind(els[0], At(PatternText(els[1..], dollar), 0))
      && GoodPattern(els[1..], dollar)
  }

  /** The pattern goes on at `p` with these elements and ends behind them. */
  predicate PatternAt(t: seq<char>, p: nat, els: seq<Elem>, dollar: bool) {
    GoodPattern(els, dollar) && TextAt(t, p, PatternText(els, dollar)) && p + |PatternText(els, dollar)| == |t|
  }

  lemma AtBehind(t: seq<char>, p: nat, u: seq<char>)
    requires TextAt(t, p, u) && p + |u| == |t|
    ensures At(t, p) == At(u, 0)
  {
    if u != [] { assert t[p] == t[p..p + |u|][0]; }
  }

  lemma HeadText(t: seq<char>, p: nat, n: nat, u: seq<char>, rest: seq<char>)
    requires TextAt(t, p, u + rest) && p + |u + rest| == |t| && n == p + |u|
    ensures TextAt(t, p, u) && TextAt(t, n, rest) && n + |rest| == |t| && At(t, n) == At(rest, 0)
  {
    TextSplit(t, p, u, rest);
    AtBehind(t, n, rest);
  }

  /** The text of the first element stands at `p`, and the rest of the pattern at `n`. */
  lemma HeadParts(t: seq<char>, p: nat, n: nat, els: seq<Elem>, dollar: bool)
    requires PatternAt(t, p, els, dollar) && els != [] && n == p + |ElemText(els[0])|
    ensures TextAt(t, p, ElemText(els[0])) && TextAt(t, n, PatternText(els[1..], dollar))
    ensures n + |PatternText(els[1..], dollar)| == |t| && At(t, n) == At(PatternText(els[1..], dollar), 0)
  {
    HeadText(t, p, n, ElemText(els[0]), PatternText(els[1..], dollar));
  }

  lemma HeadStands(t: seq<char>, p: nat, n: nat, el: Elem, c: char)
    requires TextAt(t, p, ElemText(el)) && n == p + |ElemText(el)| && At(t, n) == c
    requires GoodElem(el) && GoodBehind(el, c)
    ensures Stands(t, p, el)
  {
  }

  lemma PatternHead(t: seq<char>, p: nat, n: nat, els: seq<Elem>, dollar: bool)
    requires PatternAt(t, p, els, dollar) && els != [] && n == p + |ElemText(els[0])|
    ensures Stands(t, p, els[0]) && PatternAt(t, n, els[1..], dollar)
  {
    HeadParts(t, p, n, els, dollar);
    HeadStands(t, p, n, els[0], At(PatternText(els[1..], dollar), 0));
  }

  // ---------- runs ----------

  /** A run over the elements: the states it passes, up to the end of the pattern or to an error, and its outcome. */
  predicate Run(e: Env, els: seq<Elem>, dollar: bool, sts: seq<St>, out: Parse) {
    && sts != []
    && if els == [] then |sts| == 1 && out == Success(sts[0]) && (dollar ==> sts[0].s == |e.src|)
       else if Fails(els[0], sts[0]) then |sts| == 1 && out == Failure
       else |sts| > 1 && Moves(e, els[0], sts[0], sts[1]) && Run(e, els[1..], dollar, sts[1..], out)
  }

  /** One run comes before another: the first element at which they part prefers its state. */
  predicate Before(els: seq<Elem>, a: seq<St>, b: seq<St>) {
    && els != [] && |a| > 1 && |b| > 1
    && (Prefers(els[0], a[1], b[1]) || (a[1] == b[1] && Before(els[1..], a[1..], b[1..])))
  }

  ghost predicate NoRun(e: Env, els: seq<Elem>, dollar: bool, st: St) {
    forall o: seq<St>, r: Parse :: Run(e, els, dollar, o, r) ==> o[0] != st
  }

  /** This run from `st` comes before all others. */
  ghost predicate First(e: Env, els: seq<Elem>, dollar: bool, st: St, sts: seq<St>, out: Parse) {
    && Run(e, els, dollar, sts, out) && sts[0] == st
    && forall o: seq<St>, r: Parse :: Run(e, els, dollar, o, r) && o[0] == st ==> o == sts || Before(els, sts, o)
  }

  /** The states that a run passes settle its outcome. */
  lemma {:induction false} OneOutcome(e: Env, els: seq<Elem>, dollar: bool, sts: seq<St>, a: Parse, b: Parse)
    requires Run(e, els, dollar, sts, a) && Run(e, els, dollar, sts, b)
    ensures a == b
    decreases |els|
  {
    if els != [] && !Fails(els[0], sts[0]) { OneOutcome(e, els[1..], dollar, sts[1..], a, b); }
  }

  lemma {:induction false} BeforeOnce(els: seq<Elem>, a: seq<St>, b: seq<St>)
    requires Before(els, a, b)
    ensures !Before(els, b, a)
    decreases |els|
  {
    if a[1] == b[1] && Before(els[1..], a[1..], b[1..]) { BeforeOnce(els[1..], a[1..], b[1..]); }
  }

  /** There is only one first run. */
  lemma OneFirst(e: Env, els: seq<Elem>, dollar: bool, st: St, a: seq<St>, x: Parse, b: seq<St>, y: Parse)
    requires First(e, els, dollar, st, a, x) && First(e, els, dollar, st, b, y)
    ensures a == b && x == y
  {
    if a != b {
      BeforeOnce(els, a, b);
    } else {
      OneOutcome(e, els, dollar, a, x, y);
    }
  }

  // ---------- the list of parses ----------

  /** The alternative that decides. */
  lemma {:induction false} Deciding(e: Env, p: nat, sts: seq<St>) returns (k: nat)
    ensures k <= |sts| && forall j :: 0 <= j < k ==> All(e, p, sts[j]) == []
    ensures k == |sts| ==> AllOf(e, p, sts) == []
    ensures k < |sts| ==>
        All(e, p, sts[k]) != [] && AllOf(e, p, sts) != [] && AllOf(e, p, sts)[0] == All(e, p, sts[k])[0]
  {
    k := 0;
    if sts != [] && All(e, p, sts[0]) == [] {
      var j := Deciding(e, p, sts[1..]);
      k := j + 1;
      assert forall i :: 0 < i < k ==> sts[i] == sts[1..][i - 1];
    }
  }

  lemma MovesInside(e: Env, el: Elem, st: St, st': St)
    requires Moves(e, el, st, st') && st.s <= |e.src|
    ensures st'.s <= |e.src|
  {
  }

  /** What the code does at an element of a pattern. */
  lemma AllStep(e: Env, p: nat, n: nat, el: Elem, st: St, i: Item)
    requires ItemAt(e.pat, p) == i && Goes(i) && Next(e.pat, i) == n && (i.Single? ==> i.ep > 0)
        && (i.Frontier? ==> i.next > 0)
    requires StepMeans(e, el, st, Step(e, i, st))
    ensures Fails(el, st) ==> All(e, p, st) == [Failure]
    ensures !Fails(el, st) ==>
      Step(e, i, st).Some? && Lists(e, el, st, Step(e, i, st).value)
          && All(e, p, st) == AllOf(e, n, Step(e, i, st).value)
  {
  }

  lemma AllAt(e: Env, p: nat, n: nat, els: seq<Elem>, dollar: bool, st: St) returns (sts: seq<St>)
    requires PatternAt(e.pat, p, els, dollar) && els != [] && st.s <= |e.src| && n == p + |ElemText(els[0])|
    ensures PatternAt(e.pat, n, els[1..], dollar)
    ensures Fails(els[0], st) ==> All(e, p, st) == [Failure]
    ensures !Fails(els[0], st) ==> Lists(e, els[0], st, sts) && All(e, p, st) == AllOf(e, n, sts)
  {
    var i := ItemOf(els[0], p);
    PatternHead(e.pat, p, n, els, dollar);
    ItemStands(e.pat, p, els[0]);
    ElemMeans(e, p, els[0], st, i);
    AllStep(e, p, n, els[0], st, i);
    var r := Step(e, i, st);
    sts := if r.Some? then r.value else [];
  }

  /** The end of a pattern. */
  lemma AllEnd(e: Env, p: nat, dollar: bool, st: St)
    requires PatternAt(e.pat, p, [], dollar)
    ensures All(e, p, st) == if dollar && st.s != |e.src| then [] else [Success(st)]
  {
    AtBehind(e.pat, p, PatternText([], dollar));
  }

  /** The list of parses decides by its first entry. */
  ghost predicate Decides(e: Env, all: seq<Parse>, els: seq<Elem>, dollar: bool, st: St) {
    if all == [] then NoRun(e, els, dollar, st)
    else exists sts: seq<St> :: First(e, els, dollar, st, sts, all[0])
  }

  lemma EndDecides(e: Env, all: seq<Parse>, dollar: bool, st: St)
    requires all == if dollar && st.s != |e.src| then [] else [Success(st)]
    ensures Decides(e, all, [], dollar, st)
  {
    if all != [] { assert First(e, [], dollar, st, [st], all[0]); }
  }

  lemma ErrorDecides(e: Env, els: seq<Elem>, dollar: bool, st: St)
    requires els != [] && Fails(els[0], st)
    ensures Decides(e, [Failure], els, dollar, st)
  {
    forall o: seq<St>, r: Parse | Run(e, els, dollar, o, r) && o[0] == st ensures o == [st] {}
    assert [Failure][0] == Failure && First(e, els, dollar, st, [st], Failure);
  }

  /** A run that goes on takes one of the alternatives. */
  lemma Alternative(e: Env, els: seq<Elem>, dollar: bool, sts: seq<St>, o: seq<St>, r: Parse) returns (j: nat)
    requires Run(e, els, dollar, o, r) && els != [] && !Fails(els[0], o[0]) && Lists(e, els[0], o[0], sts)
    ensures j < |sts| && |o| > 1 && sts[j] == o[1] == o[1..][0] && Run(e, els[1..], dollar, o[1..], r)
  {
    assert o[1] in sts;
    j :| 0 <= j < |sts| && sts[j] == o[1];
  }

  /** No alternative leads anywhere. */
  lemma NoneDecides(e: Env, els: seq<Elem>, dollar: bool, st: St, sts: seq<St>)
    requires els != [] && !Fails(els[0], st) && Lists(e, els[0], st, sts)
    requires forall j :: 0 <= j < |sts| ==> NoRun(e, els[1..], dollar, sts[j])
    ensures NoRun(e, els, dollar, st)
  {
    forall o: seq<St>, r: Parse | Run(e, els, dollar, o, r) ensures o[0] != st {
      if o[0] == st { var j := Alternative(e, els, dollar, sts, o, r); }
    }
  }

  /** Alternative `k` is the first that leads anywhere, and `rest` is the first run from there. */
  lemma OneDecides(e: Env, els: seq<Elem>, dollar: bool, st: St, sts: seq<St>, k: nat, rest: seq<St>, out: Parse)
    requires els != [] && !Fails(els[0], st) && Lists(e, els[0], st, sts) && k < |sts|
    requires forall j :: 0 <= j < k ==> NoRun(e, els[1..], dollar, sts[j])
    requires First(e, els[1..], dollar, sts[k], rest, out)
    ensures First(e, els, dollar, st, [st] + rest, out)
  {
    var a := [st] + rest;
    assert a[1..] == rest && a[1] == sts[k] && sts[k] in sts;
    forall o: seq<St>, r: Parse | Run(e, els, dollar, o, r) && o[0] == st ensures o == a || Before(els, a, o) {
      var j := Alternative(e, els, dollar, sts, o, r);
      assert j >= k;
      if j == k && o[1..] == rest { assert o == [o[0]] + o[1..]; }
    }
  }

  /** From every state, the first entry of the list of parses is the outcome of the first run. */
  lemma {:induction false} ParsesDecide(e: Env, p: nat, els: seq<Elem>, dollar: bool, st: St)
    requires PatternAt(e.pat, p, els, dollar) && st.s <= |e.src|
    ensures Decides(e, All(e, p, st), els, dollar, st)
    decreases |els|
  {
    if els == [] {
      AllEnd(e, p, dollar, st);
      EndDecides(e, All(e, p, st), dollar, st);
      return;
    }
    var n := p + |ElemText(els[0])|;
    var sts := AllAt(e, p, n, els, dollar, st);
    if Fails(els[0], st) {
      ErrorDecides(e, els, dollar, st);
      return;
    }
    forall j | 0 <= j < |sts| ensures Decides(e, All(e, n, sts[j]), els[1..], dollar, sts[j]) {
      assert sts[j] in sts;
      MovesInside(e, els[0], st, sts[j]);
      ParsesDecide(e, n, els[1..], dollar, sts[j]);
    }
    AlternativesDecide(e, n, els, dollar, st, sts);
  }

  lemma AlternativesDecide(e: Env, n: nat, els: seq<Elem>, dollar: bool, st: St, sts: seq<St>)
    requires els != [] && !Fails(els[0], st) && Lists(e, els[0], st, sts)
    requires forall j :: 0 <= j < |sts| ==> Decides(e, All(e, n, sts[j]), els[1..], dollar, sts[j])
    ensures Decides(e, AllOf(e, n, sts), els, dollar, st)
  {
    var k := Deciding(e, n, sts);
    if k == |sts| {
      NoneDecides(e, els, dollar, st, sts);
    } else {
      var out := All(e, n, sts[k])[0];
      var rest: seq<St> :| First(e, els[1..], dollar, sts[k], rest, out);
      OneDecides(e, els, dollar, st, sts, k, rest, out);
    }
  }

  // ---------- the matcher ----------

  /** What the matcher answers for a pattern of elements. */
  lemma AnswerMeans(e: Env, p: nat, els: seq<Elem>, dollar: bool, s: nat, r: Outcome, caps: seq<Capture>,
      caps': seq<Capture>)
    requires PatternAt(e.pat, p, els, dollar) && s <= |e.src| && Answers(All(e, p, St(s, caps)), r, caps, caps')
    ensures match r
      case Null => NoRun(e, els, dollar, St(s, caps)) && caps' == caps
      case Found(t) => exists sts: seq<St> :: First(e, els, dollar, St(s, caps), sts, Success(St(t, caps')))
      case Error => exists sts: seq<St> :: First(e, els, dollar, St(s, caps), sts, Failure)
      case TooDeep => true
  {
    ParsesDecide(e, p, els, dollar, St(s, caps));
  }
}
