/**
 Lua patterns, part 5: what each element of a pattern may do.  The answer of the matcher is the outcome of the
 one run over the elements that comes first in the order of preference.
 */
module LuaMeaning {
  import opened Options
  import opened LuaPattern
  import opened LuaSets
  import opened LuaElements

  // ---------- what an element may do ----------

  /** How often the character class of an element may occur. */
  predicate CountOk(n: Times, k: nat) {
    match n
    case Once => k == 1
    case Optional => k <= 1
    case Greedy => true
    case GreedyOne => k >= 1
    case Lazy => true
  }

  /** All characters from `s` up to `s'` are of this kind. */
  predicate AllFit(e: Env, k: Kind, s: nat, s': nat)
    requires s' <= |e.src|
  {
    forall i :: s <= i < s' ==> FitsKind(e.cls, e.src[i], k)
  }

  /** Capture `l` is the innermost one that is still open. */
  predicate Innermost(caps: seq<Capture>, l: nat) {
    l < |caps| && caps[l].len == UNFINISHED && forall j :: l < j < |caps| ==> caps[j].len != UNFINISHED
  }

  /** The delimiters from `s` up to `j` do not balance. */
  predicate StillOpen(e: Env, s: nat, j: nat, b: char, x: char)
    requires s < j <= |e.src|
  {
    1 + Nesting(e, s + 1, j, b, x) > 0
  }

  /** The delimiters from `s` on balance at `s'` and not before. */
  predicate Balances(e: Env, s: nat, s': nat, b: char, x: char) {
    && s < s' <= |e.src| && e.src[s] == b && 1 + Nesting(e, s + 1, s', b, x) == 0
    && forall j :: s < j < s' ==> StillOpen(e, s, j, b, x)
  }

  /** The `n` characters from `i` on are those from `j` on. */
  predicate SameText(t: seq<char>, i: nat, j: nat, n: int) {
    i + n <= |t| && j + n <= |t| && (n > 0 ==> t[i..i + n] == t[j..j + n])
  }

  /** The element leads from one state to another. */
  predicate Moves(e: Env, el: Elem, st: St, st': St) {
    match el
    case Chars(k, n) =>
      && st'.caps == st.caps && st.s <= st'.s <= |e.src|
      && CountOk(n, st'.s - st.s) && AllFit(e, k, st.s, st'.s)
    case Start => st' == St(st.s, st.caps + [Capture(st.s, UNFINISHED)])
    case Position => st' == St(st.s, st.caps + [Capture(st.s, POSITION)])
    case Stop =>
      exists l: nat | l < |st.caps| :: Innermost(st.caps, l)
        && st' == St(st.s, st.caps[l := Capture(st.caps[l].init, st.s - st.caps[l].init)])
    case Balanced(b, x) => st'.caps == st.caps && Balances(e, st.s, st'.s, b, x)
    case Border(negated, items) =>
      && st' == st && Fits(e.cls, At(e.src, st.s), negated, items)
      && !Fits(e.cls, if 0 < st.s <= |e.src| then e.src[st.s - 1] else '\0', negated, items)
    case Earlier(d) =>
      var l := d as int - '1' as int;
      && 0 <= l < |st.caps| && st'.caps == st.caps && st.s <= st'.s == st.s + st.caps[l].len
      && SameText(e.src, st.caps[l].init, st.s, st.caps[l].len)
  }

  /** The element is an error in this state. */
  predicate Fails(el: Elem, st: St) {
    match el
    case Start => |st.caps| >= MAXCAPTURES
    case Position => |st.caps| >= MAXCAPTURES
    case Stop => forall l :: 0 <= l < |st.caps| ==> st.caps[l].len != UNFINISHED
    case Earlier(d) =>
      var l := d as int - '1' as int;
      l < 0 || l >= |st.caps| || st.caps[l].len == UNFINISHED
    case _ => false
  }

  /** Of two states that the element leads to, the first one is tried first. */
  predicate Prefers(el: Elem, a: St, b: St) {
    el.Chars? && if el.times == Lazy then a.s < b.s else a.s > b.s
  }

  /** The list has exactly the states that the element leads to, in order of preference. */
  ghost predicate Lists(e: Env, el: Elem, st: St, sts: seq<St>) {
    && (forall x: St :: x in sts <==> Moves(e, el, st, x))
    && (forall i, j :: 0 <= i < j < |sts| ==> Prefers(el, sts[i], sts[j]))
  }

  /** A step over the element does what the element means. */
  ghost predicate StepMeans(e: Env, el: Elem, st: St, r: Option<seq<St>>) {
    if Fails(el, st) then r == None else r.Some? && Lists(e, el, st, r.value)
  }

  // ---------- repetition ----------

  /** From `s` on, `n` characters in a row are of this kind, and the next one is not. */
  predicate Row(e: Env, k: Kind, s: nat, n: nat) {
    && s + n <= |e.src| && AllFit(e, k, s, s + n)
    && (s + n < |e.src| ==> !FitsKind(e.cls, e.src[s + n], k))
  }

  lemma {:induction false} LongestIs(e: Env, k: Kind, s: nat, p: nat, ep: nat)
    requires TextAt(e.pat, p, KindText(k)) && GoodKind(k) && ep == p + |KindText(k)| && s <= |e.src|
    ensures Row(e, k, s, Longest(e, s, p, ep))
    decreases |e.src| - s
  {
    if s < |e.src| {
      KindMeans(e, e.src[s], p, k);
      if MatchesAt(e, s, p, ep) { LongestIs(e, k, s + 1, p, ep); }
    }
  }

  /** As many characters may be taken as are of this kind in a row. */
  lemma FitExactly(e: Env, k: Kind, s: nat, n: nat, s': nat)
    requires Row(e, k, s, n) && s <= s' <= |e.src|
    ensures AllFit(e, k, s, s') <==> s' <= s + n
  {
  }

  lemma DownIs(st: St, n: nat)
    ensures forall x: St :: x in Down(st, n) <==> x.caps == st.caps && st.s <= x.s <= st.s + n
    ensures forall i, j :: 0 <= i < j < |Down(st, n)| ==> Down(st, n)[i].s > Down(st, n)[j].s
  {
    var sts := Down(st, n);
    DownAt(st, n, 0);
    forall j | 0 <= j < |sts| ensures sts[j] == St(st.s + n - j, st.caps) { DownAt(st, n, j); }
    forall x: St | x.caps == st.caps && st.s <= x.s <= st.s + n ensures x in sts {
      assert x == sts[st.s + n - x.s];
    }
  }

  lemma UpIs(st: St, n: nat)
    ensures forall x: St :: x in UpTo(st, n) <==> x.caps == st.caps && st.s <= x.s <= st.s + n
    ensures forall i, j :: 0 <= i < j < |UpTo(st, n)| ==> UpTo(st, n)[i].s < UpTo(st, n)[j].s
  {
    var sts := UpTo(st, n);
    UpAt(st, n, 0);
    forall j | 0 <= j < |sts| ensures sts[j] == St(st.s + j, st.caps) { UpAt(st, n, j); }
    forall x: St | x.caps == st.caps && st.s <= x.s <= st.s + n ensures x in sts {
      assert x == sts[x.s - st.s];
    }
  }

  // ---------- steps ----------

  /** The states with between `lo` and `hi` more characters, the most or the fewest first. */
  ghost predicate Span(sts: seq<St>, st: St, lo: int, hi: int, lazy: bool) {
    && (forall x: St :: x in sts <==> x.caps == st.caps && lo <= x.s - st.s <= hi)
    && (forall i, j :: 0 <= i < j < |sts| ==> if lazy then sts[i].s < sts[j].s else sts[i].s > sts[j].s)
  }

  /** How many characters the times of an element allow when `n` fit in a row. */
  function Most(times: Times, n: nat): int {
    if times == Once || times == Optional then (if n > 0 then 1 else 0) else n
  }

  function Fewest(times: Times): int { if times == Once || times == GreedyOne then 1 else 0 }

  /** The states that a repeated character class leads to. */
  lemma SpanLists(e: Env, k: Kind, times: Times, st: St, n: nat, sts: seq<St>)
    requires Row(e, k, st.s, n)
    requires Span(sts, st, Fewest(times), Most(times, n), times == Lazy)
    ensures Lists(e, Chars(k, times), st, sts)
  {
    forall x: St ensures x in sts <==> Moves(e, Chars(k, times), st, x) {
      if st.s <= x.s <= |e.src| { FitExactly(e, k, st.s, n, x.s); }
    }
  }

  /** What the code lists for a single character class. */
  function SingleSteps(times: Times, st: St, n: nat): seq<St> {
    var one := st.(s := st.s + 1);
    match times
    case Optional => if n > 0 then [one, st] else [st]
    case Greedy => Down(st, n)
    case GreedyOne => if n > 0 then Down(one, n - 1) else []
    case Lazy => UpTo(st, n)
    case Once => if n > 0 then [one] else []
  }

  lemma OnceSpan(times: Times, st: St, n: nat)
    requires times == Once || times == Optional
    ensures Span(SingleSteps(times, st, n), st, Fewest(times), Most(times, n), false)
  {
  }

  lemma GreedyOneSpan(st: St, n: nat)
    ensures Span(SingleSteps(GreedyOne, st, n), st, 1, n, false)
  {
    if n > 0 { DownIs(st.(s := st.s + 1), n - 1); }
  }

  lemma SingleSpan(times: Times, st: St, n: nat)
    ensures Span(SingleSteps(times, st, n), st, Fewest(times), Most(times, n), times == Lazy)
  {
    match times
    case Greedy => DownIs(st, n);
    case GreedyOne => GreedyOneSpan(st, n);
    case Lazy => UpIs(st, n);
    case _ => OnceSpan(times, st, n);
  }

  lemma CharsStep(e: Env, p: nat, ep: nat, times: Times, st: St)
    requires TimesAt(e.pat, ep, times) && ep > 0 && st.s <= |e.src|
    ensures Step(e, Single(p, ep), st) == Some(SingleSteps(times, st, Longest(e, st.s, p, ep)))
  {
    TimesStand(e.pat, ep, times);
  }

  /** A character class with its repetition. */
  lemma CharsMean(e: Env, p: nat, ep: nat, k: Kind, times: Times, st: St)
    requires CharsAt(e.pat, p, ep, k, times) && ep > 0 && st.s <= |e.src|
    ensures StepMeans(e, Chars(k, times), st, Step(e, Single(p, ep), st))
  {
    var n := Longest(e, st.s, p, ep);
    LongestIs(e, k, st.s, p, ep);
    CharsStep(e, p, ep, times, st);
    SingleSpan(times, st, n);
    SpanLists(e, k, times, st, n, SingleSteps(times, st, n));
  }

  lemma {:induction false} ToCloseIs(caps: seq<Capture>)
    ensures var r := ToClose(caps);
      && (r.Some? ==> forall l: nat :: Innermost(caps, l) <==> l == r.value)
      && (r.None? ==> forall l :: 0 <= l < |caps| ==> caps[l].len != UNFINISHED)
  {
    if caps != [] && caps[|caps|-1].len != UNFINISHED {
      var n := |caps| - 1;
      ToCloseIs(caps[..n]);
      forall l: nat ensures Innermost(caps, l) <==> Innermost(caps[..n], l) {
        if Innermost(caps[..n], l) {
          assert forall j :: 0 <= j < n ==> caps[..n][j] == caps[j];
        }
      }
    }
  }

  /** Captures are opened and closed. */
  lemma CaptureMeans(e: Env, el: Elem, p: nat, st: St)
    requires el.Start? || el.Position? || el.Stop?
    ensures StepMeans(e, el, st, Step(e, ItemOf(el, p), st))
  {
    if el.Stop? {
      ToCloseIs(st.caps);
      var r := ToClose(st.caps);
      assert r.Some? ==> Innermost(st.caps, r.value);
    }
  }

  lemma EarlierMeans(e: Env, d: char, p: nat, st: St)
    requires IsDigit(d) && st.s <= |e.src|
    ensures StepMeans(e, Earlier(d), st, Step(e, Back(d, p), st))
  {
  }

  lemma ClosingAt(e: Env, s: nat, s': nat, b: char, x: char)
    requires s < |e.src| && e.src[s] == b
    ensures Balances(e, s, s', b, x) <==> Closing(e, s + 1, b, x, 1) == [s']
    ensures |Closing(e, s + 1, b, x, 1)| <= 1
  {
    ClosingIs(e, s + 1, b, x, 1);
    var r := Closing(e, s + 1, b, x, 1);
    if Balances(e, s, s', b, x) {
      assert r != [];
      assert r[0] < s' ==> StillOpen(e, s, r[0], b, x);
    }
  }

  lemma BalancedMeans(e: Env, b: char, x: char, p: nat, st: St)
    requires b != '\0' && st.s <= |e.src|
    ensures StepMeans(e, Balanced(b, x), st, Step(e, Balance(b, x, p), st))
  {
    if At(e.src, st.s) == b {
      forall st': St ensures Balances(e, st.s, st'.s, b, x) <==> Closing(e, st.s + 1, b, x, 1) == [st'.s] {
        ClosingAt(e, st.s, st'.s, b, x);
      }
      ClosingAt(e, st.s, st.s, b, x);
    }
  }

  lemma BorderMeans(e: Env, negated: bool, items: seq<SetItem>, p: nat, ep: nat, st: St)
    requires ep > 0 && Bracket(e.pat, p, ep - 1, negated, items)
    ensures StepMeans(e, Border(negated, items), st, Step(e, Frontier(p, ep), st))
  {
    BracketMeans(e, if st.s == 0 || st.s > |e.src| then '\0' else e.src[st.s - 1], p, ep - 1, negated, items);
    BracketMeans(e, At(e.src, st.s), p, ep - 1, negated, items);
  }

  /** An element that is not a character class or a border. */
  lemma MarkMeans(e: Env, p: nat, el: Elem, st: St)
    requires GoodElem(el) && !el.Chars? && !el.Border? && st.s <= |e.src|
    ensures StepMeans(e, el, st, Step(e, ItemOf(el, p), st))
  {
    match el
    case Balanced(b, x) => BalancedMeans(e, b, x, p + 4, st);
    case Earlier(d) => EarlierMeans(e, d, p + 2, st);
    case _ => CaptureMeans(e, el, p, st);
  }

  lemma CharsElem(e: Env, p: nat, ep: nat, k: Kind, n: Times, st: St)
    requires Stands(e.pat, p, Chars(k, n)) && st.s <= |e.src| && 0 < ep == p + |KindText(k)|
    ensures StepMeans(e, Chars(k, n), st, Step(e, Single(p, ep), st))
  {
    CharsParts(e.pat, p, ep, k, n);
    CharsMean(e, p, ep, k, n, st);
  }

  lemma BorderElem(e: Env, p: nat, ep: nat, negated: bool, items: seq<SetItem>, st: St)
    requires Stands(e.pat, p, Border(negated, items)) && ep == p + 2 + |SetText(negated, items)|
    ensures StepMeans(e, Border(negated, items), st, Step(e, Frontier(p + 2, ep), st))
  {
    BorderStands(e.pat, p, ep, negated, items);
    BorderMeans(e, negated, items, p + 2, ep, st);
  }

  /** Every element that stands in a pattern does what it means. */
  lemma ElemMeans(e: Env, p: nat, el: Elem, st: St, i: Item)
    requires Stands(e.pat, p, el) && st.s <= |e.src| && i == ItemOf(el, p)
    ensures Goes(i) && (i.Single? ==> i.ep > 0) && (i.Frontier? ==> i.next > 0)
    ensures StepMeans(e, el, st, Step(e, i, st))
  {
    match el
    case Chars(k, n) =>
      assert |KindText(k)| > 0;
      CharsElem(e, p, i.ep, k, n, st);
    case Border(negated, items) => BorderElem(e, p, i.next, negated, items, st);
    case _ => MarkMeans(e, p, el, st);
  }
}
