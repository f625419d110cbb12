/**
 Lua patterns, part 4: patterns as texts of elements, and the items that the code takes them for.
 */
module LuaElements {
  import opened Options
  import opened LuaPattern
  import opened LuaSets

  // ---------- elements and their text ----------

  datatype Kind = Any | Plain(c: char) | Letter(l: char) | Set(negated: bool, items: seq<SetItem>)

  datatype Times = Once | Optional | Greedy | GreedyOne | Lazy

  datatype Elem =
    | Chars(kind: Kind, times: Times)
    | Start | Position | Stop
    | Balanced(b: char, x: char)
    | Border(negated: bool, items: seq<SetItem>)
    | Earlier(digit: char)

  function SetText(negated: bool, items: seq<SetItem>): seq<char> {
    (if negated then ['[', '^'] else ['[']) + (ItemsText(items) + [']'])
  }

  function KindText(k: Kind): seq<char> {
    match k
    case Any => ['.']
    case Plain(c) => [c]
    case Letter(l) => ['%', l]
    case Set(negated, items) => SetText(negated, items)
  }

  function TimesText(n: Times): seq<char> {
    match n
    case Once => []
    case Optional => ['?']
    case Greedy => ['*']
    case GreedyOne => ['+']
    case Lazy => ['-']
  }

  function ElemText(el: Elem): seq<char> {
    match el
    case Chars(k, n) => KindText(k) + TimesText(n)
    case Start => ['(']
    case Position => ['(', ')']
    case Stop => [')']
    case Balanced(b, x) => ['%', 'b', b, x]
    case Border(negated, items) => ['%', 'f'] + SetText(negated, items)
    case Earlier(d) => ['%', d]
  }

  /** The text of the set is not read in another way. */
  predicate GoodSet(negated: bool, items: seq<SetItem>) {
    Closed(items) && Unmixed(items) && (!negated ==> ItemText(items[0])[0] != '^')
  }

  predicate GoodKind(k: Kind) {
    match k
    case Any => true
    case Plain(c) => c !in ['\0', '.', '%', '[', '(', ')']
    case Letter(l) => l !in ['\0', 'b', 'f'] && !('0' <= l <= '9')
    case Set(negated, items) => GoodSet(negated, items)
  }

  predicate GoodElem(el: Elem) {
    match el
    case Chars(k, _) => GoodKind(k)
    case Balanced(b, x) => b != '\0' && x != '\0'
    case Border(negated, items) => GoodSet(negated, items)
    case Earlier(d) => '0' <= d <= '9'
    case _ => true
  }

  /** What stands behind the element does not change it. */
  predicate GoodBehind(el: Elem, c: char) {
    match el
    case Chars(k, Once) => !Repeats(c) && (k == Plain('$') ==> c != '\0')
    case Start => c != ')'
    case _ => true
  }

  predicate Stands(t: seq<char>, p: nat, el: Elem) {
    TextAt(t, p, ElemText(el)) && GoodElem(el) && GoodBehind(el, At(t, p + |ElemText(el)|))
  }

  // ---------- single characters ----------

  predicate FitsKind(cls: (char, char) -> bool, c: char, k: Kind) {
    match k
    case Any => true
    case Plain(x) => c == x
    case Letter(l) => cls(c, l)
    case Set(negated, items) => Fits(cls, c, negated, items)
  }

  lemma BracketAt(t: seq<char>, p: nat)
    requires TextAt(t, p, [']'])
    ensures At(t, p) == ']'
  {
    TextChars(t, p, [']']);
    assert At(t, p + 0) == ']';
  }

  /** The parts of a printed set. */
  lemma SetParts(t: seq<char>, p: nat, open: seq<char>, items: seq<SetItem>)
    requires TextAt(t, p, open + (ItemsText(items) + [']']))
    ensures var q := p + |open|;
      && TextAt(t, p, open) && TextAt(t, q, ItemsText(items)) && At(t, q + |ItemsText(items)|) == ']'
  {
    var q := p + |open|;
    TextSplit(t, p, open, ItemsText(items) + [']']);
    TextSplit(t, q, ItemsText(items), [']']);
    BracketAt(t, q + |ItemsText(items)|);
  }

  lemma SetOpens(t: seq<char>, p: nat, negated: bool, items: seq<SetItem>)
    requires TextAt(t, p, if negated then ['[', '^'] else ['[']) && GoodSet(negated, items)
    requires TextAt(t, if negated then p + 2 else p + 1, ItemsText(items))
    ensures At(t, p) == '[' && (At(t, p + 1) == '^' <==> negated)
  {
    var open := if negated then ['[', '^'] else ['['];
    TextChars(t, p, open);
    assert At(t, p + 0) == '[';
    if negated { assert At(t, p + 1) == open[1]; } else { FirstText(t, p + 1, items); }
  }

  lemma SetStands(t: seq<char>, p: nat, ep: nat, negated: bool, items: seq<SetItem>)
    requires TextAt(t, p, SetText(negated, items)) && GoodSet(negated, items) && ep == p + |SetText(negated, items)|
    ensures p < |t| && ClassEnd(t, p) == Some(ep) && At(t, p) == '['
    ensures Bracket(t, p, ep - 1, negated, items)
  {
    var open := if negated then ['[', '^'] else ['['];
    var q, end := p + |open|, ep - 1;
    SetParts(t, p, open, items);
    SetOpens(t, p, negated, items);
    SetEnds(t, q, items, end);
  }

  /** The text of a character class. */
  lemma KindStands(t: seq<char>, p: nat, k: Kind)
    requires TextAt(t, p, KindText(k)) && GoodKind(k)
    ensures p < |t| && ClassEnd(t, p) == Some(p + |KindText(k)|)
    ensures k.Set? ==> At(t, p) == '[' && Bracket(t, p, p + |KindText(k)| - 1, k.negated, k.items)
    ensures match k case Any => At(t, p) == '.' case Plain(c) => At(t, p) == c
      case Letter(l) => At(t, p) == '%' && At(t, p + 1) == l case Set(_, _) => true
  {
    TextChars(t, p, KindText(k));
    assert At(t, p + 0) == KindText(k)[0];
    if k.Set? { SetStands(t, p, p + |KindText(k)|, k.negated, k.items); }
    if k.Letter? { assert At(t, p + 1) == KindText(k)[1]; }
  }

  /** What a character class accepts. */
  lemma KindMeans(e: Env, c: char, p: nat, k: Kind)
    requires TextAt(e.pat, p, KindText(k)) && GoodKind(k)
    ensures Accepts(e, c, p, p + |KindText(k)|) <==> FitsKind(e.cls, c, k)
  {
    var ep := p + |KindText(k)|;
    KindStands(e.pat, p, k);
    if k.Set? { BracketMeans(e, c, p, ep - 1, k.negated, k.items); }
  }

  // ---------- the item of an element ----------

  function ItemOf(el: Elem, p: nat): Item {
    match el
    case Chars(k, _) => Single(p, p + |KindText(k)|)
    case Start => Open(false, p + 1)
    case Position => Open(true, p + 2)
    case Stop => Close(p + 1)
    case Balanced(b, x) => Balance(b, x, p + 4)
    case Border(negated, items) => Frontier(p + 2, p + 2 + |SetText(negated, items)|)
    case Earlier(d) => Back(d, p + 2)
  }

  /** How often a character class may occur stands at `ep`. */
  predicate TimesAt(t: seq<char>, ep: nat, n: Times) {
    TextAt(t, ep, TimesText(n)) && (n == Once ==> !Repeats(At(t, ep)))
  }

  /** A character class and how often it may occur stand at `p`, the second part at `ep`. */
  predicate CharsAt(t: seq<char>, p: nat, ep: nat, k: Kind, n: Times) {
    && TextAt(t, p, KindText(k)) && GoodKind(k) && ep == p + |KindText(k)| && TimesAt(t, ep, n)
    && (k == Plain('$') && n == Once ==> At(t, ep) != '\0')
  }

  lemma CharsParts(t: seq<char>, p: nat, ep: nat, k: Kind, n: Times)
    requires Stands(t, p, Chars(k, n)) && ep == p + |KindText(k)|
    ensures CharsAt(t, p, ep, k, n)
  {
    CharsText(t, p, ep, k, n);
    BehindChars(t, p, ep, k, n);
  }

  lemma CharsText(t: seq<char>, p: nat, ep: nat, k: Kind, n: Times)
    requires TextAt(t, p, ElemText(Chars(k, n))) && ep == p + |KindText(k)|
    ensures TextAt(t, p, KindText(k)) && TextAt(t, ep, TimesText(n))
  {
    TextSplit(t, p, KindText(k), TimesText(n));
  }

  lemma BehindChars(t: seq<char>, p: nat, ep: nat, k: Kind, n: Times)
    requires GoodBehind(Chars(k, n), At(t, p + |ElemText(Chars(k, n))|)) && ep == p + |KindText(k)|
    ensures n == Once ==> !Repeats(At(t, ep)) && (k == Plain('$') ==> At(t, ep) != '\0')
  {
    if n == Once { AddNone(KindText(k)); }
  }

  lemma AddNone(u: seq<char>)
    ensures u + [] == u
  {
  }

  lemma TimesStand(t: seq<char>, ep: nat, n: Times)
    requires TimesAt(t, ep, n)
    ensures match n case Once => !Repeats(At(t, ep)) case Optional => At(t, ep) == '?'
      case Greedy => At(t, ep) == '*' case GreedyOne => At(t, ep) == '+' case Lazy => At(t, ep) == '-'
  {
    TextChars(t, ep, TimesText(n));
    if n != Once { assert At(t, ep + 0) == TimesText(n)[0]; }
  }

  /** A character class is an item of its own. */
  lemma KindItem(t: seq<char>, p: nat, ep: nat, k: Kind)
    requires TextAt(t, p, KindText(k)) && GoodKind(k) && ep == p + |KindText(k)|
    requires k == Plain('$') ==> At(t, p + 1) != '\0'
    ensures ItemAt(t, p) == Single(p, ep)
  {
    KindStands(t, p, k);
  }

  lemma CharsStand(t: seq<char>, p: nat, ep: nat, k: Kind, n: Times)
    requires CharsAt(t, p, ep, k, n)
    ensures ItemAt(t, p) == Single(p, ep) && Next(t, Single(p, ep)) == ep + |TimesText(n)|
  {
    TimesStand(t, ep, n);
    KindItem(t, p, ep, k);
  }

  lemma BorderParts(t: seq<char>, p: nat, negated: bool, items: seq<SetItem>)
    requires TextAt(t, p, ['%', 'f'] + SetText(negated, items))
    ensures At(t, p) == '%' && At(t, p + 1) == 'f' && TextAt(t, p + 2, SetText(negated, items))
    ensures |['%', 'f'] + SetText(negated, items)| == 2 + |SetText(negated, items)|
  {
    var pf := ['%', 'f'];
    TextSplit(t, p, pf, SetText(negated, items));
    TextChars(t, p, pf);
    assert At(t, p + 0) == pf[0] && At(t, p + 1) == pf[1];
  }

  lemma BorderStands(t: seq<char>, p: nat, ep: nat, negated: bool, items: seq<SetItem>)
    requires TextAt(t, p, ['%', 'f'] + SetText(negated, items)) && GoodSet(negated, items)
    requires ep == p + 2 + |SetText(negated, items)|
    ensures ItemAt(t, p) == Frontier(p + 2, ep) && Bracket(t, p + 2, ep - 1, negated, items)
    ensures ep == p + |['%', 'f'] + SetText(negated, items)|
  {
    BorderParts(t, p, negated, items);
    SetStands(t, p + 2, ep, negated, items);
  }

  /** The code takes the element for what it is and goes on behind it. */
  lemma ItemStands(t: seq<char>, p: nat, el: Elem)
    requires Stands(t, p, el)
    ensures ItemAt(t, p) == ItemOf(el, p) && Next(t, ItemOf(el, p)) == p + |ElemText(el)|
  {
    if el.Chars? {
      var ep := p + |KindText(el.kind)|;
      CharsParts(t, p, ep, el.kind, el.times);
      CharsStand(t, p, ep, el.kind, el.times);
    } else if el.Border? {
      BorderStands(t, p, p + 2 + |SetText(el.negated, el.items)|, el.negated, el.items);
    } else {
      MarkStands(t, p, el);
    }
  }

  lemma MarkStands(t: seq<char>, p: nat, el: Elem)
    requires Stands(t, p, el) && !el.Chars? && !el.Border?
    ensures ItemAt(t, p) == ItemOf(el, p) && Next(t, ItemOf(el, p)) == p + |ElemText(el)|
  {
    var u := ElemText(el);
    TextChars(t, p, u);
    assert At(t, p + 0) == u[0];
    if |u| > 1 { assert At(t, p + 1) == u[1]; }
    if el.Balanced? { assert At(t, p + 2) == u[2] && At(t, p + 3) == u[3]; }
  }
}
