/**
 Lua patterns, part 3: sets of characters as lists of items, each a character, a range or an escaped class.
 */
module LuaSets {
  import opened Options
  import opened LuaPattern

  datatype SetItem = One(c: char) | Range(lo: char, hi: char) | Escaped(l: char)

  function ItemText(i: SetItem): seq<char> {
    match i
    case One(c) => [c]
    case Range(lo, hi) => [lo, '-', hi]
    case Escaped(l) => ['%', l]
  }

  function ItemsText(items: seq<SetItem>): seq<char> {
    if items == [] then [] else ItemText(items[0]) + ItemsText(items[1..])
  }

  predicate Holds(cls: (char, char) -> bool, i: SetItem, c: char) {
    match i
    case One(x) => c == x
    case Range(lo, hi) => lo <= c <= hi
    case Escaped(l) => cls(c, l)
  }

  predicate SomeHolds(cls: (char, char) -> bool, items: seq<SetItem>, c: char) {
    exists i :: 0 <= i < |items| && Holds(cls, items[i], c)
  }

  predicate BeginsWithDash(i: SetItem) { i == One('-') || (i.Range? && i.lo == '-') }

  /**
   The text is not read as other items: only classes begin with `%`, and no character stands before a dash
   other than the last character of the set.
   */
  predicate Unmixed(items: seq<SetItem>) {
    && (forall i :: 0 <= i < |items| ==> items[i] != One('%') && (items[i].Range? ==> items[i].lo != '%'))
    && (forall i :: 0 <= i < |items| - 1 ==>
          (items[i].One? && BeginsWithDash(items[i + 1]) ==> i == |items| - 2 && items[i + 1].One?))
  }

  /** Text `u` stands at `p`. */
  predicate TextAt(t: seq<char>, p: nat, u: seq<char>) { p + |u| <= |t| && t[p..p + |u|] == u }

  /**
   The set from `q` up to `ec` consists of these items.  A class that begins right before the closing bracket takes
   the bracket for its letter.
   */
  predicate Reads(t: seq<char>, q: nat, ec: nat, items: seq<SetItem>) {
    && Unmixed(items) && TextAt(t, q, ItemsText(items))
    && var end := q + |ItemsText(items)|;
       end == ec || (end == ec + 1 && items != [] && items[|items|-1].Escaped?)
  }

  lemma TextSplit(t: seq<char>, p: nat, u: seq<char>, v: seq<char>)
    requires TextAt(t, p, u + v)
    ensures TextAt(t, p, u) && TextAt(t, p + |u|, v)
  {
    assert t[p..p + |u|] == (u + v)[..|u|];
    assert t[p + |u|..p + |u| + |v|] == (u + v)[|u|..];
  }

  lemma TextJoin(t: seq<char>, p: nat, u: seq<char>, v: seq<char>)
    requires TextAt(t, p, u) && TextAt(t, p + |u|, v)
    ensures TextAt(t, p, u + v)
  {
  }

  /** The characters of a text. */
  lemma TextChars(t: seq<char>, p: nat, u: seq<char>)
    requires TextAt(t, p, u)
    ensures forall k :: 0 <= k < |u| ==> At(t, p + k) == u[k]
  {
    forall k | 0 <= k < |u| ensures At(t, p + k) == u[k] {
      assert t[p + k] == t[p..p + |u|][k];
    }
  }

  /** The characters of an item. */
  predicate Shows(t: seq<char>, q: nat, i: SetItem) {
    match i
    case One(c) => At(t, q) == c
    case Range(lo, hi) => At(t, q) == lo && At(t, q + 1) == '-' && At(t, q + 2) == hi
    case Escaped(l) => At(t, q) == '%' && At(t, q + 1) == l
  }

  lemma ItemShows(t: seq<char>, q: nat, i: SetItem)
    requires TextAt(t, q, ItemText(i))
    ensures Shows(t, q, i) && At(t, q) == ItemText(i)[0]
  {
    TextChars(t, q, ItemText(i));
    assert At(t, q + 0) == ItemText(i)[0];
    if i.Range? { assert At(t, q + 1) == ItemText(i)[1] && At(t, q + 2) == ItemText(i)[2]; }
    if i.Escaped? { assert At(t, q + 1) == ItemText(i)[1]; }
  }

  /** The first item of a list that stands at `q`, and what stands behind it. */
  lemma FirstText(t: seq<char>, q: nat, items: seq<SetItem>)
    requires TextAt(t, q, ItemsText(items)) && items != []
    ensures TextAt(t, q, ItemText(items[0])) && TextAt(t, q + |ItemText(items[0])|, ItemsText(items[1..]))
    ensures Shows(t, q, items[0]) && At(t, q) == ItemText(items[0])[0]
  {
    TextSplit(t, q, ItemText(items[0]), ItemsText(items[1..]));
    ItemShows(t, q, items[0]);
  }

  lemma RestReads(t: seq<char>, q: nat, ec: nat, items: seq<SetItem>)
    requires Reads(t, q, ec, items) && |items| > 1
    ensures Reads(t, q + |ItemText(items[0])|, ec, items[1..])
  {
    FirstText(t, q, items);
    UnmixedRest(items);
  }

  lemma UnmixedRest(items: seq<SetItem>)
    requires Unmixed(items) && items != []
    ensures Unmixed(items[1..])
  {
  }

  /** What the first item of a set looks like to the code that reads it. */
  lemma FirstItem(t: seq<char>, q: nat, ec: nat, items: seq<SetItem>)
    requires Reads(t, q, ec, items) && items != []
    ensures q < ec && (At(t, q) == '%' <==> items[0].Escaped?)
    ensures items[0].Range? <==> At(t, q) != '%' && At(t, q + 1) == '-' && q + 2 < ec
  {
    FirstText(t, q, items);
    if |items| > 1 {
      RestReads(t, q, ec, items);
      FirstText(t, q + |ItemText(items[0])|, items[1..]);
    }
  }

  lemma SomeRest(cls: (char, char) -> bool, items: seq<SetItem>, c: char)
    requires items != []
    ensures SomeHolds(cls, items, c) <==> Holds(cls, items[0], c) || SomeHolds(cls, items[1..], c)
  {
    if SomeHolds(cls, items[1..], c) {
      var i :| 0 <= i < |items[1..]| && Holds(cls, items[1..][i], c);
      assert items[i + 1] == items[1..][i];
    }
    if SomeHolds(cls, items, c) && !Holds(cls, items[0], c) {
      var i :| 0 <= i < |items| && Holds(cls, items[i], c);
      assert items[1..][i - 1] == items[i];
    }
  }

  /** The code tests the first item and goes on behind it. */
  lemma InFirst(e: Env, c: char, q: nat, ec: nat, items: seq<SetItem>)
    requires Reads(e.pat, q, ec, items) && items != []
    ensures InSet(e, c, q, ec) <==> Holds(e.cls, items[0], c) || InSet(e, c, q + |ItemText(items[0])|, ec)
  {
    FirstText(e.pat, q, items);
    FirstItem(e.pat, q, ec, items);
  }

  lemma OnlyItem(t: seq<char>, q: nat, ec: nat, items: seq<SetItem>)
    requires Reads(t, q, ec, items) && |items| == 1
    ensures q + |ItemText(items[0])| >= ec && items[1..] == []
  {
    assert ItemsText(items[1..]) == [];
  }

  /** A set holds a character exactly if one of its items does. */
  lemma {:induction false} SetMeans(e: Env, c: char, q: nat, ec: nat, items: seq<SetItem>)
    requires Reads(e.pat, q, ec, items)
    ensures InSet(e, c, q, ec) <==> SomeHolds(e.cls, items, c)
    decreases |items|
  {
    if items != [] {
      InFirst(e, c, q, ec, items);
      SomeRest(e.cls, items, c);
      if |items| > 1 {
        RestReads(e.pat, q, ec, items);
        SetMeans(e, c, q + |ItemText(items[0])|, ec, items[1..]);
      } else {
        OnlyItem(e.pat, q, ec, items);
      }
    }
  }

  lemma TextPrepend(t: seq<char>, q: nat, i: SetItem, rest: seq<SetItem>)
    requires TextAt(t, q, ItemText(i)) && TextAt(t, q + |ItemText(i)|, ItemsText(rest))
    ensures TextAt(t, q, ItemsText([i] + rest)) && |ItemsText([i] + rest)| == |ItemText(i)| + |ItemsText(rest)|
  {
    TextJoin(t, q, ItemText(i), ItemsText(rest));
    assert ([i] + rest)[1..] == rest;
  }

  /** One more item in front of those that were read. */
  lemma Prepended(t: seq<char>, q: nat, ec: nat, i: SetItem, rest: seq<SetItem>)
    requires TextAt(t, q, ItemText(i)) && Reads(t, q + |ItemText(i)|, ec, rest) && ec <= |t|
    requires At(t, q) == '%' <==> i.Escaped?
    requires i.One? && At(t, q + 1) == '-' ==> q + 2 >= ec
    ensures Reads(t, q, ec, [i] + rest)
  {
    var items := [i] + rest;
    TextPrepend(t, q, i, rest);
    ItemShows(t, q, i);
    if rest != [] {
      FirstText(t, q + |ItemText(i)|, rest);
      FirstItem(t, q + |ItemText(i)|, ec, rest);
      assert items[|items|-1] == rest[|rest|-1];
    }
    if i.One? && rest != [] && BeginsWithDash(rest[0]) { DashLast(t, q + 1, ec, rest); }
    UnmixedFront(i, rest);
  }

  lemma DashLast(t: seq<char>, p: nat, ec: nat, rest: seq<SetItem>)
    requires Reads(t, p, ec, rest) && rest != [] && p + 1 >= ec
    ensures |rest| == 1 && !rest[0].Range?
  {
    FirstItem(t, p, ec, rest);
    if |rest| > 1 {
      RestReads(t, p, ec, rest);
      FirstItem(t, p + |ItemText(rest[0])|, ec, rest[1..]);
    }
  }

  lemma UnmixedFront(i: SetItem, rest: seq<SetItem>)
    requires Unmixed(rest) && i != One('%') && (i.Range? ==> i.lo != '%')
    requires i.One? && rest != [] && BeginsWithDash(rest[0]) ==> |rest| == 1 && rest[0].One?
    ensures Unmixed([i] + rest)
  {
  }

  /** The item that the code takes at `q`. */
  function ItemFrom(t: seq<char>, q: nat, ec: nat): SetItem
    requires q < ec < |t|
  {
    if t[q] == '%' then Escaped(t[q + 1])
    else if t[q + 1] == '-' && q + 2 < ec then Range(t[q], t[q + 2])
    else One(t[q])
  }

  lemma ItemFromAt(t: seq<char>, q: nat, ec: nat)
    requires q < ec < |t|
    ensures var i := ItemFrom(t, q, ec);
      TextAt(t, q, ItemText(i)) && (q + |ItemText(i)| <= ec || (i.Escaped? && q + |ItemText(i)| == ec + 1))
  {
  }

  /** Every set consists of items. */
  lemma {:induction false} SetItems(t: seq<char>, q: nat, ec: nat) returns (items: seq<SetItem>)
    requires q <= ec < |t|
    ensures Reads(t, q, ec, items)
    decreases ec - q
  {
    items := [];
    if q < ec {
      var i := ItemFrom(t, q, ec);
      ItemFromAt(t, q, ec);
      if q + |ItemText(i)| <= ec {
        var rest := SetItems(t, q + |ItemText(i)|, ec);
        Prepended(t, q, ec, i, rest);
        items := [i] + rest;
      } else {
        assert ItemsText([]) == [];
        TextPrepend(t, q, i, []);
        items := [i];
      }
    }
  }

  // ---------- brackets ----------

  /** The set whose opening bracket is at `p` and closing bracket at `ec`, as a list of items. */
  predicate Bracket(t: seq<char>, p: nat, ec: nat, negated: bool, items: seq<SetItem>) {
    && (negated <==> At(t, p + 1) == '^')
    && Reads(t, if negated then p + 2 else p + 1, ec, items)
  }

  /** A set accepts what some item holds, and a complemented one what no item holds. */
  predicate Fits(cls: (char, char) -> bool, c: char, negated: bool, items: seq<SetItem>) {
    if negated then !SomeHolds(cls, items, c) else SomeHolds(cls, items, c)
  }

  lemma BracketMeans(e: Env, c: char, p: nat, ec: nat, negated: bool, items: seq<SetItem>)
    requires Bracket(e.pat, p, ec, negated, items)
    ensures SetAccepts(e, c, p, ec) <==> Fits(e.cls, c, negated, items)
  {
    SetMeans(e, c, if negated then p + 2 else p + 1, ec, items);
  }

  /** Every set that has an end is one of these. */
  lemma EverySet(t: seq<char>, p: nat) returns (negated: bool, items: seq<SetItem>)
    requires p < |t| && t[p] == '[' && ClassEnd(t, p).Some?
    ensures Bracket(t, p, ClassEnd(t, p).value - 1, negated, items)
  {
    var q := if At(t, p + 1) == '^' then p + 2 else p + 1;
    negated := At(t, p + 1) == '^';
    items := SetItems(t, q, ClassEnd(t, p).value - 1);
  }

  // ---------- printed sets ----------

  /** No character ends the text or the set early: a bare closing bracket only stands in front. */
  predicate ClosedItem(i: SetItem) {
    match i
    case One(c) => c != '\0' && c != '%'
    case Range(lo, hi) => lo != '\0' && lo != '%' && hi != '\0' && hi != '%' && hi != ']'
    case Escaped(l) => l != '\0'
  }

  predicate Closed(items: seq<SetItem>) {
    && items != []
    && (forall i :: 0 <= i < |items| ==> ClosedItem(items[i]))
    && (forall i :: 0 < i < |items| ==> ItemText(items[i])[0] != ']')
  }

  /** The search for the end passes an item. */
  lemma EndPasses(t: seq<char>, q: nat, i: SetItem)
    requires ClosedItem(i) && TextAt(t, q, ItemText(i))
    ensures var n := q + |ItemText(i)|; SetEnd(t, q) == if At(t, n) == ']' then Some(n + 1) else SetEnd(t, n)
  {
    ItemShows(t, q, i);
    if i.Range? {
      assert SetEnd(t, q) == SetEnd(t, q + 1);
    }
  }

  /** Behind the first item comes the closing bracket, or else no closing bracket. */
  lemma BehindFirst(t: seq<char>, q: nat, items: seq<SetItem>, end: nat)
    requires Closed(items) && TextAt(t, q, ItemsText(items)) && end == q + |ItemsText(items)| && At(t, end) == ']'
    ensures var n, rest := q + |ItemText(items[0])|, items[1..];
      && TextAt(t, n, ItemsText(rest)) && end == n + |ItemsText(rest)|
      && if rest == [] then n == end else Closed(rest) && At(t, n) != ']'
  {
    var rest := items[1..];
    FirstText(t, q, items);
    if rest == [] {
      assert ItemsText(rest) == [];
    } else {
      FirstText(t, q + |ItemText(items[0])|, rest);
    }
  }

  /** The end of a printed set is behind the bracket that follows its items. */
  lemma {:induction false} SetEnds(t: seq<char>, q: nat, items: seq<SetItem>, end: nat)
    requires Closed(items) && TextAt(t, q, ItemsText(items)) && end == q + |ItemsText(items)| && At(t, end) == ']'
    ensures SetEnd(t, q) == Some(end + 1)
    decreases |items|
  {
    FirstText(t, q, items);
    BehindFirst(t, q, items, end);
    EndPasses(t, q, items[0]);
    if |items| > 1 { SetEnds(t, q + |ItemText(items[0])|, items[1..], end); }
  }
}
