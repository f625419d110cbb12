/**
 Lua patterns, part 1: what a pattern means.  Each pattern item maps a state to the ordered list of states
 it can lead to, and a pattern to the list of all its parses in order of preference.
 */
module LuaPattern {
  import opened Options

  const MAXCAPTURES: nat := 32
  const UNFINISHED: int := -1
  const POSITION: int := -2

  /** The subject, the pattern, and the test of a character against a class letter. */
  datatype Env = Env(src: seq<char>, pat: seq<char>, cls: (char, char) -> bool)

  datatype Capture = Capture(init: nat, len: int)

  /** A position in the subject and the captures so far. */
  datatype St = St(s: nat, caps: seq<Capture>)

  /** A string ends with a null character. */
  function At(t: seq<char>, i: nat): char { if i < |t| then t[i] else '\0' }

  // ---------- pattern items ----------

  datatype Item =
    | End | Dollar | Malformed
    | Open(position: bool, next: nat)
    | Close(next: nat)
    | Balance(b: char, e: char, next: nat)
    | Frontier(p: nat, next: nat)
    | Back(digit: char, next: nat)
    | Single(p: nat, ep: nat)

  /** Where the set that goes on at `q` ends. */
  function SetEnd(t: seq<char>, q: nat): (r: Option<nat>)
    ensures r.Some? ==> q + 1 < r.value <= |t|
    decreases |t| - q
  {
    if At(t, q) == '\0' then None
    else
      var q' := if At(t, q) == '%' && At(t, q + 1) != '\0' then q + 2 else q + 1;
      if At(t, q') == ']' then Some(q' + 1) else if q' <= |t| then SetEnd(t, q') else None
  }

  /** The end of the single-character class at `p`. */
  function ClassEnd(t: seq<char>, p: nat): (r: Option<nat>)
    requires p < |t|
    ensures r.Some? ==> p < r.value <= |t|
  {
    if At(t, p) == '%' then if At(t, p + 1) == '\0' then None else Some(p + 2)
    else if At(t, p) == '[' then SetEnd(t, if At(t, p + 1) == '^' then p + 2 else p + 1)
    else Some(p + 1)
  }

  predicate IsDigit(c: char) { '0' <= c <= '9' }

  function Class(t: seq<char>, p: nat): Item
    requires p < |t|
  {
    match ClassEnd(t, p)
    case None => Malformed
    case Some(ep) => Single(p, ep)
  }

  /** The item that begins at `p`. */
  function ItemAt(t: seq<char>, p: nat): Item {
    var c, d := At(t, p), At(t, p + 1);
    if c == '\0' then End
    else if c == '(' then if d == ')' then Open(true, p + 2) else Open(false, p + 1)
    else if c == ')' then Close(p + 1)
    else if c == '$' && d == '\0' then Dollar
    else if c == '%' && d == 'b' then
      if At(t, p + 2) == '\0' || At(t, p + 3) == '\0' then Malformed else Balance(At(t, p + 2), At(t, p + 3), p + 4)
    else if c == '%' && d == 'f' then
      if At(t, p + 2) != '[' then Malformed
      else match ClassEnd(t, p + 2) case None => Malformed case Some(ep) => Frontier(p + 2, ep)
    else if c == '%' && IsDigit(d) then Back(d, p + 2)
    else Class(t, p)
  }

  predicate Repeats(c: char) { c == '?' || c == '*' || c == '+' || c == '-' }

  /** Where the pattern goes on after an item. */
  function Next(t: seq<char>, i: Item): nat {
    match i
    case End => 0 case Dollar => 0 case Malformed => 0
    case Open(_, n) => n case Close(n) => n case Balance(_, _, n) => n case Frontier(_, n) => n case Back(_, n) => n
    case Single(_, ep) => if Repeats(At(t, ep)) then ep + 1 else ep
  }

  predicate Goes(i: Item) { !i.End? && !i.Dollar? && !i.Malformed? }

  /** Every item that can be passed makes the remaining pattern shorter. */
  lemma NextAdvances(t: seq<char>, p: nat)
    requires Goes(ItemAt(t, p))
    ensures p < Next(t, ItemAt(t, p)) <= |t|
  {
    assert p < |t|;
    if At(t, p) == '%' && At(t, p + 1) == 'f' { assert p + 2 < |t|; }
  }

  // ---------- single characters ----------

  /** Character `c` occurs in the set from `q` up to `ec`. */
  function InSet(e: Env, c: char, q: nat, ec: nat): bool
    decreases ec - q
  {
    if q >= ec then false
    else if At(e.pat, q) == '%' then e.cls(c, At(e.pat, q + 1)) || InSet(e, c, q + 2, ec)
    else if At(e.pat, q + 1) == '-' && q + 2 < ec then At(e.pat, q) <= c <= At(e.pat, q + 2) || InSet(e, c, q + 3, ec)
    else At(e.pat, q) == c || InSet(e, c, q + 1, ec)
  }

  /** The set at `p`, whose closing bracket is at `ec`, accepts `c`. */
  predicate SetAccepts(e: Env, c: char, p: nat, ec: nat) {
    if At(e.pat, p + 1) == '^' then !InSet(e, c, p + 2, ec) else InSet(e, c, p + 1, ec)
  }

  predicate Accepts(e: Env, c: char, p: nat, ep: nat)
    requires ep > 0
  {
    if At(e.pat, p) == '.' then true
    else if At(e.pat, p) == '%' then e.cls(c, At(e.pat, p + 1))
    else if At(e.pat, p) == '[' then SetAccepts(e, c, p, ep - 1)
    else At(e.pat, p) == c
  }

  predicate MatchesAt(e: Env, s: nat, p: nat, ep: nat)
    requires ep > 0
  {
    s < |e.src| && Accepts(e, e.src[s], p, ep)
  }

  /** How many characters from `s` on are accepted. */
  function Longest(e: Env, s: nat, p: nat, ep: nat): (n: nat)
    requires ep > 0
    ensures s <= |e.src| ==> s + n <= |e.src|
    decreases |e.src| - s
  {
    if MatchesAt(e, s, p, ep) then 1 + Longest(e, s + 1, p, ep) else 0
  }

  // ---------- balanced strings ----------

  /** The end of the balanced string of which `cont` delimiters are open before position `i`. */
  function Closing(e: Env, i: nat, b: char, x: char, cont: nat): seq<nat>
    decreases |e.src| - i
  {
    if i >= |e.src| then []
    else if e.src[i] == x then if cont <= 1 then [i + 1] else Closing(e, i + 1, b, x, cont - 1)
    else Closing(e, i + 1, b, x, if e.src[i] == b then cont + 1 else cont)
  }

  /** Openings less closings from `i` up to `j`. */
  function Nesting(e: Env, i: nat, j: nat, b: char, x: char): int
    requires i <= j <= |e.src|
    decreases j - i
  {
    if i == j then 0 else (if e.src[i] == x then -1 else if e.src[i] == b then 1 else 0) + Nesting(e, i + 1, j, b, x)
  }

  /** The balanced string ends at the first place where as many delimiters were closed as opened. */
  lemma {:induction false} ClosingIs(e: Env, i: nat, b: char, x: char, cont: nat)
    requires cont > 0 && i <= |e.src|
    ensures var r := Closing(e, i, b, x, cont);
      && (r == [] ==> forall j :: i <= j <= |e.src| ==> cont + Nesting(e, i, j, b, x) > 0)
      && (r != [] ==>
            && r == [r[0]] && i < r[0] <= |e.src| && cont + Nesting(e, i, r[0], b, x) == 0
            && forall j :: i <= j < r[0] ==> cont + Nesting(e, i, j, b, x) > 0)
    decreases |e.src| - i
  {
    if i < |e.src| && !(e.src[i] == x && cont == 1) {
      var cont' := if e.src[i] == x then cont - 1 else if e.src[i] == b then cont + 1 else cont;
      ClosingIs(e, i + 1, b, x, cont');
      assert forall j :: i + 1 <= j <= |e.src| ==> cont + Nesting(e, i, j, b, x) == cont' + Nesting(e, i + 1, j, b, x);
    }
  }

  // ---------- one item ----------

  /** Repetition counts from `n` down to 0, and from `k` up to `n`. */
  function Down(st: St, n: int): seq<St> { if n < 0 then [] else [st.(s := st.s + n)] + Down(st, n - 1) }

  function UpTo(st: St, n: nat): seq<St>
    decreases n
  {
    [st] + if n == 0 then [] else UpTo(st.(s := st.s + 1), n - 1)
  }

  /** The innermost capture that is still open. */
  function ToClose(caps: seq<Capture>): (r: Option<nat>)
    ensures r.Some? ==> r.value < |caps| && caps[r.value].len == UNFINISHED
  {
    if caps == [] then None
    else if caps[|caps|-1].len == UNFINISHED then Some(|caps| - 1)
    else ToClose(caps[..|caps|-1])
  }

  predicate Repeated(e: Env, s: nat, c: Capture) {
    c.len >= 0 && c.init + c.len <= |e.src| && s + c.len <= |e.src|
        && e.src[c.init..c.init + c.len] == e.src[s..s + c.len]
  }

  /** The states that an item leads to, in order of preference; nothing stands for an error. */
  function Step(e: Env, i: Item, st: St): Option<seq<St>>
    requires Goes(i) && (i.Single? ==> i.ep > 0) && (i.Frontier? ==> i.next > 0)
  {
    match i
    case Open(position, _) =>
      if |st.caps| >= MAXCAPTURES then None
      else Some([st.(caps := st.caps + [Capture(st.s, if position then POSITION else UNFINISHED)])])
    case Close(_) =>
      var l := ToClose(st.caps);
      if l.None? then None
      else Some([st.(caps := st.caps[l.value := Capture(st.caps[l.value].init, st.s - st.caps[l.value].init)])])
    case Balance(b, x, _) =>
      if At(e.src, st.s) != b then Some([])
      else
        var r := Closing(e, st.s + 1, b, x, 1);
        Some(if r == [] then [] else [st.(s := r[0])])
    case Frontier(p, next) =>
      var previous := if st.s == 0 || st.s > |e.src| then '\0' else e.src[st.s - 1];
      if SetAccepts(e, previous, p, next - 1) || !SetAccepts(e, At(e.src, st.s), p, next - 1) then Some([])
          else Some([st])
    case Back(d, _) =>
      var l := d as int - '1' as int;
      if l < 0 || l >= |st.caps| || st.caps[l].len == UNFINISHED then None
      else if Repeated(e, st.s, st.caps[l]) then Some([st.(s := st.s + st.caps[l].len)])
      else Some([])
    case Single(p, ep) =>
      var m, n := MatchesAt(e, st.s, p, ep), Longest(e, st.s, p, ep);
      var one := st.(s := st.s + 1);
      match At(e.pat, ep)
      case '?' => Some(if m then [one, st] else [st])
      case '*' => Some(Down(st, n))
      case '+' => Some(if m then Down(one, n - 1) else [])
      case '-' => Some(UpTo(st, n))
      case _ => Some(if m then [one] else [])
  }

  // ---------- whole patterns ----------

  datatype Parse = Success(st: St) | Failure

  /** All parses from pattern position `p` and state `st`, in order of preference. */
  function All(e: Env, p: nat, st: St): seq<Parse>
    decreases |e.pat| - p, 0
  {
    var i := ItemAt(e.pat, p);
    if i.End? then [Success(st)]
    else if i.Dollar? then if st.s == |e.src| then [Success(st)] else []
    else if i.Malformed? then [Failure]
    else
      NextAdvances(e.pat, p);
      var sts := Step(e, i, st);
      if sts.None? then [Failure] else AllOf(e, Next(e.pat, i), sts.value)
  }

  function AllOf(e: Env, p: nat, sts: seq<St>): seq<Parse>
    decreases |e.pat| - p, |sts| + 1
  {
    if sts == [] then [] else All(e, p, sts[0]) + AllOf(e, p, sts[1..])
  }

  lemma {:induction false} AllOfConcat(e: Env, p: nat, a: seq<St>, b: seq<St>)
    ensures AllOf(e, p, a + b) == AllOf(e, p, a) + AllOf(e, p, b)
  {
    if a == [] {
      assert a + b == b;
    } else {
      assert (a + b)[1..] == a[1..] + b;
      AllOfConcat(e, p, a[1..], b);
    }
  }

  // ---------- parses as chains of steps ----------

  /** `sts` is a chain of states, each one of those that the next item allows, ending a pattern at `p`. */
  predicate Chain(e: Env, p: nat, sts: seq<St>)
    decreases |e.pat| - p
  {
    && |sts| > 0
    && var i := ItemAt(e.pat, p);
       if i.End? then |sts| == 1
       else if i.Dollar? then |sts| == 1 && sts[0].s == |e.src|
       else
         && Goes(i) && |sts| > 1
         && (NextAdvances(e.pat, p);
             var r := Step(e, i, sts[0]);
             r.Some? && sts[1] in r.value && Chain(e, Next(e.pat, i), sts[1..]))
  }

  /** Every parse in the list is the end of a chain. */
  lemma {:induction false} ParseIsChain(e: Env, p: nat, st: St, r: St) returns (sts: seq<St>)
    requires Success(r) in All(e, p, st)
    ensures Chain(e, p, sts) && sts[0] == st && sts[|sts|-1] == r
    decreases |e.pat| - p
  {
    var i := ItemAt(e.pat, p);
    if i.End? || i.Dollar? {
      sts := [st];
    } else {
      NextAdvances(e.pat, p);
      var n, list := Next(e.pat, i), Step(e, i, st).value;
      var k := InSome(e, n, list, Success(r));
      var rest := ParseIsChain(e, n, list[k], r);
      sts := [st] + rest;
      assert sts[1..] == rest;
    }
  }

  lemma {:induction false} InSome(e: Env, p: nat, sts: seq<St>, r: Parse) returns (k: nat)
    requires r in AllOf(e, p, sts)
    ensures k < |sts| && r in All(e, p, sts[k])
  {
    if r in All(e, p, sts[0]) {
      k := 0;
    } else {
      var j := InSome(e, p, sts[1..], r);
      k := j + 1;
    }
  }

  /** Every chain ends in a parse of the list. */
  lemma {:induction false} ChainIsParse(e: Env, p: nat, sts: seq<St>)
    requires Chain(e, p, sts)
    ensures Success(sts[|sts|-1]) in All(e, p, sts[0])
    decreases |e.pat| - p
  {
    var i := ItemAt(e.pat, p);
    if Goes(i) {
      NextAdvances(e.pat, p);
      var list := Step(e, i, sts[0]).value;
      ChainIsParse(e, Next(e.pat, i), sts[1..]);
      SomeIn(e, Next(e.pat, i), list, sts[1], Success(sts[|sts|-1]));
    }
  }

  lemma {:induction false} SomeIn(e: Env, p: nat, sts: seq<St>, st: St, r: Parse)
    requires st in sts && r in All(e, p, st)
    ensures r in AllOf(e, p, sts)
  {
    if st != sts[0] { SomeIn(e, p, sts[1..], st, r); }
  }

  /** An empty list means that there is no parse at all. */
  lemma EmptyMeansNone(e: Env, p: nat, st: St, sts: seq<St>)
    requires All(e, p, st) == [] && Chain(e, p, sts)
    ensures sts[0] != st
  {
    ChainIsParse(e, p, sts);
  }

  // ---------- the order of preference ----------

  /** The first alternative that leads to anything decides. */
  lemma {:induction false} FirstDecides(e: Env, p: nat, sts: seq<St>, k: nat)
    requires k < |sts| && All(e, p, sts[k]) != [] && forall j :: 0 <= j < k ==> All(e, p, sts[j]) == []
    ensures AllOf(e, p, sts) != [] && AllOf(e, p, sts)[0] == All(e, p, sts[k])[0]
  {
    if k > 0 {
      FirstDecides(e, p, sts[1..], k - 1);
    }
  }

  lemma {:induction false} DownAt(st: St, n: nat, j: nat)
    requires j <= n
    ensures |Down(st, n)| == n + 1 && Down(st, n)[j] == St(st.s + n - j, st.caps)
  {
    if n == 0 {
      assert Down(st, n - 1) == [];
    } else {
      DownAt(st, n - 1, if j == 0 then 0 else j - 1);
    }
  }

  lemma {:induction false} UpAt(st: St, n: nat, j: nat)
    requires j <= n
    ensures |UpTo(st, n)| == n + 1 && UpTo(st, n)[j] == St(st.s + j, st.caps)
    decreases n
  {
    if n > 0 { UpAt(st.(s := st.s + 1), n - 1, if j == 0 then 0 else j - 1); }
  }

  /** The state `j` characters further on. */
  function Ahead(st: St, j: nat): St { St(st.s + j, st.caps) }

  /** Greedy repetition takes as many characters as the rest of the pattern allows. */
  lemma GreedyTakesMost(e: Env, p: nat, st: St, n: nat, k: nat)
    requires k <= n && All(e, p, Ahead(st, k)) != []
    requires forall j :: k < j <= n ==> All(e, p, Ahead(st, j)) == []
    ensures AllOf(e, p, Down(st, n)) != [] && AllOf(e, p, Down(st, n))[0] == All(e, p, Ahead(st, k))[0]
  {
    var sts := Down(st, n);
    DownAt(st, n, n - k);
    forall j | 0 <= j < n - k ensures All(e, p, sts[j]) == [] {
      DownAt(st, n, j);
      assert sts[j] == Ahead(st, n - j);
    }
    FirstDecides(e, p, sts, n - k);
  }

  /** Lazy repetition takes as few as possible. */
  lemma LazyTakesLeast(e: Env, p: nat, st: St, n: nat, k: nat)
    requires k <= n && All(e, p, Ahead(st, k)) != []
    requires forall j :: 0 <= j < k ==> All(e, p, Ahead(st, j)) == []
    ensures AllOf(e, p, UpTo(st, n)) != [] && AllOf(e, p, UpTo(st, n))[0] == All(e, p, Ahead(st, k))[0]
  {
    var sts := UpTo(st, n);
    UpAt(st, n, k);
    forall j | 0 <= j < k ensures All(e, p, sts[j]) == [] {
      UpAt(st, n, j);
      assert sts[j] == Ahead(st, j);
    }
    FirstDecides(e, p, sts, k);
  }
}
