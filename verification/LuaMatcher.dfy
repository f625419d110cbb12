/**
 Lua patterns, part 2: the backtracking matcher.  It finds the first parse of the list that the pattern
 means, and leaves the captures alone if there is none.
 */
module LuaMatcher {
  import opened Options
  import opened LuaPattern

  datatype Outcome = Null | Found(s: nat) | Error | TooDeep

  /** How deep calls of the matcher may nest. */
  const LJ_MAX_XLEVEL: nat := 200

  /** Captures lie before position `s`. */
  predicate CapsOk(caps: seq<Capture>, s: nat) {
    |caps| <= MAXCAPTURES && forall i :: 0 <= i < |caps| ==> caps[i].init <= s && caps[i].init + caps[i].len <= s
  }

  /**
   What a call may answer: the first parse and its captures, or null with the captures as before.  When it gives
   up because calls nest too deep it says nothing about the parses.
   */
  predicate Answers(all: seq<Parse>, r: Outcome, caps: seq<Capture>, caps': seq<Capture>) {
    match r
    case Null => all == [] && caps' == caps
    case Found(s) => all != [] && all[0] == Success(St(s, caps')) && CapsOk(caps', s)
    case Error => all != [] && all[0] == Failure
    case TooDeep => true
  }

  /** With `n` characters of the pattern left at depth `d` the limit may be hit. */
  predicate MayNest(d: nat, n: int) { d + n >= LJ_MAX_XLEVEL }

  class MatchState {
    const e: Env
    var level: nat
    var depth: nat
    var capture: seq<Capture>

    constructor (e: Env)
      ensures this.e == e && Ready(0) && level == 0
    {
      this.e := e;
      level, depth := 0, 0;
      capture := seq(MAXCAPTURES, i => Capture(0, UNFINISHED));
    }

    /** The live captures. */
    ghost function Caps(): seq<Capture>
      reads this
      requires level <= |capture|
    {
      capture[..level]
    }

    ghost predicate Ready(s: nat)
      reads this
    {
      |capture| == MAXCAPTURES && level <= MAXCAPTURES && CapsOk(Caps(), s) && s <= |e.src|
    }

    // ---------- reading the pattern ----------

    method FindSetEnd(p: nat) returns (r: Option<nat>)
      requires p <= |e.pat|
      ensures r == SetEnd(e.pat, p)
    {
      var q := p;
      while true
        invariant q <= |e.pat| && SetEnd(e.pat, q) == SetEnd(e.pat, p)
        decreases |e.pat| - q
      {
        if At(e.pat, q) == '\0' { return None; }
        var c := At(e.pat, q);
        q := q + 1;
        if c == '%' && At(e.pat, q) != '\0' { q := q + 1; }
        if At(e.pat, q) == ']' { return Some(q + 1); }
      }
    }

    method FindClassEnd(p: nat) returns (r: Option<nat>)
      requires p < |e.pat|
      ensures r == ClassEnd(e.pat, p)
    {
      if At(e.pat, p) == '%' {
        r := if At(e.pat, p + 1) == '\0' then None else Some(p + 2);
      } else if At(e.pat, p) == '[' {
        r := FindSetEnd(if At(e.pat, p + 1) == '^' then p + 2 else p + 1);
      } else {
        r := Some(p + 1);
      }
    }

    method MatchBracketClass(c: char, p0: nat, ec: nat) returns (b: bool)
      ensures b == SetAccepts(e, c, p0, ec)
    {
      var sig, p := true, p0;
      if At(e.pat, p + 1) == '^' {
        sig := false;
        p := p + 1;
      }
      ghost var q := p + 1;
      p := p + 1;
      while p < ec
        invariant InSet(e, c, p, ec) == InSet(e, c, q, ec)
        decreases ec - p
      {
        if At(e.pat, p) == '%' {
          p := p + 1;
          if e.cls(c, At(e.pat, p)) { return sig; }
        } else if At(e.pat, p + 1) == '-' && p + 2 < ec {
          p := p + 2;
          if At(e.pat, p - 2) <= c <= At(e.pat, p) { return sig; }
        } else if At(e.pat, p) == c {
          return sig;
        }
        p := p + 1;
      }
      return !sig;
    }

    method SingleMatch(c: char, p: nat, ep: nat) returns (b: bool)
      requires ep > 0
      ensures b == Accepts(e, c, p, ep)
    {
      if At(e.pat, p) == '.' { b := true; }
      else if At(e.pat, p) == '%' { b := e.cls(c, At(e.pat, p + 1)); }
      else if At(e.pat, p) == '[' { b := MatchBracketClass(c, p, ep - 1); }
      else { b := At(e.pat, p) == c; }
    }

    method MatchBalance(s0: nat, b: char, x: char) returns (r: Outcome)
      requires s0 <= |e.src| && b != '\0'
      ensures r.Null? || r.Found?
      ensures var ends := if At(e.src, s0) != b then [] else Closing(e, s0 + 1, b, x, 1);
        if r.Null? then ends == [] else ends == [r.s] && s0 < r.s <= |e.src|
    {
      if At(e.src, s0) != b { return Null; }
      ClosingIs(e, s0 + 1, b, x, 1);
      var s, cont := s0 + 1, 1;
      while s < |e.src|
        invariant s0 < s <= |e.src| && cont > 0 && Closing(e, s, b, x, cont) == Closing(e, s0 + 1, b, x, 1)
        decreases |e.src| - s
      {
        if e.src[s] == x {
          cont := cont - 1;
          if cont == 0 { return Found(s + 1); }
        } else if e.src[s] == b {
          cont := cont + 1;
        }
        s := s + 1;
      }
      return Null;
    }

    /** Compare with the text of an earlier capture. */
    method MatchCapture(s: nat, d: char) returns (r: Outcome)
      requires Ready(s) && IsDigit(d)
      ensures match r
        case Error => Step(e, Back(d, 0), St(s, Caps())) == None
        case Null => Step(e, Back(d, 0), St(s, Caps())) == Some([])
        case Found(t) => s <= t <= |e.src| && Step(e, Back(d, 0), St(s, Caps())) == Some([St(t, Caps())])
        case TooDeep => false
    {
      var l := d as int - '1' as int;
      if l < 0 || l >= level || capture[l].len == UNFINISHED { return Error; }
      assert Caps()[l] == capture[l];
      var init, len := capture[l].init, capture[l].len;
      if len >= 0 && |e.src| - s >= len && e.src[init..init + len] == e.src[s..s + len] {
        return Found(s + len);
      }
      return Null;
    }

    // ---------- repetition ----------

    /** Is there a character at `s` that the class accepts? */
    method MatchesHere(s: nat, p: nat, ep: nat) returns (m: bool)
      requires s <= |e.src| && ep > 0
      ensures m == MatchesAt(e, s, p, ep) && (m ==> s < |e.src|)
      ensures Longest(e, s, p, ep) == if m then 1 + Longest(e, s + 1, p, ep) else 0
    {
      m := false;
      if s < |e.src| { m := SingleMatch(e.src[s], p, ep); }
    }

    /** How many characters from `s` on the class accepts. */
    method CountMatches(s: nat, p: nat, ep: nat) returns (i: nat)
      requires s <= |e.src| && ep > 0
      ensures i == Longest(e, s, p, ep) && s + i <= |e.src|
    {
      i := 0;
      while s + i < |e.src|
        invariant s + i <= |e.src| && i + Longest(e, s + i, p, ep) == Longest(e, s, p, ep)
        decreases |e.src| - (s + i)
      {
        var m := MatchesHere(s + i, p, ep);
        if !m { break; }
        i := i + 1;
      }
    }

    /** Greedy repetition: try the largest number of repetitions first. */
    method MaxExpand(s: nat, p: nat, ep: nat) returns (r: Outcome)
      requires Ready(s) && p < ep < |e.pat|
      modifies this`level, this`depth, this`capture
      ensures |capture| == MAXCAPTURES && level <= MAXCAPTURES
      ensures Answers(AllOf(e, ep + 1, Down(St(s, old(Caps())), Longest(e, s, p, ep))), r, old(Caps()), Caps())
      ensures r.Found? ==> r.s <= |e.src|
      ensures r.TooDeep? ==> MayNest(old(depth), |e.pat| - (p + 1))
      ensures r.Null? || r.Found? ==> depth == old(depth)
      decreases |e.pat| - p, 1
    {
      ghost var caps := Caps();
      var n := CountMatches(s, p, ep);
      ghost var sts := Down(St(s, caps), n);
      DownAt(St(s, caps), n, 0);
      var i: int := n;
      while i >= 0
        invariant -1 <= i <= n && |capture| == MAXCAPTURES && level <= MAXCAPTURES && Caps() == caps
        invariant |sts| == n + 1 && Tried(e, ep + 1, sts, n - i) && depth == old(depth)
        decreases i + 1
      {
        ghost var k := n - i;
        DownAt(St(s, caps), n, k);
        r := TryMatch(s, s + i, ep + 1, sts, k);
        if !r.Null? { return; }
        i := i - 1;
      }
      TriedAll(e, ep + 1, sts);
      return Null;
    }

    /** Try alternative `k` of `sts`, the ones before having failed. */
    method TryMatch(s0: nat, s: nat, p: nat, ghost sts: seq<St>, ghost k: nat) returns (r: Outcome)
      requires Ready(s0) && s0 <= s <= |e.src| && p <= |e.pat|
      requires k < |sts| && sts[k] == St(s, Caps()) && Tried(e, p, sts, k)
      modifies this`level, this`depth, this`capture
      ensures |capture| == MAXCAPTURES && level <= MAXCAPTURES && (r.Found? ==> r.s <= |e.src|)
      ensures r.Null? ==> Tried(e, p, sts, k + 1) && Caps() == old(Caps())
      ensures !r.Null? ==> Answers(AllOf(e, p, sts), r, old(Caps()), Caps())
      ensures r.TooDeep? ==> MayNest(old(depth), |e.pat| - p)
      ensures r.Null? || r.Found? ==> depth == old(depth)
      decreases |e.pat| - p, 5
    {
      ghost var caps := Caps();
      Later(caps, s0, s);
      r := Match(s, p);
      if r.Null? { TriedNext(e, p, sts, k); } else { TriedAnswers(e, p, sts, k, r, caps, Caps()); }
    }

    /** Lazy repetition: try the smallest number of repetitions first. */
    method MinExpand(s0: nat, p: nat, ep: nat) returns (r: Outcome)
      requires Ready(s0) && p < ep < |e.pat|
      modifies this`level, this`depth, this`capture
      ensures |capture| == MAXCAPTURES && level <= MAXCAPTURES
      ensures Answers(AllOf(e, ep + 1, UpTo(St(s0, old(Caps())), Longest(e, s0, p, ep))), r, old(Caps()), Caps())
      ensures r.Found? ==> r.s <= |e.src|
      ensures r.TooDeep? ==> MayNest(old(depth), |e.pat| - (p + 1))
      ensures r.Null? || r.Found? ==> depth == old(depth)
      decreases |e.pat| - p, 1
    {
      ghost var caps := Caps();
      ghost var n := Longest(e, s0, p, ep);
      ghost var sts := UpTo(St(s0, caps), n);
      UpAt(St(s0, caps), n, 0);
      var s := s0;
      while true
        invariant s0 <= s <= s0 + n && s <= |e.src| && |capture| == MAXCAPTURES && level <= MAXCAPTURES
            && Caps() == caps
        invariant |sts| == n + 1 && Tried(e, ep + 1, sts, s - s0) && s - s0 + Longest(e, s, p, ep) == n
        invariant depth == old(depth)
        decreases |e.src| - s
      {
        ghost var k := s - s0;
        UpAt(St(s0, caps), n, k);
        r := TryMatch(s0, s, ep + 1, sts, k);
        if !r.Null? { return; }
        var m := MatchesHere(s, p, ep);
        if !m {
          TriedAll(e, ep + 1, sts);
          return Null;
        }
        s := s + 1;
      }
    }

    // ---------- captures ----------

    method StartCapture(s: nat, p: nat, what: int) returns (r: Outcome)
      requires Ready(s) && p <= |e.pat| && (what == POSITION || what == UNFINISHED)
      modifies this`level, this`depth, this`capture
      ensures |capture| == MAXCAPTURES && level <= MAXCAPTURES
      ensures |old(Caps())| >= MAXCAPTURES ==> r == Error
      ensures |old(Caps())| < MAXCAPTURES ==>
          Answers(All(e, p, St(s, old(Caps()) + [Capture(s, what)])), r, old(Caps()), Caps())
      ensures r.Found? ==> r.s <= |e.src|
      ensures r.TooDeep? ==> MayNest(old(depth), |e.pat| - p)
      ensures r.Null? || r.Found? ==> depth == old(depth)
      decreases |e.pat| - p, 5
    {
      if level >= MAXCAPTURES { return Error; }
      ghost var caps := Caps();
      capture := capture[level := Capture(s, what)];
      level := level + 1;
      assert Caps() == caps + [Capture(s, what)];
      r := Match(s, p);
      if r.Null? {
        level := level - 1;
        assert Caps() == (caps + [Capture(s, what)])[..|caps|];
      }
    }

    /** The innermost open capture. */
    method CaptureToClose() returns (r: Option<nat>)
      requires level <= |capture|
      ensures r == ToClose(Caps())
    {
      var l := level;
      while l > 0
        invariant 0 <= l <= level <= |capture| && ToClose(capture[..l]) == ToClose(Caps())
      {
        l := l - 1;
        assert capture[..l+1][..l] == capture[..l];
        if capture[l].len == UNFINISHED { return Some(l); }
      }
      return None;
    }

    method EndCapture(s: nat, p: nat) returns (r: Outcome)
      requires Ready(s) && p <= |e.pat|
      modifies this`level, this`depth, this`capture
      ensures |capture| == MAXCAPTURES && level <= MAXCAPTURES
      ensures var l := ToClose(old(Caps()));
        if l.None? then r == Error
        else
          var caps := old(Caps());
          Answers(All(e, p, St(s, caps[l.value := Capture(caps[l.value].init, s - caps[l.value].init)])), r, caps,
              Caps())
      ensures r.Found? ==> r.s <= |e.src|
      ensures r.TooDeep? ==> MayNest(old(depth), |e.pat| - p)
      ensures r.Null? || r.Found? ==> depth == old(depth)
      decreases |e.pat| - p, 5
    {
      var o := CaptureToClose();
      if o.None? { return Error; }
      var l := o.value;
      ghost var caps := Caps();
      ghost var closed := caps[l := Capture(caps[l].init, s - caps[l].init)];
      capture := capture[l := Capture(capture[l].init, s - capture[l].init)];
      assert Caps() == closed;
      r := Match(s, p);
      if r.Null? {
        assert capture[l] == closed[l];
        capture := capture[l := Capture(capture[l].init, UNFINISHED)];
        assert Caps() == closed[l := caps[l]];
        assert Caps() == caps;
      }
    }

    // ---------- the matcher ----------

    /**
     Match from subject position `s` and pattern position `p`: the answer is the first of all parses, and null only
     if there is none, the live captures then being what they were.  A pattern of less than 200 characters never
     hits the limit on the depth.
     */
    method Match(s: nat, p: nat) returns (r: Outcome)
      requires Ready(s) && p <= |e.pat|
      modifies this`level, this`depth, this`capture
      ensures |capture| == MAXCAPTURES && level <= MAXCAPTURES
      ensures Answers(All(e, p, St(s, old(Caps()))), r, old(Caps()), Caps())
      ensures r.Found? ==> r.s <= |e.src|
      ensures r.TooDeep? ==> MayNest(old(depth), |e.pat| - p)
      ensures r.Null? || r.Found? ==> depth == old(depth)
      decreases |e.pat| - p, 4
    {
      depth := depth + 1;
      if depth > LJ_MAX_XLEVEL { return TooDeep; }
      r := MatchItems(s, p);
      if r.Null? || r.Found? { depth := depth - 1; }
    }

    /** The items of the pattern from `p0` on, one after the other. */
    method MatchItems(s0: nat, p0: nat) returns (r: Outcome)
      requires Ready(s0) && p0 <= |e.pat|
      modifies this`level, this`depth, this`capture
      ensures |capture| == MAXCAPTURES && level <= MAXCAPTURES
      ensures Answers(All(e, p0, St(s0, old(Caps()))), r, old(Caps()), Caps())
      ensures r.Found? ==> r.s <= |e.src|
      ensures r.TooDeep? ==> MayNest(old(depth), |e.pat| - (p0 + 1))
      ensures r.Null? || r.Found? ==> depth == old(depth)
      decreases |e.pat| - p0, 3
    {
      ghost var caps := Caps();
      ghost var all := All(e, p0, St(s0, caps));
      var s, p := s0, p0;
      while true
        invariant p0 <= p <= |e.pat| && Ready(s) && Caps() == caps && All(e, p, St(s, caps)) == all
        invariant depth == old(depth)
        decreases |e.pat| - p
      {
        var c, d := At(e.pat, p), At(e.pat, p + 1);
        if c == '\0' {
          return Found(s);
        } else if c == '(' || c == ')' {
          r := MatchParen(s, p);
          return;
        } else if c == '$' && d == '\0' {
          return if s == |e.src| then Found(s) else Null;
        } else if c == '%' && (d == 'b' || d == 'f' || IsDigit(d)) {
          var done;
          done, r, s, p := MatchEscape(s, p);
          if done { return; }
        } else {
          var ep := FindClassEnd(p);
          if ep.None? { return Error; }
          var done;
          done, r, s, p := MatchItem(s, p, ep.value);
          if done { return; }
        }
      }
    }

    /** The beginning or the end of a capture. */
    method MatchParen(s: nat, p: nat) returns (r: Outcome)
      requires Ready(s) && p < |e.pat| && (e.pat[p] == '(' || e.pat[p] == ')')
      modifies this`level, this`depth, this`capture
      ensures |capture| == MAXCAPTURES && level <= MAXCAPTURES && (r.Found? ==> r.s <= |e.src|)
      ensures Answers(All(e, p, St(s, old(Caps()))), r, old(Caps()), Caps())
      ensures r.TooDeep? ==> MayNest(old(depth), |e.pat| - (p + 1))
      ensures r.Null? || r.Found? ==> depth == old(depth)
      decreases |e.pat| - p, 2
    {
      if e.pat[p] == ')' {
        CloseNext(e, p, St(s, Caps()));
        r := EndCapture(s, p + 1);
      } else if At(e.pat, p + 1) == ')' {
        OpenNext(e, p, St(s, Caps()), POSITION, p + 2);
        r := StartCapture(s, p + 2, POSITION);
      } else {
        OpenNext(e, p, St(s, Caps()), UNFINISHED, p + 1);
        r := StartCapture(s, p + 1, UNFINISHED);
      }
    }

    /** A balanced string, a frontier or a back reference: either the answer, or where to go on. */
    method MatchEscape(s: nat, p: nat) returns (done: bool, r: Outcome, s': nat, p': nat)
      requires Ready(s) && p < |e.pat| && e.pat[p] == '%'
      requires var d := At(e.pat, p + 1); d == 'b' || d == 'f' || IsDigit(d)
      ensures done ==> (r.Null? || r.Error?) && Answers(All(e, p, St(s, Caps())), r, Caps(), Caps())
      ensures !done ==> Ready(s') && p < p' <= |e.pat| && All(e, p', St(s', Caps())) == All(e, p, St(s, Caps()))
    {
      var d := At(e.pat, p + 1);
      if d == 'b' {
        done, r, s', p' := MatchBalanced(s, p);
      } else if d == 'f' {
        done, r, s', p' := true, Error, s, p;
        if At(e.pat, p + 2) == '[' {
          var ep := FindClassEnd(p + 2);
          if ep.Some? { done, r, p' := MatchFrontier(s, p, ep.value); }
        }
      } else {
        done, r, s', p' := MatchBack(s, p, d);
      }
    }

    method MatchBalanced(s: nat, p: nat) returns (done: bool, r: Outcome, s': nat, p': nat)
      requires Ready(s) && p < |e.pat| && e.pat[p] == '%' && At(e.pat, p + 1) == 'b'
      ensures done ==> (r.Null? || r.Error?) && Answers(All(e, p, St(s, Caps())), r, Caps(), Caps())
      ensures !done ==> Ready(s') && p < p' <= |e.pat| && All(e, p', St(s', Caps())) == All(e, p, St(s, Caps()))
    {
      done, r, s', p' := true, Error, s, p;
      if At(e.pat, p + 2) == '\0' || At(e.pat, p + 3) == '\0' { return; }
      NextAdvances(e.pat, p);
      OneNext(e, p, St(s, Caps()));
      r := MatchBalance(s, At(e.pat, p + 2), At(e.pat, p + 3));
      if r.Found? {
        Later(Caps(), s, r.s);
        done, s', p' := false, r.s, p + 4;
      }
    }

    method MatchBack(s: nat, p: nat, d: char) returns (done: bool, r: Outcome, s': nat, p': nat)
      requires Ready(s) && p < |e.pat| && e.pat[p] == '%' && At(e.pat, p + 1) == d && IsDigit(d)
      ensures done ==> (r.Null? || r.Error?) && Answers(All(e, p, St(s, Caps())), r, Caps(), Caps())
      ensures !done ==> Ready(s') && p < p' <= |e.pat| && All(e, p', St(s', Caps())) == All(e, p, St(s, Caps()))
    {
      done, s', p' := true, s, p;
      NextAdvances(e.pat, p);
      OneNext(e, p, St(s, Caps()));
      r := MatchCapture(s, d);
      if r.Found? {
        Later(Caps(), s, r.s);
        done, s', p' := false, r.s, p + 2;
      }
    }

    method MatchFrontier(s: nat, p: nat, ep: nat) returns (done: bool, r: Outcome, p': nat)
      requires Ready(s) && ItemAt(e.pat, p) == Frontier(p + 2, ep) && p < ep <= |e.pat|
      ensures done ==> r == Null && All(e, p, St(s, Caps())) == []
      ensures !done ==> p' == ep && All(e, p', St(s, Caps())) == All(e, p, St(s, Caps()))
    {
      OneNext(e, p, St(s, Caps()));
      var previous := if s == 0 then '\0' else e.src[s - 1];
      var before := MatchBracketClass(previous, p + 2, ep - 1);
      var after := MatchBracketClass(At(e.src, s), p + 2, ep - 1);
      done, r, p' := before || !after, Null, ep;
    }

    /** A single-character item with its repetition: either the answer, or where to go on. */
    method MatchItem(s: nat, p: nat, ep: nat) returns (done: bool, r: Outcome, s': nat, p': nat)
      requires Ready(s) && p < |e.pat| && ItemAt(e.pat, p) == Single(p, ep) && p < ep <= |e.pat|
      modifies this`level, this`depth, this`capture
      ensures |capture| == MAXCAPTURES && level <= MAXCAPTURES && (r.Found? ==> r.s <= |e.src|)
      ensures done ==> Answers(All(e, p, St(s, old(Caps()))), r, old(Caps()), Caps())
      ensures !done ==> Ready(s') && Caps() == old(Caps()) && p < p' <= |e.pat| && depth == old(depth)
      ensures !done ==> All(e, p', St(s', Caps())) == All(e, p, St(s, Caps()))
      ensures r.TooDeep? ==> MayNest(old(depth), |e.pat| - (p + 1))
      ensures r.Null? || r.Found? ==> depth == old(depth)
      decreases |e.pat| - p, 2
    {
      ghost var caps := Caps();
      done, r, s', p' := true, Null, s, p;
      var m := MatchesHere(s, p, ep);
      Later(caps, s, s + 1);
      SingleNext(e, p, ep, St(s, caps));
      if At(e.pat, ep) == '?' {
        if m {
          r := Match(s + 1, ep + 1);
          if !r.Null? { return; }
        }
        done, p' := false, ep + 1;
      } else if At(e.pat, ep) == '*' {
        r := MaxExpand(s, p, ep);
      } else if At(e.pat, ep) == '+' {
        if m { r := MaxExpand(s + 1, p, ep); }
      } else if At(e.pat, ep) == '-' {
        r := MinExpand(s, p, ep);
      } else if m {
        done, s', p' := false, s + 1, ep;
      }
    }

    // ---------- searching ----------

    /** Look for the pattern from position `init` on, at that position only if anchored. */
    method Find(init: nat, p: nat, anchor: bool) returns (r: Outcome, start: nat)
      requires Ready(init) && p <= |e.pat|
      modifies this`level, this`depth, this`capture
      ensures |capture| == MAXCAPTURES && level <= MAXCAPTURES
      ensures init <= start && (r.Null? || start <= |e.src|) && (anchor && !r.Null? ==> start == init)
      ensures forall t :: init <= t < start && t <= |e.src| && (anchor ==> t == init) ==> All(e, p, St(t, [])) == []
      ensures r.Null? ==> start > if anchor then init else |e.src|
      ensures !r.Null? ==> Answers(All(e, p, St(start, [])), r, [], Caps())
      ensures r.TooDeep? ==> MayNest(0, |e.pat| - p)
    {
      start := init;
      while true
        invariant |capture| == MAXCAPTURES && init <= start <= |e.src| && (anchor ==> start == init)
        invariant forall t :: init <= t < start ==> All(e, p, St(t, [])) == []
        decreases |e.src| - start
      {
        level, depth := 0, 0;
        assert Caps() == [];
        r := Match(start, p);
        if !r.Null? { return; }
        var s1 := start;
        start := start + 1;
        if !(s1 < |e.src| && !anchor) { return; }
      }
    }
  }

  // ---------- the list of parses, item by item ----------

  lemma Later(caps: seq<Capture>, s: nat, t: nat)
    requires CapsOk(caps, s) && s <= t
    ensures CapsOk(caps, t)
  {
  }

  lemma OneOf(e: Env, p: nat, st: St)
    ensures AllOf(e, p, [st]) == All(e, p, st)
  {
    assert [st][1..] == [];
  }

  /** An item other than a single character leads to at most one state. */
  lemma OneNext(e: Env, p: nat, st: St)
    requires Goes(ItemAt(e.pat, p)) && !ItemAt(e.pat, p).Single?
    ensures var i := ItemAt(e.pat, p);
      (i.Frontier? ==> i.next > 0) &&
      match Step(e, i, st)
      case None => All(e, p, st) == [Failure]
      case Some(sts) => |sts| <= 1 && All(e, p, st) == if sts == [] then [] else All(e, Next(e.pat, i), sts[0])
  {
    NextAdvances(e.pat, p);
    var i := ItemAt(e.pat, p);
    var r := Step(e, i, st);
    if r.Some? && r.value != [] {
      assert r.value == [r.value[0]];
      OneOf(e, Next(e.pat, i), r.value[0]);
    }
  }

  lemma CloseNext(e: Env, p: nat, st: St)
    requires p < |e.pat| && e.pat[p] == ')'
    ensures match ToClose(st.caps)
      case None => All(e, p, st) == [Failure]
      case Some(l) =>
        All(e, p, st) == All(e, p + 1, St(st.s, st.caps[l := Capture(st.caps[l].init, st.s - st.caps[l].init)]))
  {
    assert ItemAt(e.pat, p) == Close(p + 1);
    OneNext(e, p, st);
  }

  lemma OpenNext(e: Env, p: nat, st: St, what: int, n: nat)
    requires p < |e.pat| && e.pat[p] == '('
    requires if At(e.pat, p + 1) == ')' then what == POSITION && n == p + 2 else what == UNFINISHED && n == p + 1
    ensures n <= |e.pat|
    ensures All(e, p, st) == if |st.caps| >= MAXCAPTURES then [Failure]
        else All(e, n, St(st.s, st.caps + [Capture(st.s, what)]))
  {
    assert ItemAt(e.pat, p) == Open(what == POSITION, n);
    OneNext(e, p, st);
  }

  lemma OptionalNext(e: Env, p: nat, ep: nat, st: St)
    requires ItemAt(e.pat, p) == Single(p, ep) && ep > 0 && At(e.pat, ep) == '?'
    ensures var one := st.(s := st.s + 1);
      All(e, p, st) == (if MatchesAt(e, st.s, p, ep) then All(e, ep + 1, one) else []) + All(e, ep + 1, st)
  {
    var one := st.(s := st.s + 1);
    AllOfConcat(e, ep + 1, [one], [st]);
    assert [one] + [st] == [one, st];
    OneOf(e, ep + 1, one);
    OneOf(e, ep + 1, st);
  }

  lemma SingleNext(e: Env, p: nat, ep: nat, st: St)
    requires ItemAt(e.pat, p) == Single(p, ep) && ep > 0
    ensures var m, one, c := MatchesAt(e, st.s, p, ep), st.(s := st.s + 1), At(e.pat, ep);
      && (c == '?' ==> All(e, p, st) == (if m then All(e, ep + 1, one) else []) + All(e, ep + 1, st))
      && (c == '*' ==> All(e, p, st) == AllOf(e, ep + 1, Down(st, Longest(e, st.s, p, ep))))
      && (c == '+' ==> All(e, p, st) == if m then AllOf(e, ep + 1, Down(one, Longest(e, st.s + 1, p, ep))) else [])
      && (c == '-' ==> All(e, p, st) == AllOf(e, ep + 1, UpTo(st, Longest(e, st.s, p, ep))))
      && (!Repeats(c) ==> All(e, p, st) == if m then All(e, ep, one) else [])
  {
    var one := st.(s := st.s + 1);
    if At(e.pat, ep) == '?' {
      OptionalNext(e, p, ep, st);
    } else if !Repeats(At(e.pat, ep)) {
      OneOf(e, ep, one);
    }
  }

  /** The first `k` alternatives lead to nothing. */
  ghost predicate Tried(e: Env, p: nat, sts: seq<St>, k: nat) {
    k <= |sts| && forall j :: 0 <= j < k ==> All(e, p, sts[j]) == []
  }

  lemma TriedNext(e: Env, p: nat, sts: seq<St>, k: nat)
    requires Tried(e, p, sts, k) && k < |sts| && All(e, p, sts[k]) == []
    ensures Tried(e, p, sts, k + 1)
  {
  }

  lemma TriedAnswers(e: Env, p: nat, sts: seq<St>, k: nat, r: Outcome, caps: seq<Capture>, caps': seq<Capture>)
    requires Tried(e, p, sts, k) && k < |sts| && Answers(All(e, p, sts[k]), r, caps, caps') && !r.Null?
    ensures Answers(AllOf(e, p, sts), r, caps, caps')
  {
    if !r.TooDeep? { FirstDecides(e, p, sts, k); }
  }

  lemma {:induction false} TriedAll(e: Env, p: nat, sts: seq<St>)
    requires Tried(e, p, sts, |sts|)
    ensures AllOf(e, p, sts) == []
  {
    if sts != [] { TriedAll(e, p, sts[1..]); }
  }

  // ---------- plain search ----------

  predicate OccursAt(t: seq<char>, w: seq<char>, i: nat) { i + |w| <= |t| && t[i..i + |w|] == w }

  /** The first occurrence of `c` among the `n` characters from `i` on. */
  method MemChr(t: seq<char>, c: char, i: nat, n: nat) returns (r: Option<nat>)
    requires i + n <= |t|
    ensures r.Some? ==> i <= r.value < i + n && t[r.value] == c && forall j :: i <= j < r.value ==> t[j] != c
    ensures r.None? ==> forall j :: i <= j < i + n ==> t[j] != c
  {
    for k := i to i + n
      invariant forall j :: i <= j < k ==> t[j] != c
    {
      if t[k] == c { return Some(k); }
    }
    return None;
  }

  /** Plain search: the first occurrence of `w` in `t`, if there is one. */
  method LMemFind(t: seq<char>, w: seq<char>) returns (r: Option<nat>)
    ensures r.Some? ==> OccursAt(t, w, r.value) && forall j :: 0 <= j < r.value ==> !OccursAt(t, w, j)
    ensures r.None? ==> forall j: nat :: !OccursAt(t, w, j)
  {
    if |w| == 0 { return Some(0); }
    if |w| > |t| { return None; }
    var l2 := |w| - 1;
    var s, l1 := 0, |t| - l2;
    while l1 > 0
      invariant 0 <= l1 && s + l1 == |t| - l2 && forall j :: 0 <= j < s ==> !OccursAt(t, w, j)
    {
      var found := MemChr(t, w[0], s, l1);
      if found.None? {
        NotFound(t, w, s, s + l1);
        return None;
      }
      var init := found.value + 1;
      NotFound(t, w, s, found.value);
      if t[init..init + l2] == w[1..] {
        assert t[found.value..found.value + |w|] == [t[found.value]] + t[init..init + l2] && w == [w[0]] + w[1..];
        return Some(found.value);
      }
      assert !OccursAt(t, w, found.value) by { assert t[found.value..found.value + |w|][1..] == t[init..init + l2]; }
      l1 := l1 - (init - s);
      s := init;
    }
    return None;
  }

  lemma NotFound(t: seq<char>, w: seq<char>, s: nat, n: nat)
    requires w != [] && n <= |t| && forall j :: s <= j < n ==> t[j] != w[0]
    ensures forall j :: s <= j < n ==> !OccursAt(t, w, j)
  {
    forall j | s <= j < n && j + |w| <= |t| ensures !OccursAt(t, w, j) { assert t[j..j + |w|][0] == t[j]; }
  }
}
