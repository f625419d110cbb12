/**
 Internet addresses as text, part 3: the texts that the IPv6 parser accepts, and the address that each one stands
 for.  They are the forms of section 2.2 of RFC 4291, where the double colon may stand for any run of zero groups.
 */
module InetAccept {
  import opened Options
  import opened InetText
  import opened InetText6

  // ---------- groups ----------

  predicate IsDigit(c: char) { '0' <= c <= '9' || 'a' <= c <= 'f' || 'A' <= c <= 'F' }

  /** The digit of value `v` in lower case or upper case. */
  predicate DigitFor(c: char, v: nat) {
    v < 16 && (c == "0123456789abcdef"[v] || c == "0123456789ABCDEF"[v])
  }

  lemma Listed(v: nat)
    requires v < 16
    ensures "0123456789abcdef"[v] as int == (if v < 10 then '0' as int + v else 'a' as int + v - 10)
    ensures "0123456789ABCDEF"[v] as int == (if v < 10 then '0' as int + v else 'A' as int + v - 10)
  {
  }

  /** A character has a value exactly as one of the digits for it. */
  lemma DigitExactly(c: char, v: nat)
    ensures DigitValue(c) == v <==> DigitFor(c, v)
    ensures DigitValue(c) >= 0 <==> IsDigit(c)
    ensures DigitValue(c) < 16
  {
    if v < 16 { Listed(v); }
  }

  predicate Digits(g: seq<char>) { forall i :: 0 <= i < |g| ==> IsDigit(g[i]) }

  /** The number that hexadecimal digits write. */
  function Value(g: seq<char>): (v: nat)
    requires Digits(g)
    ensures v < Power16(|g|)
  {
    if g == [] then 0
    else
      var n := |g| - 1;
      DigitExactly(g[n], 0);
      16 * Value(g[..n]) + DigitValue(g[n])
  }

  /** Zeros in front do not count. */
  lemma {:induction false} LeadingZero(g: seq<char>)
    requires Digits(g)
    ensures Digits(['0'] + g) && Value(['0'] + g) == Value(g)
  {
    var z := ['0'] + g;
    if g != [] {
      assert z[..|z|-1] == ['0'] + g[..|g|-1];
      LeadingZero(g[..|g|-1]);
    }
  }

  /** A group has one to four digits of either case; zeros may lead. */
  predicate IsGroup(g: seq<char>) { 1 <= |g| <= 4 && Digits(g) }

  predicate AllGroups(gs: seq<seq<char>>) { forall i :: 0 <= i < |gs| ==> IsGroup(gs[i]) }

  lemma GroupBound(n: nat)
    requires n <= 4
    ensures Power16(n) <= 65536
  {
    assert Power16(2) == 256 && Power16(3) == 4096;
  }

  function GroupWord(g: seq<char>): Word
    requires IsGroup(g)
  {
    GroupBound(|g|);
    Value(g)
  }

  function Words(gs: seq<seq<char>>): seq<Word>
    requires AllGroups(gs)
  {
    seq(|gs|, i requires 0 <= i < |gs| => GroupWord(gs[i]))
  }

  // ---------- addresses as they are written ----------

  /** The groups before a double colon, those after it if there is one, and an IPv4 address at the end if given. */
  datatype Text6 = Text6(left: seq<seq<char>>, right: Option<seq<seq<char>>>, tail: Option<seq<Byte>>)

  /** Groups each followed by a colon. */
  function Prefix(gs: seq<seq<char>>): seq<char> {
    if gs == [] then [] else Prefix(gs[..|gs|-1]) + gs[|gs|-1] + [':']
  }

  /** Groups separated by colons, with an IPv4 address behind them if there is one. */
  function Ending(gs: seq<seq<char>>, tail: Option<seq<Byte>>): seq<char> {
    if tail.Some? then Prefix(gs) + Dotted(tail.value)
    else if gs == [] then []
    else Prefix(gs[..|gs|-1]) + gs[|gs|-1]
  }

  /** The text, less the first of two leading colons. */
  function Body(t: Text6): seq<char> {
    match t.right
    case None => Ending(t.left, t.tail)
    case Some(right) => Prefix(t.left) + ([':'] + Ending(right, t.tail))
  }

  function Written(t: Text6): seq<char> {
    if t.left == [] && t.right.Some? then [':'] + Body(t) else Body(t)
  }

  /** How many bytes are given. */
  function Given(t: Text6): nat {
    2 * |t.left| + (if t.right.Some? then 2 * |t.right.value| else 0) + if t.tail.Some? then 4 else 0
  }

  /** All sixteen bytes are given, or a double colon stands for at least one that is not. */
  predicate WellFormed(t: Text6) {
    && AllGroups(t.left) && (t.right.Some? ==> AllGroups(t.right.value))
    && (t.tail.Some? ==> IsAddress4(t.tail.value))
    && if t.right.Some? then Given(t) < 16 else Given(t) == 16
  }

  function TailBytes(tail: Option<seq<Byte>>): seq<Byte> { if tail.Some? then tail.value else [] }

  /** The address that is written. */
  function Denoted(t: Text6): seq<Byte>
    requires WellFormed(t)
  {
    match t.right
    case None => BytesOf(Words(t.left)) + TailBytes(t.tail)
    case Some(right) =>
      BytesOf(Words(t.left)) + Zeros(16 - Given(t)) + (BytesOf(Words(right)) + TailBytes(t.tail))
  }

  // ---------- what has been read ----------

  function RightBytes(right: Option<seq<seq<char>>>): seq<Byte>
    requires right.Some? ==> AllGroups(right.value)
  {
    if right.Some? then BytesOf(Words(right.value)) else []
  }

  /** The parser has read these groups and the digits of the current one. */
  predicate HasRead(st: P6, left: seq<seq<char>>, right: Option<seq<seq<char>>>, cur: seq<char>) {
    && AllGroups(left) && (right.Some? ==> AllGroups(right.value))
    && st.bytes == BytesOf(Words(left)) + RightBytes(right)
    && st.colon == (if right.Some? then Some(2 * |left|) else None)
    && Digits(cur) && |cur| <= 4 && st.val == Value(cur) && st.seen == |cur|
    && |st.bytes| <= 16
  }

  function Before(left: seq<seq<char>>, right: Option<seq<seq<char>>>): seq<char> {
    Prefix(left) + if right.Some? then [':'] + Prefix(right.value) else []
  }

  lemma WordsLength(gs: seq<seq<char>>)
    requires AllGroups(gs)
    ensures |BytesOf(Words(gs))| == 2 * |gs|
  {
    BytesConcat(Words(gs), []);
  }

  lemma WordsSnoc(gs: seq<seq<char>>, g: seq<char>)
    requires AllGroups(gs) && IsGroup(g)
    ensures AllGroups(gs + [g])
    ensures BytesOf(Words(gs + [g])) == BytesOf(Words(gs)) + [Value(g) / 256 % 256, Value(g) % 256]
  {
    assert Words(gs + [g]) == Words(gs) + [GroupWord(g)];
    BytesConcat(Words(gs), [GroupWord(g)]);
    OneWord(GroupWord(g));
  }

  lemma PrefixSnoc(gs: seq<seq<char>>, g: seq<char>)
    ensures Prefix(gs + [g]) == Prefix(gs) + g + [':'] && Ending(gs + [g], None) == Prefix(gs) + g
  {
    var u := gs + [g];
    assert u[..|u|-1] == gs && u[|u|-1] == g;
  }

  /** The groups once the current one is among them. */
  function WithLeft(left: seq<seq<char>>, right: Option<seq<seq<char>>>, cur: seq<char>): seq<seq<char>> {
    if right.Some? then left else left + [cur]
  }

  function WithRight(right: Option<seq<seq<char>>>, cur: seq<char>): Option<seq<seq<char>>> {
    if right.Some? then Some(right.value + [cur]) else None
  }

  /** The current group is finished, after a double colon or before it. */
  lemma PushedRight(st: P6, left: seq<seq<char>>, right: seq<seq<char>>, cur: seq<char>, rest: seq<char>)
    requires HasRead(st, left, Some(right), cur) && cur != [] && |st.bytes| + 2 <= 16
    ensures HasRead(WithGroup(st, rest), left, Some(right + [cur]), [])
    ensures Before(left, Some(right + [cur])) == Before(left, Some(right)) + cur + [':']
  {
    WordsSnoc(right, cur);
    PrefixSnoc(right, cur);
    Regroup(BytesOf(Words(left)), BytesOf(Words(right)), [Value(cur) / 256 % 256, Value(cur) % 256]);
    MidText(Prefix(left), [':'], Prefix(right), cur);
  }

  lemma PushedLeft(st: P6, left: seq<seq<char>>, cur: seq<char>, rest: seq<char>)
    requires HasRead(st, left, None, cur) && cur != [] && |st.bytes| + 2 <= 16
    ensures HasRead(WithGroup(st, rest), left + [cur], None, [])
    ensures Before(left + [cur], None) == Before(left, None) + cur + [':']
  {
    LeftText(left, cur);
    WordsSnoc(left, cur);
    AddNone(BytesOf(Words(left)));
    AddNone(BytesOf(Words(left + [cur])));
  }

  lemma LeftText(left: seq<seq<char>>, g: seq<char>)
    ensures Before(left + [g], None) == Before(left, None) + g + [':']
  {
    PrefixSnoc(left, g);
    assert Prefix(left) + [] == Prefix(left) && Prefix(left + [g]) + [] == Prefix(left + [g]);
  }

  lemma AddNone(x: seq<Byte>)
    ensures x + [] == x
  {
  }

  lemma PushedRead(st: P6, left: seq<seq<char>>, right: Option<seq<seq<char>>>, cur: seq<char>, rest: seq<char>)
    requires HasRead(st, left, right, cur) && cur != [] && |st.bytes| + 2 <= 16
    ensures var l, r := WithLeft(left, right, cur), WithRight(right, cur);
      && HasRead(WithGroup(st, rest), l, r, [])
      && Before(l, r) == Before(left, right) + cur + [':']
  {
    if right.Some? { PushedRight(st, left, right.value, cur, rest); } else { PushedLeft(st, left, cur, rest); }
  }

  lemma Regroup(x: seq<Byte>, y: seq<Byte>, z: seq<Byte>)
    ensures x + y + z == x + (y + z)
  {
  }

  lemma MoveOver(x: seq<char>, s: seq<char>)
    requires s != []
    ensures x + [s[0]] + s[1..] == x + s
  {
  }

  lemma MoveLast(g: seq<char>, rest: seq<char>)
    requires g != []
    ensures var n := |g| - 1;
      g[..n] + ([g[n]] + rest) == g + rest && ([g[n]] + rest)[1..] == rest && g[..n] + [g[n]] == g
  {
  }

  lemma MidText(x: seq<char>, y: seq<char>, z: seq<char>, g: seq<char>)
    ensures x + (y + (z + g + [':'])) == x + (y + z) + g + [':']
  {
  }

  lemma ValueSnoc(cur: seq<char>, c: char)
    requires Digits(cur) && IsDigit(c)
    ensures Digits(cur + [c]) && Value(cur + [c]) == 16 * Value(cur) + DigitValue(c)
  {
    var u := cur + [c];
    assert u[..|u|-1] == cur;
  }

  // ---------- what is accepted is written so ----------

  lemma GapLength(t: Text6, x: seq<Byte>, y: seq<Byte>)
    requires AllGroups(t.left) && t.right.Some? && AllGroups(t.right.value)
        && (t.tail.Some? ==> IsAddress4(t.tail.value))
    requires x == BytesOf(Words(t.left)) && y == BytesOf(Words(t.right.value)) + TailBytes(t.tail)
    ensures |x| == 2 * |t.left| && |x| + |y| == Given(t)
  {
    WordsLength(t.left);
    WordsLength(t.right.value);
  }

  /** The end of a text with a double colon. */
  lemma FinishGap(st: P6, left: seq<seq<char>>, right: seq<seq<char>>, tail: Option<seq<Byte>>)
    requires AllGroups(left) && AllGroups(right) && (tail.Some? ==> IsAddress4(tail.value))
    requires st.bytes == BytesOf(Words(left)) + (BytesOf(Words(right)) + TailBytes(tail))
    requires st.seen == 0 && st.colon == Some(2 * |left|)
    ensures var t := Text6(left, Some(right), tail);
      if WellFormed(t) then Finish(st) == Some(Denoted(t)) else Finish(st) == None
  {
    var t, x, y := Text6(left, Some(right), tail), BytesOf(Words(left)), BytesOf(Words(right)) + TailBytes(tail);
    GapLength(t, x, y);
    if Given(t) < 16 { FinishShort(x, y, 16 - Given(t), st); }
  }

  /** The end of a text without one. */
  lemma FinishPlain(st: P6, left: seq<seq<char>>, tail: Option<seq<Byte>>)
    requires AllGroups(left) && (tail.Some? ==> IsAddress4(tail.value))
    requires st.bytes == BytesOf(Words(left)) + TailBytes(tail) && st.seen == 0 && st.colon == None
    ensures var t := Text6(left, None, tail);
      if WellFormed(t) then Finish(st) == Some(Denoted(t)) else Finish(st) == None
  {
    WordsLength(left);
  }

  /** The end of the text, after the last group and the IPv4 address if there is one. */
  lemma FinishMeans(st: P6, left: seq<seq<char>>, right: Option<seq<seq<char>>>, tail: Option<seq<Byte>>)
    requires AllGroups(left) && (right.Some? ==> AllGroups(right.value)) && (tail.Some? ==> IsAddress4(tail.value))
    requires st.bytes == BytesOf(Words(left)) + RightBytes(right) + TailBytes(tail) && st.seen == 0
    requires st.colon == if right.Some? then Some(2 * |left|) else None
    ensures var t := Text6(left, right, tail);
      if WellFormed(t) then Finish(st) == Some(Denoted(t)) else Finish(st) == None
  {
    Regroup(BytesOf(Words(left)), RightBytes(right), TailBytes(tail));
    if right.Some? {
      FinishGap(st, left, right.value, tail);
    } else {
      assert [] + TailBytes(tail) == TailBytes(tail);
      FinishPlain(st, left, tail);
    }
  }

  // ---------- one character ----------

  function WithDigit(st: P6, c: char): P6
    requires IsDigit(c)
  {
    DigitExactly(c, 0);
    st.(val := st.val * 16 + DigitValue(c), seen := st.seen + 1)
  }

  function WithGap(st: P6, rest: seq<char>): P6 { st.(colon := Some(|st.bytes|), tok := rest) }

  function WithGroup(st: P6, rest: seq<char>): P6 { P6(Pushed(st), st.colon, 0, 0, rest) }

  lemma ParseDigit(st: P6, s: seq<char>)
    requires s != [] && IsDigit(s[0])
    ensures Parse6(st, s) == if st.seen < 4 then Parse6(WithDigit(st, s[0]), s[1..]) else None
  {
    DigitExactly(s[0], 0);
  }

  lemma ParseColon(st: P6, rest: seq<char>)
    requires Parse6(st, [':'] + rest).Some?
    ensures st.seen == 0 ==> st.colon.None? && Parse6(st, [':'] + rest) == Parse6(WithGap(st, rest), rest)
    ensures st.seen != 0 ==>
      rest != [] && |st.bytes| + 2 <= 16 && Parse6(st, [':'] + rest) == Parse6(WithGroup(st, rest), rest)
  {
    assert ([':'] + rest)[1..] == rest;
  }

  lemma ParseDot(st: P6, s: seq<char>)
    requires s != [] && s[0] != ':' && !IsDigit(s[0]) && Parse6(st, s).Some?
    ensures |st.bytes| + 4 <= 16 && Pton4(st.tok).Some?
    ensures Parse6(st, s) == Finish(P6(st.bytes + Pton4(st.tok).value, st.colon, 0, 0, []))
  {
    DigitExactly(s[0], 0);
  }

  lemma FinishGroup(st: P6, rest: seq<char>)
    requires st.seen != 0
    ensures Finish(st) == if |st.bytes| + 2 <= 16 then Finish(WithGroup(st, rest)) else None
  {
  }

  /** What `Parse6` goes on with after a digit. */
  lemma DigitRead(st: P6, left: seq<seq<char>>, right: Option<seq<seq<char>>>, cur: seq<char>, c: char)
    requires HasRead(st, left, right, cur) && |cur| < 4 && IsDigit(c)
    ensures HasRead(WithDigit(st, c), left, right, cur + [c])
  {
    DigitExactly(c, 0);
    ValueSnoc(cur, c);
  }

  /** A colon without a group before it opens the gap. */
  lemma GapRead(st: P6, left: seq<seq<char>>, rest: seq<char>)
    requires HasRead(st, left, None, [])
    ensures HasRead(WithGap(st, rest), left, Some([]), [])
        && Before(left, Some([])) == Before(left, None) + [':']
  {
    WordsLength(left);
    assert BytesOf(Words([])) == [];
  }

  /** Where a text is left to end: not behind the colon of a group. */
  predicate MayEnd(left: seq<seq<char>>, right: Option<seq<seq<char>>>, cur: seq<char>, s: seq<char>) {
    cur == [] && s == [] ==> if right.Some? then right.value == [] else left == []
  }

  /** The text consists of what has been read and what follows. */
  predicate Spells(t: Text6, left: seq<seq<char>>, right: Option<seq<seq<char>>>, u: seq<char>) {
    WellFormed(t) && Body(t) == Before(left, right) + u
  }

  lemma Later(t: Text6, left: seq<seq<char>>, right: Option<seq<seq<char>>>, l: seq<seq<char>>,
      r: Option<seq<seq<char>>>, x: seq<char>, u: seq<char>)
    requires Spells(t, l, r, u) && Before(l, r) == Before(left, right) + x
    ensures Spells(t, left, right, x + u)
  {
    Glue(Before(left, right), x, u);
  }

  /** Every accepted text is written in one of these forms and gives the address that it denotes. */
  lemma {:induction false} AcceptedIsWritten(st: P6, left: seq<seq<char>>, right: Option<seq<seq<char>>>,
      cur: seq<char>, s: seq<char>) returns (t: Text6)
    requires HasRead(st, left, right, cur) && st.tok == cur + s && MayEnd(left, right, cur, s) && Parse6(st, s).Some?
    ensures Spells(t, left, right, cur + s) && Parse6(st, s) == Some(Denoted(t))
    decreases |s|, 2
  {
    if s == [] {
      t := AtEnd(st, left, right, cur);
      assert cur + s == cur;
      return;
    }
    var c, rest := s[0], s[1..];
    if IsDigit(c) {
      t := AtDigit(st, left, right, cur, s);
    } else if c == ':' {
      t := AtColon(st, left, right, cur, rest);
      assert s == [':'] + rest;
    } else {
      t := AtDot(st, left, right, cur, s);
    }
  }

  lemma {:induction false} AtDigit(st: P6, left: seq<seq<char>>, right: Option<seq<seq<char>>>, cur: seq<char>,
      s: seq<char>) returns (t: Text6)
    requires HasRead(st, left, right, cur) && st.tok == cur + s && s != [] && IsDigit(s[0]) && Parse6(st, s).Some?
    ensures Spells(t, left, right, cur + s) && Parse6(st, s) == Some(Denoted(t))
    decreases |s|, 1
  {
    var c, rest := s[0], s[1..];
    ParseDigit(st, s);
    DigitRead(st, left, right, cur, c);
    MoveOver(cur, s);
    t := AcceptedIsWritten(WithDigit(st, c), left, right, cur + [c], rest);
  }

  lemma {:induction false} AtColon(st: P6, left: seq<seq<char>>, right: Option<seq<seq<char>>>, cur: seq<char>,
      rest: seq<char>) returns (t: Text6)
    requires HasRead(st, left, right, cur) && Parse6(st, [':'] + rest).Some?
    ensures Spells(t, left, right, cur + ([':'] + rest)) && Parse6(st, [':'] + rest) == Some(Denoted(t))
    decreases |rest|, 4
  {
    ParseColon(st, rest);
    if cur == [] {
      t := AtGap(st, left, rest);
      assert cur + ([':'] + rest) == [':'] + rest;
    } else {
      t := AtGroup(st, left, right, cur, rest);
    }
  }

  lemma {:induction false} AtGap(st: P6, left: seq<seq<char>>, rest: seq<char>) returns (t: Text6)
    requires HasRead(st, left, None, []) && Parse6(WithGap(st, rest), rest).Some?
    ensures Spells(t, left, None, [':'] + rest) && Parse6(WithGap(st, rest), rest) == Some(Denoted(t))
    decreases |rest|, 3
  {
    assert [] + rest == rest;
    GapRead(st, left, rest);
    t := AcceptedIsWritten(WithGap(st, rest), left, Some([]), [], rest);
    Later(t, left, None, left, Some([]), [':'], rest);
  }

  lemma {:induction false} AtGroup(st: P6, left: seq<seq<char>>, right: Option<seq<seq<char>>>, cur: seq<char>,
      rest: seq<char>) returns (t: Text6)
    requires HasRead(st, left, right, cur) && cur != [] && |st.bytes| + 2 <= 16 && rest != []
    requires Parse6(WithGroup(st, rest), rest).Some?
    ensures Spells(t, left, right, cur + ([':'] + rest)) && Parse6(WithGroup(st, rest), rest) == Some(Denoted(t))
    decreases |rest|, 3
  {
    assert [] + rest == rest;
    PushedRead(st, left, right, cur, rest);
    var l, r := WithLeft(left, right, cur), WithRight(right, cur);
    t := AcceptedIsWritten(WithGroup(st, rest), l, r, [], rest);
    Glue(Before(left, right), cur, [':']);
    Later(t, left, right, l, r, cur + [':'], rest);
    Glue(cur, [':'], rest);
  }

  lemma AtEnd(st: P6, left: seq<seq<char>>, right: Option<seq<seq<char>>>, cur: seq<char>) returns (t: Text6)
    requires HasRead(st, left, right, cur) && MayEnd(left, right, cur, []) && Finish(st).Some?
    ensures Spells(t, left, right, cur) && Finish(st) == Some(Denoted(t))
  {
    if cur == [] {
      FinishMeans(st, left, right, None);
      t := Text6(left, right, None);
      EndingPlain(left, right);
    } else {
      t := AtLast(st, left, right, cur);
    }
  }

  lemma AtLast(st: P6, left: seq<seq<char>>, right: Option<seq<seq<char>>>, cur: seq<char>) returns (t: Text6)
    requires HasRead(st, left, right, cur) && cur != [] && Finish(st).Some?
    ensures Spells(t, left, right, cur) && Finish(st) == Some(Denoted(t))
  {
    var l, r := WithLeft(left, right, cur), WithRight(right, cur);
    FinishGroup(st, []);
    PushedRead(st, left, right, cur, []);
    FinishMeans(WithGroup(st, []), l, r, None);
    t := Text6(l, r, None);
    EndingGroup(left, right, cur);
  }

  lemma EndingPlain(left: seq<seq<char>>, right: Option<seq<seq<char>>>)
    requires if right.Some? then right.value == [] else left == []
    ensures Body(Text6(left, right, None)) == Before(left, right) + []
  {
  }

  lemma EndingGroup(left: seq<seq<char>>, right: Option<seq<seq<char>>>, g: seq<char>)
    ensures Body(Text6(WithLeft(left, right, g), WithRight(right, g), None)) == Before(left, right) + g
  {
    if right.Some? {
      PrefixSnoc(right.value, g);
      Glue([':'], Prefix(right.value), g);
      Glue(Prefix(left), [':'] + Prefix(right.value), g);
    } else {
      PrefixSnoc(left, g);
    }
  }

  lemma EndingDotted(left: seq<seq<char>>, right: Option<seq<seq<char>>>, a: seq<Byte>)
    ensures Body(Text6(left, right, Some(a))) == Before(left, right) + Dotted(a)
  {
    if right.Some? {
      Glue([':'], Prefix(right.value), Dotted(a));
      Glue(Prefix(left), [':'] + Prefix(right.value), Dotted(a));
    }
  }

  lemma AtDot(st: P6, left: seq<seq<char>>, right: Option<seq<seq<char>>>, cur: seq<char>, s: seq<char>)
      returns (t: Text6)
    requires HasRead(st, left, right, cur) && st.tok == cur + s && s != [] && s[0] != ':' && !IsDigit(s[0])
    requires Parse6(st, s).Some?
    ensures Spells(t, left, right, cur + s) && Parse6(st, s) == Some(Denoted(t))
  {
    ParseDot(st, s);
    var a := Pton4(st.tok).value;
    Exact4(st.tok, a);
    t := Text6(left, right, Some(a));
    FinishMeans(P6(st.bytes + a, st.colon, 0, 0, []), left, right, Some(a));
    EndingDotted(left, right, a);
  }

  // ---------- what is written so is accepted ----------

  /** The digits of a group. */
  lemma {:induction false} ReadDigits(st: P6, left: seq<seq<char>>, right: Option<seq<seq<char>>>, g: seq<char>,
      rest: seq<char>) returns (st': P6)
    requires HasRead(st, left, right, []) && Digits(g) && |g| <= 4
    ensures HasRead(st', left, right, g) && st'.tok == st.tok && Parse6(st, g + rest) == Parse6(st', rest)
  {
    if g == [] {
      st' := st;
      assert g + rest == rest;
    } else {
      var n := |g| - 1;
      var last := [g[n]] + rest;
      var st1 := ReadDigits(st, left, right, g[..n], last);
      MoveLast(g, rest);
      ParseDigit(st1, last);
      DigitRead(st1, left, right, g[..n], g[n]);
      st' := WithDigit(st1, g[n]);
    }
  }

  /** A group and its colon. */
  lemma ReadOne(st: P6, left: seq<seq<char>>, right: Option<seq<seq<char>>>, g: seq<char>, rest: seq<char>)
      returns (st': P6)
    requires HasRead(st, left, right, []) && IsGroup(g) && |st.bytes| + 2 <= 16 && rest != []
    ensures HasRead(st', WithLeft(left, right, g), WithRight(right, g), []) && st'.tok == rest
    ensures Parse6(st, g + ([':'] + rest)) == Parse6(st', rest)
  {
    var st1 := ReadDigits(st, left, right, g, [':'] + rest);
    ReadColon(st1, rest);
    PushedRead(st1, left, right, g, rest);
    st' := WithGroup(st1, rest);
  }

  /** Groups and their colons. */
  lemma {:induction false} ReadLeft(st: P6, gs: seq<seq<char>>, rest: seq<char>) returns (st': P6)
    requires HasRead(st, [], None, []) && AllGroups(gs) && 2 * |gs| <= 16 && rest != [] && st.tok == Prefix(gs) + rest
    ensures HasRead(st', gs, None, []) && st'.tok == rest && Parse6(st, Prefix(gs) + rest) == Parse6(st', rest)
  {
    if gs == [] {
      st' := st;
      assert Prefix(gs) + rest == rest;
    } else {
      var n := |gs| - 1;
      var g, more := gs[n], gs[n] + ([':'] + rest);
      assert gs[..n] + [g] == gs;
      PrefixMore(gs[..n], g, rest);
      var st1 := ReadLeft(st, gs[..n], more);
      WordsLength(gs[..n]);
      st' := ReadOne(st1, gs[..n], None, g, rest);
    }
  }

  lemma PrefixMore(front: seq<seq<char>>, g: seq<char>, rest: seq<char>)
    ensures Prefix(front + [g]) + rest == Prefix(front) + (g + ([':'] + rest))
  {
    PrefixSnoc(front, g);
    Glue3(Prefix(front), g, [':'], rest);
  }

  lemma Glue3(a: seq<char>, b: seq<char>, c: seq<char>, d: seq<char>)
    ensures a + b + c + d == a + (b + (c + d))
  {
  }

  lemma {:induction false} ReadRight(st: P6, left: seq<seq<char>>, gs: seq<seq<char>>, rest: seq<char>)
      returns (st': P6)
    requires HasRead(st, left, Some([]), []) && AllGroups(gs) && 2 * |left| + 2 * |gs| <= 16 && rest != []
    requires st.tok == Prefix(gs) + rest
    ensures HasRead(st', left, Some(gs), []) && st'.tok == rest && Parse6(st, Prefix(gs) + rest) == Parse6(st', rest)
  {
    if gs == [] {
      st' := st;
      assert Prefix(gs) + rest == rest;
    } else {
      var n := |gs| - 1;
      var g, more := gs[n], gs[n] + ([':'] + rest);
      assert gs[..n] + [g] == gs;
      PrefixMore(gs[..n], g, rest);
      var st1 := ReadRight(st, left, gs[..n], more);
      WordsLength(left);
      WordsLength(gs[..n]);
      st' := ReadOne(st1, left, Some(gs[..n]), g, rest);
    }
  }

  /** The last part is the one behind the double colon if there is one. */
  function LeftOf(left: seq<seq<char>>, right: Option<seq<seq<char>>>, gs: seq<seq<char>>): seq<seq<char>> {
    if right.Some? then left else gs
  }

  function RightOf(right: Option<seq<seq<char>>>, gs: seq<seq<char>>): Option<seq<seq<char>>> {
    if right.Some? then Some(gs) else None
  }

  predicate AtStart(left: seq<seq<char>>, right: Option<seq<seq<char>>>) {
    if right.Some? then right.value == [] else left == []
  }

  lemma ReadPart(st: P6, left: seq<seq<char>>, right: Option<seq<seq<char>>>, gs: seq<seq<char>>, rest: seq<char>)
      returns (st': P6)
    requires AtStart(left, right) && HasRead(st, left, right, []) && st.tok == Prefix(gs) + rest
    requires AllGroups(gs) && 2 * |left| + 2 * |gs| <= 16 && rest != []
    ensures HasRead(st', LeftOf(left, right, gs), RightOf(right, gs), []) && st'.tok == rest
    ensures Parse6(st, Prefix(gs) + rest) == Parse6(st', rest)
  {
    if right.Some? { st' := ReadRight(st, left, gs, rest); } else { st' := ReadLeft(st, gs, rest); }
  }

  /** The text of the last part, with all its groups or an IPv4 address behind them. */
  lemma ReadEnding(st: P6, left: seq<seq<char>>, right: Option<seq<seq<char>>>, gs: seq<seq<char>>,
      tail: Option<seq<Byte>>)
    requires AtStart(left, right) && HasRead(st, left, right, []) && st.tok == Ending(gs, tail)
    requires WellFormed(Text6(LeftOf(left, right, gs), RightOf(right, gs), tail))
    ensures Parse6(st, Ending(gs, tail)) == Some(Denoted(Text6(LeftOf(left, right, gs), RightOf(right, gs), tail)))
  {
    if tail.Some? {
      var st1 := ReadPart(st, left, right, gs, Dotted(tail.value));
      ReadTail4(st1, LeftOf(left, right, gs), RightOf(right, gs), tail.value);
    } else if gs == [] {
      FinishMeans(st, left, right, None);
    } else {
      var n := |gs| - 1;
      assert gs[..n] + [gs[n]] == gs && IsGroup(gs[n]);
      ReadPlain(st, left, right, gs[..n], gs[n]);
    }
  }

  lemma ReadPlain(st: P6, left: seq<seq<char>>, right: Option<seq<seq<char>>>, front: seq<seq<char>>, g: seq<char>)
    requires AtStart(left, right) && HasRead(st, left, right, []) && st.tok == Prefix(front) + g
    requires AllGroups(front) && IsGroup(g) && 2 * |left| + 2 * |front| + 2 <= 16
    requires WellFormed(Text6(LeftOf(left, right, front + [g]), RightOf(right, front + [g]), None))
    ensures Parse6(st, Prefix(front) + g)
         == Some(Denoted(Text6(LeftOf(left, right, front + [g]), RightOf(right, front + [g]), None)))
  {
    var st1 := ReadPart(st, left, right, front, g);
    LastOf(left, right, front, g);
    ReadLast(st1, LeftOf(left, right, front), RightOf(right, front), g);
  }

  lemma LastOf(left: seq<seq<char>>, right: Option<seq<seq<char>>>, front: seq<seq<char>>, g: seq<char>)
    ensures LeftOf(left, right, front + [g])
         == WithLeft(LeftOf(left, right, front), RightOf(right, front), g)
    ensures RightOf(right, front + [g]) == WithRight(RightOf(right, front), g)
  {
  }

  lemma ReadTail4(st: P6, left: seq<seq<char>>, right: Option<seq<seq<char>>>, a: seq<Byte>)
    requires HasRead(st, left, right, []) && st.tok == Dotted(a) && WellFormed(Text6(left, right, Some(a)))
    ensures Parse6(st, Dotted(a)) == Some(Denoted(Text6(left, right, Some(a))))
  {
    WordsLength(left);
    if right.Some? { WordsLength(right.value); }
    ReadEmbedded(st, a);
    FinishMeans(P6(st.bytes + a, st.colon, 0, 0, []), left, right, Some(a));
  }

  lemma ReadLast(st: P6, left: seq<seq<char>>, right: Option<seq<seq<char>>>, g: seq<char>)
    requires HasRead(st, left, right, []) && IsGroup(g)
    requires WellFormed(Text6(WithLeft(left, right, g), WithRight(right, g), None))
    ensures Parse6(st, g) == Some(Denoted(Text6(WithLeft(left, right, g), WithRight(right, g), None)))
  {
    WordsLength(left);
    if right.Some? { WordsLength(right.value); }
    var st1 := ReadDigits(st, left, right, g, []);
    assert g + [] == g;
    FinishGroup(st1, []);
    PushedRead(st1, left, right, g, []);
    FinishMeans(WithGroup(st1, []), WithLeft(left, right, g), WithRight(right, g), None);
  }

  // ---------- the whole text ----------

  lemma {:induction false} PrefixStart(gs: seq<seq<char>>)
    requires AllGroups(gs) && gs != []
    ensures |Prefix(gs)| >= 2 && Prefix(gs)[0] != ':'
  {
    var n := |gs| - 1;
    if n > 0 { PrefixStart(gs[..n]); }
  }

  /** A text begins with a colon only for a double colon in front. */
  lemma BodyStart(t: Text6)
    requires WellFormed(t)
    ensures Body(t) != [] && (Body(t)[0] == ':' <==> t.left == [] && t.right.Some?)
  {
    if t.left != [] {
      PrefixStart(t.left);
      if |t.left| > 1 { PrefixStart(t.left[..|t.left|-1]); }
    }
  }

  /** Reading a text from its beginning on. */
  lemma ReadBody(t: Text6)
    requires WellFormed(t)
    ensures Parse6(P6([], None, 0, 0, Body(t)), Body(t)) == Some(Denoted(t))
  {
    var st := P6([], None, 0, 0, Body(t));
    assert BytesOf(Words([])) == [];
    match t.right
    case None => ReadEnding(st, [], None, t.left, t.tail);
    case Some(right) =>
      var rest := Ending(right, t.tail);
      var st1 := ReadLeft(st, t.left, [':'] + rest);
      GapRead(st1, t.left, rest);
      assert ([':'] + rest)[1..] == rest;
      ReadEnding(WithGap(st1, rest), t.left, Some([]), right, t.tail);
  }

  lemma WrittenIsAccepted(t: Text6)
    requires WellFormed(t)
    ensures Pton6(Written(t)) == Some(Denoted(t))
  {
    ReadBody(t);
    BodyStart(t);
    assert ([':'] + Body(t))[1..] == Body(t);
  }

  lemma AcceptedText(s: seq<char>) returns (t: Text6)
    requires Pton6(s).Some?
    ensures WellFormed(t) && Written(t) == s && Pton6(s) == Some(Denoted(t))
  {
    var u := if s != [] && s[0] == ':' then s[1..] else s;
    assert BytesOf(Words([])) == [];
    t := AcceptedIsWritten(P6([], None, 0, 0, u), [], None, [], u);
    assert Before([], None) + ([] + u) == u;
    BodyStart(t);
    assert s != [] && s[0] == ':' ==> s == [':'] + u;
  }

  /** The text is one of the forms in which the address is written. */
  ghost predicate Writes(s: seq<char>, a: seq<Byte>) {
    exists t: Text6 :: WellFormed(t) && Written(t) == s && Denoted(t) == a
  }

  /** The IPv6 parser accepts exactly the texts that are written so, with the addresses they denote. */
  lemma Accepts6(s: seq<char>, a: seq<Byte>)
    ensures Pton6(s) == Some(a) <==> Writes(s, a)
  {
    if Pton6(s) == Some(a) {
      var t := AcceptedText(s);
      assert Written(t) == s;
    }
    if Writes(s, a) {
      var t: Text6 :| WellFormed(t) && Written(t) == s && Denoted(t) == a;
      WrittenIsAccepted(t);
    }
  }

  // ---------- upper and lower case ----------

  /** The same character, or two digits for one value. */
  ghost predicate SameLetter(c: char, d: char) { c == d || exists v: nat :: DigitFor(c, v) && DigitFor(d, v) }

  ghost predicate SameLetters(s: seq<char>, t: seq<char>) {
    |s| == |t| && forall i :: 0 <= i < |s| ==> SameLetter(s[i], t[i])
  }

  lemma SameDigit(c: char, d: char)
    requires SameLetter(c, d)
    ensures DigitValue(c) == DigitValue(d) && (DigitValue(c) < 10 ==> c == d)
  {
    if c != d {
      var v: nat :| DigitFor(c, v) && DigitFor(d, v);
      DigitExactly(c, v);
      DigitExactly(d, v);
    }
  }

  lemma {:induction false} SameOctets(st: P4, s: seq<char>, t: seq<char>)
    requires SameLetters(s, t)
    ensures Parse4(st, s) == Parse4(st, t)
    decreases |s|
  {
    if s != [] {
      SameDigit(s[0], t[0]);
      if Step4(st, s[0]).Some? { SameOctets(Step4(st, s[0]).value, s[1..], t[1..]); }
    }
  }

  lemma {:induction false} SameRest(st: P6, st': P6, s: seq<char>, t: seq<char>)
    requires SameLetters(s, t) && SameLetters(st.tok, st'.tok) && st' == st.(tok := st'.tok)
    ensures Parse6(st, s) == Parse6(st', t)
    decreases |s|
  {
    if s != [] {
      var c, rest, rest' := s[0], s[1..], t[1..];
      SameDigit(c, t[0]);
      DigitExactly(c, 0);
      DigitExactly(t[0], 0);
      if IsDigit(c) {
        ParseDigit(st, s);
        ParseDigit(st', t);
        SameRest(WithDigit(st, c), WithDigit(st', t[0]), rest, rest');
      } else if c == ':' {
        SameRest(WithGap(st, rest), WithGap(st', rest'), rest, rest');
        SameRest(WithGroup(st, rest), WithGroup(st', rest'), rest, rest');
      } else {
        SameOctets(P4([], 0, false), st.tok, st'.tok);
      }
    }
  }

  /** Texts that differ only in the case of digits are read alike. */
  lemma EitherCase(s: seq<char>, t: seq<char>)
    requires SameLetters(s, t)
    ensures Pton6(s) == Pton6(t)
  {
    if s != [] {
      SameDigit(s[0], t[0]);
      DigitExactly(s[0], 0);
      DigitExactly(t[0], 0);
      if |s| > 1 {
        SameDigit(s[1], t[1]);
        DigitExactly(s[1], 0);
        DigitExactly(t[1], 0);
      }
    }
    var u, u' := if s != [] && s[0] == ':' then s[1..] else s, if t != [] && t[0] == ':' then t[1..] else t;
    SameRest(P6([], None, 0, 0, u), P6([], None, 0, 0, u'), u, u');
  }
}
