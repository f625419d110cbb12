/**
 Internet addresses as text, part 2: IPv6.
 */
module InetText6 {
  import opened Options
  import opened InetText

  // ---------- zero runs ----------

  /** The words from `b` on, `n` of them, are zero. */
  predicate ZeroRun(ws: seq<Word>, b: nat, n: nat) { b + n <= |ws| && forall i :: b <= i < b + n ==> ws[i] == 0 }

  /** The run that is compressed: the leftmost of the longest zero runs of at least two words. */
  ghost predicate Compressed(ws: seq<Word>, b: nat, n: nat) {
    && n >= 2 && ZeroRun(ws, b, n)
    && (forall c: nat, k: nat :: ZeroRun(ws, c, k) ==> k <= n)
    && (forall c: nat :: ZeroRun(ws, c, n) ==> b <= c)
  }

  /** There is no zero run of two words. */
  ghost predicate Uncompressed(ws: seq<Word>) { forall c: nat, k: nat :: ZeroRun(ws, c, k) ==> k < 2 }

  // ---------- the printed text ----------

  function Groups(ws: seq<Word>): seq<char> {
    if ws == [] then [] else if |ws| == 1 then Hex(ws[0]) else Hex(ws[0]) + [':'] + Groups(ws[1..])
  }

  function WordOf(h: Byte, l: Byte): Word {
    var x: nat := h;
    x * 256 + l
  }

  function WordsOf(a: seq<Byte>): seq<Word>
    requires |a| % 2 == 0
  {
    if a == [] then [] else [WordOf(a[0], a[1])] + WordsOf(a[2..])
  }

  function BytesOf(ws: seq<Word>): seq<Byte> {
    if ws == [] then [] else [ws[0] / 256, ws[0] % 256] + BytesOf(ws[1..])
  }

  /** The last two words are printed as an embedded IPv4 address. */
  predicate Embedded(ws: seq<Word>, b: nat, n: nat)
    requires |ws| == 8
  {
    b == 0 && (n == 6 || (n == 5 && ws[5] == 0xffff))
  }

  /** What follows the compressed run. */
  function Rest(a: seq<Byte>, ws: seq<Word>, b: nat, n: nat): seq<char>
    requires |a| == 16 && |ws| == 8 && b + n <= 8
  {
    if Embedded(ws, b, n) then (if n == 6 then [] else Hex(ws[5]) + [':']) + Dotted(a[12..])
    else Groups(ws[b + n..])
  }

  /** The text of an address whose run of `n` words from `b` on is compressed, and of one without. */
  function Short(a: seq<Byte>, ws: seq<Word>, b: nat, n: nat): seq<char>
    requires |a| == 16 && |ws| == 8 && b + n <= 8
  {
    Groups(ws[..b]) + [':', ':'] + Rest(a, ws, b, n)
  }

  // ---------- the parser ----------

  /** Bytes so far, where the double colon was, the current group, and the text from its beginning on. */
  datatype P6 = P6(bytes: seq<Byte>, colon: Option<nat>, val: nat, seen: nat, tok: seq<char>)

  function Pushed(st: P6): seq<Byte> { st.bytes + [st.val / 256 % 256, st.val % 256] }

  function Zeros(n: nat): seq<Byte> { seq(n, i => 0) }

  /** The address once the text is read. */
  function Finish(st: P6): Option<seq<Byte>> {
    if st.seen > 0 && |st.bytes| + 2 > 16 then None
    else
      var bytes := if st.seen > 0 then Pushed(st) else st.bytes;
      if st.colon.None? then if |bytes| == 16 then Some(bytes) else None
      else if |bytes| >= 16 || st.colon.value > |bytes| then None
      else Some(bytes[..st.colon.value] + Zeros(16 - |bytes|) + bytes[st.colon.value..])
  }

  function Parse6(st: P6, s: seq<char>): Option<seq<Byte>>
    decreases |s|
  {
    if s == [] then Finish(st)
    else
      var c, rest := s[0], s[1..];
      if DigitValue(c) >= 0 then
        if st.seen + 1 > 4 then None else Parse6(st.(val := st.val * 16 + DigitValue(c), seen := st.seen + 1), rest)
      else if c == ':' then
        if st.seen == 0 then
          if st.colon.Some? then None else Parse6(st.(colon := Some(|st.bytes|), tok := rest), rest)
        else if rest == [] || |st.bytes| + 2 > 16 then None
        else Parse6(P6(Pushed(st), st.colon, 0, 0, rest), rest)
      else if c == '.' && |st.bytes| + 4 <= 16 then
        match Pton4(st.tok)
        case None => None
        case Some(a) => Finish(P6(st.bytes + a, st.colon, 0, 0, []))
      else None
  }

  /** What the IPv6 parser makes of a string. */
  function Pton6(s: seq<char>): Option<seq<Byte>> {
    var t := if s != [] && s[0] == ':' then s[1..] else s;
    if s != [] && s[0] == ':' && (t == [] || t[0] != ':') then None else Parse6(P6([], None, 0, 0, t), t)
  }

  // ---------- reading back ----------

  lemma {:induction false} ReadHex(st: P6, w: nat, rest: seq<char>)
    requires st.val == 0 && st.seen == 0 && |Hex(w)| <= 4
    ensures Parse6(st, Hex(w) + rest) == Parse6(st.(val := w, seen := |Hex(w)|), rest)
    decreases w
  {
    if w < 16 {
      DigitOk(w);
      assert ([DigitChar(w)] + rest)[1..] == rest;
    } else {
      var d := DigitChar(w % 16);
      DigitOk(w % 16);
      ReadHex(st, w / 16, [d] + rest);
      assert Hex(w) + rest == Hex(w / 16) + ([d] + rest);
      assert ([d] + rest)[1..] == rest;
    }
  }

  lemma ReadColon(st: P6, rest: seq<char>)
    requires st.seen > 0 && |st.bytes| + 2 <= 16 && rest != []
    ensures Parse6(st, [':'] + rest) == Parse6(P6(Pushed(st), st.colon, 0, 0, rest), rest)
  {
    assert ([':'] + rest)[1..] == rest;
  }

  /** A group followed by a colon and more text. */
  lemma ReadGroup(st: P6, w: Word, rest: seq<char>)
    requires st.val == 0 && st.seen == 0 && |st.bytes| + 2 <= 16 && rest != []
    ensures Parse6(st, Hex(w) + ([':'] + rest)) == Parse6(P6(st.bytes + BytesOf([w]), st.colon, 0, 0, rest), rest)
  {
    WordLength(w);
    ReadHex(st, w, [':'] + rest);
    var st' := st.(val := w, seen := |Hex(w)|);
    ReadColon(st', rest);
    assert Pushed(st') == st.bytes + BytesOf([w]) by { OneWord(w); }
  }

  lemma OneWord(w: Word)
    ensures BytesOf([w]) == [w / 256, w % 256] && w / 256 % 256 == w / 256
  {
    assert BytesOf([w][1..]) == [];
  }

  /** The state after groups that end the text or are followed by something else than a digit. */
  lemma {:induction false} ReadGroups(st: P6, ws: seq<Word>, rest: seq<char>) returns (tok: seq<char>)
    requires st.val == 0 && st.seen == 0 && ws != [] && |st.bytes| + 2 * |ws| <= 16
    ensures Parse6(st, Groups(ws) + rest) == Parse6(AfterGroups(st, ws, tok), rest)
    decreases |ws|
  {
    var n := |ws| - 1;
    if n == 0 {
      WordLength(ws[0]);
      ReadHex(st, ws[0], rest);
      tok := st.tok;
      assert st.bytes + BytesOf(ws[..0]) == st.bytes;
    } else {
      var more := Groups(ws[1..]) + rest;
      assert Groups(ws) + rest == Hex(ws[0]) + ([':'] + more);
      ReadGroup(st, ws[0], more);
      var st' := P6(st.bytes + BytesOf([ws[0]]), st.colon, 0, 0, more);
      OneWord(ws[0]);
      tok := ReadGroups(st', ws[1..], rest);
      GroupsJoin(st.bytes, ws);
    }
  }

  function AfterGroups(st: P6, ws: seq<Word>, tok: seq<char>): P6
    requires ws != []
  {
    var n := |ws| - 1;
    P6(st.bytes + BytesOf(ws[..n]), st.colon, ws[n], |Hex(ws[n])|, tok)
  }

  lemma GroupsJoin(x: seq<Byte>, ws: seq<Word>)
    requires |ws| > 1
    ensures var n := |ws| - 1; x + BytesOf([ws[0]]) + BytesOf(ws[1..][..n-1]) == x + BytesOf(ws[..n])
  {
    var n := |ws| - 1;
    assert ws[1..][..n-1] == ws[1..n];
    assert ws[..n] == [ws[0]] + ws[1..n];
    BytesConcat([ws[0]], ws[1..n]);
  }

  lemma {:induction false} BytesConcat(u: seq<Word>, v: seq<Word>)
    ensures BytesOf(u + v) == BytesOf(u) + BytesOf(v) && |BytesOf(u)| == 2 * |u|
  {
    if u == [] {
      assert u + v == v;
    } else {
      assert (u + v)[1..] == u[1..] + v;
      BytesConcat(u[1..], v);
    }
  }

  lemma WordBack(h: Byte, l: Byte)
    ensures WordOf(h, l) / 256 == h && WordOf(h, l) % 256 == l
  {
  }

  lemma {:induction false} BytesBack(a: seq<Byte>)
    requires |a| % 2 == 0
    ensures BytesOf(WordsOf(a)) == a && |WordsOf(a)| == |a| / 2
  {
    if a != [] {
      var w := WordOf(a[0], a[1]);
      WordBack(a[0], a[1]);
      BytesBack(a[2..]);
      assert WordsOf(a) == [w] + WordsOf(a[2..]);
      assert ([w] + WordsOf(a[2..]))[1..] == WordsOf(a[2..]);
      assert BytesOf(WordsOf(a)) == [w / 256, w % 256] + a[2..];
      assert a == [a[0], a[1]] + a[2..];
    }
  }

  lemma {:induction false} ZeroBytes(ws: seq<Word>)
    requires forall i :: 0 <= i < |ws| ==> ws[i] == 0
    ensures BytesOf(ws) == Zeros(2 * |ws|)
  {
    if ws != [] {
      ZeroBytes(ws[1..]);
      assert Zeros(2 * |ws|) == [0, 0] + Zeros(2 * |ws[1..]|);
    }
  }

  /** The bytes of an address around a zero run. */
  lemma AroundRun(ws: seq<Word>, b: nat, n: nat)
    requires ZeroRun(ws, b, n)
    ensures BytesOf(ws) == BytesOf(ws[..b]) + Zeros(2 * n) + BytesOf(ws[b + n..])
    ensures |BytesOf(ws[..b])| == 2 * b
  {
    assert ws == ws[..b] + ws[b..b + n] + ws[b + n..];
    BytesConcat(ws[..b] + ws[b..b + n], ws[b + n..]);
    BytesConcat(ws[..b], ws[b..b + n]);
    ZeroBytes(ws[b..b + n]);
  }

  /** Decimal digits are hexadecimal digits too. */
  lemma {:induction false} ReadDec(st: P6, b: nat, rest: seq<char>) returns (v: nat)
    requires st.val == 0 && st.seen == 0 && |Dec(b)| <= 4
    ensures Parse6(st, Dec(b) + rest) == Parse6(st.(val := v, seen := |Dec(b)|), rest)
    decreases b
  {
    if b < 10 {
      DigitOk(b);
      v := b;
      assert ([DigitChar(b)] + rest)[1..] == rest;
    } else {
      var d := DigitChar(b % 10);
      DigitOk(b % 10);
      var u := ReadDec(st, b / 10, [d] + rest);
      v := u * 16 + b % 10;
      assert Dec(b) + rest == Dec(b / 10) + ([d] + rest);
      assert ([d] + rest)[1..] == rest;
    }
  }

  lemma DecLength(b: Byte)
    ensures |Dec(b)| <= 3
  {
    assert b >= 10 ==> Dec(b) == Dec(b / 10) + [DigitChar(b % 10)];
    assert b >= 100 ==> Dec(b / 10) == Dec(b / 100) + [DigitChar(b / 10 % 10)];
  }

  /** An embedded IPv4 address ends the text. */
  lemma ReadEmbedded(st: P6, q: seq<Byte>)
    requires |q| == 4 && st.val == 0 && st.seen == 0 && st.tok == Dotted(q) && |st.bytes| + 4 <= 16
    ensures Parse6(st, Dotted(q)) == Finish(P6(st.bytes + q, st.colon, 0, 0, []))
  {
    var rest := ['.'] + Dotted(q[1..]);
    assert Dotted(q) == Dec(q[0]) + rest;
    DecLength(q[0]);
    var v := ReadDec(st, q[0], rest);
    Exact4(st.tok, q);
    assert rest[0] == '.';
  }

  /** The rest of a compressed address. */
  lemma ReadRest(a: seq<Byte>, ws: seq<Word>, b: nat, n: nat)
    requires |a| == 16 && ws == WordsOf(a) && |ws| == 8 && ZeroRun(ws, b, n) && n >= 1 && !Embedded(ws, b, n)
    ensures var r := Rest(a, ws, b, n); Parse6(P6(BytesOf(ws[..b]), Some(2 * b), 0, 0, r), r) == Some(a)
  {
    AroundRun(ws, b, n);
    BytesBack(a);
    ReadTail(BytesOf(ws[..b]), ws[b + n..], 2 * n);
  }

  /** Groups after the double colon, up to the end. */
  lemma ReadTail(x: seq<Byte>, tail: seq<Word>, n: nat)
    requires |x| + n + 2 * |tail| == 16 && n > 0
    ensures var r := Groups(tail); Parse6(P6(x, Some(|x|), 0, 0, r), r) == Some(x + Zeros(n) + BytesOf(tail))
  {
    var r := Groups(tail);
    var st := P6(x, Some(|x|), 0, 0, r);
    BytesConcat(tail, []);
    if tail == [] {
      assert x + [] == x;
      FinishShort(x, [], n, st);
    } else {
      var k := |tail| - 1;
      var tok := ReadGroups(st, tail, []);
      assert r + [] == r;
      LastPushed(x, tail, st.colon, tok);
      FinishShort(x, BytesOf(tail), n, AfterGroups(st, tail, tok));
    }
  }

  lemma LastPushed(bytes: seq<Byte>, ws: seq<Word>, colon: Option<nat>, tok: seq<char>)
    requires ws != []
    ensures var k := |ws| - 1;
      Pushed(P6(bytes + BytesOf(ws[..k]), colon, ws[k], |Hex(ws[k])|, tok)) == bytes + BytesOf(ws)
  {
    var k := |ws| - 1;
    assert ws == ws[..k] + [ws[k]];
    BytesConcat(ws[..k], [ws[k]]);
    OneWord(ws[k]);
  }

  lemma FinishShort(x: seq<Byte>, y: seq<Byte>, n: nat, st: P6)
    requires |x| + n + |y| == 16 && n > 0 && st.colon == Some(|x|)
        && (if st.seen > 0 then Pushed(st) else st.bytes) == x + y
    ensures Parse6(st, []) == Finish(st) == Some(x + Zeros(n) + y)
  {
    assert (x + y)[..|x|] == x && (x + y)[|x|..] == y;
  }

  lemma ReadRestEmbedded(a: seq<Byte>, ws: seq<Word>, n: nat)
    requires |a| == 16 && ws == WordsOf(a) && |ws| == 8 && ZeroRun(ws, 0, n) && Embedded(ws, 0, n)
    ensures var r := Rest(a, ws, 0, n); Parse6(P6([], Some(0), 0, 0, r), r) == Some(a)
  {
    TailBytes(a, ws);
    BytesBack(a);
    var q, r := a[12..], Rest(a, ws, 0, n);
    if n == 6 {
      assert r == Dotted(q);
      ReadEmbedded(P6([], Some(0), 0, 0, r), q);
      Compatible(ws, q);
    } else {
      ReadMapped(ws, q, r);
    }
  }

  /** Six zero words and an IPv4 address. */
  lemma Compatible(ws: seq<Word>, q: seq<Byte>)
    requires |ws| == 8 && ZeroRun(ws, 0, 6) && |q| == 4 && q == BytesOf(ws[6..])
    ensures Finish(P6([] + q, Some(0), 0, 0, [])) == Some(BytesOf(ws))
  {
    AroundRun(ws, 0, 6);
    assert ws[..0] == [] && [] + q == q;
    FinishShort([], q, 12, P6(q, Some(0), 0, 0, []));
  }

  /** Five zero words, the word ffff and an IPv4 address. */
  lemma ReadMapped(ws: seq<Word>, q: seq<Byte>, r: seq<char>)
    requires |ws| == 8 && ZeroRun(ws, 0, 5) && |q| == 4 && q == BytesOf(ws[6..]) && r == Hex(ws[5]) + [':'] + Dotted(q)
    ensures Parse6(P6([], Some(0), 0, 0, r), r) == Some(BytesOf(ws))
  {
    var st, w := P6([], Some(0), 0, 0, r), BytesOf([ws[5]]);
    assert Dotted(q) != [];
    assert r == Hex(ws[5]) + ([':'] + Dotted(q));
    ReadGroup(st, ws[5], Dotted(q));
    OneWord(ws[5]);
    assert [] + w == w;
    ReadEmbedded(P6(w, Some(0), 0, 0, Dotted(q)), q);
    MappedBytes(ws, w, q);
  }

  lemma MappedBytes(ws: seq<Word>, w: seq<Byte>, q: seq<Byte>)
    requires |ws| == 8 && ZeroRun(ws, 0, 5) && |q| == 4 && q == BytesOf(ws[6..]) && w == BytesOf([ws[5]]) && |w| == 2
    ensures Finish(P6(w + q, Some(0), 0, 0, [])) == Some(BytesOf(ws))
  {
    AroundRun(ws, 0, 5);
    assert ws[5..] == [ws[5]] + ws[6..] && ws[..0] == [];
    BytesConcat([ws[5]], ws[6..]);
    assert [] + (w + q) == w + q;
    FinishShort([], w + q, 10, P6(w + q, Some(0), 0, 0, []));
  }

  lemma TailBytes(a: seq<Byte>, ws: seq<Word>)
    requires |a| == 16 && ws == WordsOf(a) && |ws| == 8
    ensures BytesOf(ws[6..]) == a[12..]
  {
    BytesBack(a);
    assert ws == ws[..6] + ws[6..];
    BytesConcat(ws[..6], ws[6..]);
  }

  /** Reading up to the double colon. */
  lemma ReadToRun(ws: seq<Word>, b: nat, rest: seq<char>)
    requires |ws| == 8 && b < 8
    ensures Pton6(Groups(ws[..b]) + [':', ':'] + rest) == Parse6(P6(BytesOf(ws[..b]), Some(2 * b), 0, 0, rest), rest)
  {
    var s, u := Groups(ws[..b]) + [':', ':'] + rest, ws[..b];
    assert [':', ':'] + rest == [':'] + ([':'] + rest) && ([':'] + rest)[1..] == rest;
    BytesConcat(u, []);
    if b == 0 {
      assert s == [':'] + ([':'] + rest) && s[1..] == [':'] + rest;
    } else {
      FirstDigit(u);
      assert s == Groups(u) + ([':'] + ([':'] + rest));
      var st := P6([], None, 0, 0, s);
      var tok := ReadGroups(st, u, [':'] + ([':'] + rest));
      var st' := AfterGroups(st, u, tok);
      LastPushed([], u, None, tok);
      BytesConcat(u[..b-1], []);
      ReadColon(st', [':'] + rest);
      assert [] + BytesOf(u) == BytesOf(u);
    }
  }

  lemma FirstDigit(ws: seq<Word>)
    requires ws != []
    ensures Groups(ws) != [] && Groups(ws)[0] != ':'
  {
    HexDigits(ws[0]);
  }

  /** Printed compressed addresses are read back. */
  lemma ShortBack(a: seq<Byte>, b: nat, n: nat)
    requires |a| == 16 && |WordsOf(a)| == 8 && ZeroRun(WordsOf(a), b, n) && n >= 1
    ensures Pton6(Short(a, WordsOf(a), b, n)) == Some(a)
  {
    var ws := WordsOf(a);
    ReadToRun(ws, b, Rest(a, ws, b, n));
    if Embedded(ws, b, n) {
      ReadRestEmbedded(a, ws, n);
      assert BytesOf(ws[..0]) == [];
    } else {
      ReadRest(a, ws, b, n);
    }
  }

  /** Printed addresses without compression are read back. */
  lemma LongBack(a: seq<Byte>)
    requires |a| == 16 && |WordsOf(a)| == 8
    ensures Pton6(Groups(WordsOf(a))) == Some(a)
  {
    var ws := WordsOf(a);
    BytesBack(a);
    FirstDigit(ws);
    var st := P6([], None, 0, 0, Groups(ws));
    var tok := ReadGroups(st, ws, []);
    assert Groups(ws) + [] == Groups(ws);
    LastPushed([], ws, None, tok);
    BytesConcat(ws[..7], []);
    assert [] + BytesOf(ws) == a;
  }
}
