/**
 Internet addresses as text, part 3: the conversion routines.
 */
module Inet {
  import opened Options
  import opened InetText
  import opened InetText6

  datatype Result<T> = Ok(value: T) | NoSpace | Invalid

  const INET_ADDRSTRLEN: nat := 16
  const INET6_ADDRSTRLEN: nat := 46

  // ---------- IPv4 ----------

  lemma {:induction false} DottedLength(a: seq<Byte>)
    ensures |Dotted(a)| <= 4 * |a|
    ensures a != [] ==> 1 <= |Dotted(a)| <= 4 * |a| - 1
  {
    if a != [] {
      DecLength(a[0]);
      DottedLength(a[1..]);
    }
  }

  method Ntop4(src: seq<Byte>, size: nat) returns (r: Result<seq<char>>)
    requires |src| == 4
    ensures r == if |Dotted(src)| < size then Ok(Dotted(src)) else NoSpace
  {
    var tmp := Dec(src[0]) + ['.'] + Dec(src[1]) + ['.'] + Dec(src[2]) + ['.'] + Dec(src[3]);
    assert tmp == Dotted(src) by {
      assert src[1..][1..] == src[2..] && src[2..][1..] == src[3..];
      assert Dotted(src[3..]) == Dec(src[3]);
      assert Dotted(src[2..]) == Dec(src[2]) + ['.'] + Dec(src[3]);
      assert Dotted(src[1..]) == Dec(src[1]) + ['.'] + Dotted(src[2..]);
    }
    r := if |tmp| >= size then NoSpace else Ok(tmp);
  }

  method ParseIPv4(src: seq<char>) returns (r: Result<seq<Byte>>)
    ensures r == match Pton4(src) case Some(a) => Ok(a) case None => Invalid
  {
    var saw, octets, tmp := false, 0, [0];
    var i := 0;
    ghost var st := P4([], 0, false);
    while i < |src|
      invariant 0 <= i <= |src| && Parse4(st, src[i..]) == Pton4(src)
      invariant Ok4(st) && tmp == st.octets + [st.cur] && saw == st.saw
          && octets == |st.octets| + (if saw then 1 else 0)
    {
      var ch := src[i];
      assert src[i..][0] == ch && src[i..][1..] == src[i+1..];
      var k := |tmp| - 1;
      if IsDecimal(ch) {
        var cur: nat := tmp[k];
        var nw := cur * 10 + DigitValue(ch);
        if saw && tmp[k] == 0 { return Invalid; }
        if nw > 255 { return Invalid; }
        tmp := tmp[k := nw];
        if !saw {
          octets := octets + 1;
          if octets > 4 { return Invalid; }
          saw := true;
        }
      } else if ch == '.' && saw {
        if octets == 4 { return Invalid; }
        tmp := tmp + [0];
        saw := false;
      } else {
        return Invalid;
      }
      st := Step4(st, ch).value;
      i := i + 1;
    }
    if octets < 4 { return Invalid; }
    r := Ok(tmp);
  }

  // ---------- printing IPv6 ----------

  lemma {:induction false} WordsAt(a: seq<Byte>, k: nat)
    requires |a| % 2 == 0 && 2 * k < |a|
    ensures |WordsOf(a)| == |a| / 2 && WordsOf(a)[k] == WordOf(a[2 * k], a[2 * k + 1])
  {
    if k > 0 { WordsAt(a[2..], k - 1); } else { BytesBack(a[2..]); }
  }

  /** The bytes of an address as words. */
  method Words(src: seq<Byte>) returns (words: seq<Word>)
    requires |src| == 16
    ensures words == WordsOf(src) && |words| == 8
  {
    var w: seq<nat> := seq(8, i => 0);
    for i := 0 to 16
      invariant |w| == 8
      invariant forall k ::
          0 <= k < 8 ==> w[k] == if 2 * k + 1 < i then WordOf(src[2 * k], src[2 * k + 1])
          else if 2 * k < i then src[2 * k] * (256 as nat) else 0
    {
      var b: nat := src[i];
      w := w[i / 2 := w[i / 2] + (if i % 2 == 0 then b * 256 else b)];
    }
    forall k | 0 <= k < 8 ensures |WordsOf(src)| == 8 && w[k] == WordsOf(src)[k] { WordsAt(src, k); }
    WordsAt(src, 0);
    words := w;
    assert words == WordsOf(src);
  }

  /** The best run among those that end at `e` or before: the leftmost longest one. */
  ghost predicate BestUpTo(ws: seq<Word>, base: int, len: nat, e: nat) {
    && (base >= 0 ==> len >= 1 && base + len <= e && ZeroRun(ws, base, len))
    && (base < 0 ==> base == -1)
    && forall c: nat, k: nat {:trigger ZeroRun(ws, c, k)} :: ZeroRun(ws, c, k) && k >= 1 && c + k <= e ==>
         base >= 0 && k <= len && (k == len ==> base <= c)
  }

  /** Take in the run of `len` words that ends at `e`, before which there is no zero word. */
  lemma TakeRun(ws: seq<Word>, base: int, len: nat, cb: nat, cl: nat)
    requires BestUpTo(ws, base, len, cb) && ZeroRun(ws, cb, cl) && cl >= 1
        && (cb == 0 || (cb <= |ws| && ws[cb - 1] != 0))
    ensures if base == -1 || cl > len then BestUpTo(ws, cb, cl, cb + cl) else BestUpTo(ws, base, len, cb + cl)
  {
    forall c: nat, k: nat | ZeroRun(ws, c, k) && k >= 1 && c + k <= cb + cl && c + k > cb ensures c >= cb && k <= cl {
      if cb > 0 { assert ws[cb - 1] != 0; }
    }
    var b, l := if base == -1 || cl > len then cb else base, if base == -1 || cl > len then cl else len;
    forall c: nat, k: nat | ZeroRun(ws, c, k) && k >= 1 && c + k <= cb + cl ensures b >= 0 && k <= l
        && (k == l ==> b <= c) {
      if c + k > cb { assert c >= cb && k <= cl; }
    }
  }

  /** The leftmost longest zero run of at least two words, if there is one. */
  method BestRun(words: seq<Word>) returns (base: int, len: nat)
    ensures base == -1 ==> Uncompressed(words)
    ensures base != -1 ==> base >= 0 && Compressed(words, base, len)
  {
    var cb, cl := -1, 0;
    base, len := -1, 0;
    for i := 0 to |words|
      invariant cb >= -1
          && (cb >= 0 ==> cb + cl == i && cl >= 1 && ZeroRun(words, cb, cl) && (cb == 0 || words[cb - 1] != 0))
      invariant cb == -1 ==> i == 0 || words[i - 1] != 0
      invariant BestUpTo(words, base, len, if cb >= 0 then cb else i)
    {
      if words[i] == 0 {
        if cb == -1 { cb, cl := i, 1; } else { cl := cl + 1; }
      } else {
        if cb != -1 {
          TakeRun(words, base, len, cb, cl);
          if base == -1 || cl > len { base, len := cb, cl; }
          cb := -1;
        }
        SkipWord(words, base, len, i);
      }
    }
    if cb != -1 {
      TakeRun(words, base, len, cb, cl);
      if base == -1 || cl > len { base, len := cb, cl; }
    }
    if base != -1 && len < 2 {
      base := -1;
    }
  }

  lemma SkipWord(ws: seq<Word>, base: int, len: nat, i: nat)
    requires BestUpTo(ws, base, len, i) && i < |ws| && ws[i] != 0
    ensures BestUpTo(ws, base, len, i + 1)
  {
    forall c: nat, k: nat | ZeroRun(ws, c, k) && k >= 1 && c + k <= i + 1 ensures c + k <= i {
      assert ws[i] != 0;
    }
  }

  lemma {:induction false} GroupsSnoc(ws: seq<Word>, w: Word)
    ensures Groups(ws + [w]) == if ws == [] then Hex(w) else Groups(ws) + [':'] + Hex(w)
  {
    if ws == [] {
      assert ws + [w] == [w];
    } else {
      assert (ws + [w])[1..] == ws[1..] + [w];
      GroupsSnoc(ws[1..], w);
      if |ws| > 1 {
        Glue(Hex(ws[0]) + [':'], Groups(ws[1..]), [':'] + Hex(w));
        Rejoin(Groups(ws[1..]), Hex(w));
        Rejoin(Groups(ws), Hex(w));
      }
    }
  }

  lemma Rejoin(a: seq<char>, b: seq<char>)
    ensures a + [':'] + b == a + ([':'] + b)
  {
  }

  /** What has been printed before word `i`. */
  function Out(ws: seq<Word>, b: int, n: nat, i: nat): seq<char>
    requires i <= |ws| && b >= -1 && (b >= 0 ==> b + n <= |ws|)
  {
    if b < 0 || i <= b then Groups(ws[..i])
    else if i <= b + n then Groups(ws[..b]) + [':']
    else Groups(ws[..b]) + [':', ':'] + Groups(ws[b + n..i])
  }

  lemma OutNext(ws: seq<Word>, b: int, n: nat, i: nat)
    requires i < |ws| && b >= -1 && (b >= 0 ==> b + n <= |ws| && n >= 1)
    ensures b >= 0 && b <= i < b + n ==> Out(ws, b, n, i + 1) == Out(ws, b, n, i) + if i == b then [':'] else []
    ensures !(b >= 0 && b <= i < b + n) ==>
        Out(ws, b, n, i + 1) == Out(ws, b, n, i) + (if i != 0 then [':'] else []) + Hex(ws[i])
  {
    if b < 0 || i < b {
      assert ws[..i + 1] == ws[..i] + [ws[i]];
      GroupsSnoc(ws[..i], ws[i]);
    } else if i >= b + n {
      assert ws[b + n..i + 1] == ws[b + n..i] + [ws[i]];
      GroupsSnoc(ws[b + n..i], ws[i]);
    }
  }

  /** The text of an address: the leftmost longest run of at least two zero words is compressed. */
  method Text6(src: seq<Byte>) returns (tmp: seq<char>)
    requires |src| == 16
    ensures Printed(src, tmp) && |tmp| < INET6_ADDRSTRLEN
  {
    var words := Words(src);
    var base, len := BestRun(words);
    var last := words[7];
    tmp := [];
    var i := 0;
    ghost var whole := false;
    while i < 8
      invariant 0 <= i <= 8 && !whole && tmp == Out(words, base, len, i)
      invariant base == 0 && i >= 7 ==> !Embedded(words, 0, len)
    {
      OutNext(words, base, len, i);
      if base != -1 && base <= i < base + len {
        if i == base { tmp := tmp + [':']; }
      } else {
        if i != 0 { tmp := tmp + [':']; }
        if i == 6 && base == 0 && (len == 6 || (len == 7 && last != 0x0001) || (len == 5 && words[5] == 0xffff)) {
          EmbeddedText(src, words, len);
          DottedLength(src[12..]);
          var v4 := Ntop4(src[12..], INET6_ADDRSTRLEN - |tmp|);
          tmp := tmp + v4.value;
          whole := true;
          break;
        }
        tmp := tmp + Hex(words[i]);
      }
      i := i + 1;
    }
    if !whole {
      AllOut(src, words, base, len);
    }
    if base != -1 && base + len == 8 { tmp := tmp + [':']; }
    TextLength(src, words, base, len);
  }

  /** Print an address into a buffer of `size` characters, unless its one text does not fit. */
  method Ntop6(src: seq<Byte>, size: nat) returns (r: Result<seq<char>>)
    requires |src| == 16
    ensures r.Ok? || r.NoSpace?
    ensures size >= INET6_ADDRSTRLEN ==> r.Ok?
    ensures r.Ok? ==> |r.value| < size && Printed(src, r.value)
    ensures r.NoSpace? ==> forall s :: Printed(src, s) ==> |s| >= size
  {
    var tmp := Text6(src);
    r := if |tmp| + 1 > size then NoSpace else Ok(tmp);
    forall s | Printed(src, s)
      ensures s == tmp
    {
      OneText(src, s, tmp);
    }
  }

  /** There is one text that stands for an address. */
  lemma OneText(a: seq<Byte>, s: seq<char>, t: seq<char>)
    requires |a| == 16 && Printed(a, s) && Printed(a, t)
    ensures s == t
  {
    var ws := WordsOf(a);
    if !Uncompressed(ws) {
      var b: nat, n: nat :| Compressed(ws, b, n) && s == Short(a, ws, b, n);
      var c: nat, k: nat :| Compressed(ws, c, k) && t == Short(a, ws, c, k);
      assert ZeroRun(ws, b, n) && ZeroRun(ws, c, k);
    }
  }

  /** The text that stands for an address. */
  ghost predicate Printed(a: seq<Byte>, s: seq<char>)
    requires |a| == 16
  {
    var ws := WordsOf(a);
    && |ws| == 8
    && (Uncompressed(ws) ==> s == Groups(ws))
    && (!Uncompressed(ws) ==> exists b: nat, n: nat :: Compressed(ws, b, n) && s == Short(a, ws, b, n))
  }

  lemma EmbeddedText(a: seq<Byte>, ws: seq<Word>, n: nat)
    requires |a| == 16 && |ws| == 8 && ZeroRun(ws, 0, n) && (n == 6 || (n == 5 && ws[5] == 0xffff))
    ensures Out(ws, 0, n, 6) + [':'] + Dotted(a[12..]) == Short(a, ws, 0, n) && |Out(ws, 0, n, 6)| <= 7
  {
    var v4 := Dotted(a[12..]);
    assert Groups(ws[..0]) == [];
    if n == 6 {
      assert Rest(a, ws, 0, n) == v4;
      assert Out(ws, 0, n, 6) == [':'];
      assert [':'] + [':'] + v4 == [':', ':'] + v4;
    } else {
      MappedGroup(ws);
      assert Rest(a, ws, 0, n) == Hex(ws[5]) + [':'] + v4;
      assert Out(ws, 0, n, 6) == [':', ':'] + Hex(ws[5]);
      assert [':', ':'] + Hex(ws[5]) + [':'] + v4 == [':', ':'] + (Hex(ws[5]) + [':'] + v4);
    }
  }

  lemma MappedGroup(ws: seq<Word>)
    requires |ws| == 8 && ws[5] == 0xffff
    ensures Groups(ws[5..6]) == Hex(ws[5]) && |Hex(ws[5])| == 4
  {
    assert ws[5..6] == [ws[5]];
    assert Hex(0xffff) == ['f', 'f', 'f', 'f'] by {
      assert Hex(0xfff) == Hex(0xff) + ['f'] && Hex(0xff) == Hex(0xf) + ['f'];
    }
  }

  lemma AllOut(a: seq<Byte>, ws: seq<Word>, b: int, n: nat)
    requires |a| == 16 && |ws| == 8 && b >= -1 && (b >= 0 ==> b + n <= 8 && n >= 2 && !Embedded(ws, b, n))
    ensures b < 0 ==> Out(ws, b, n, 8) == Groups(ws)
    ensures b >= 0 ==> Out(ws, b, n, 8) + (if b + n == 8 then [':'] else []) == Short(a, ws, b, n)
  {
    assert ws[..8] == ws;
    if b >= 0 {
      assert ws[b + n..8] == ws[b + n..];
      if b + n == 8 { assert ws[8..] == [] && [':'] + [':'] == [':', ':']; }
    }
  }

  lemma {:induction false} GroupsLength(ws: seq<Word>)
    ensures |Groups(ws)| <= 5 * |ws| && (ws != [] ==> |Groups(ws)| <= 5 * |ws| - 1)
  {
    if ws != [] {
      WordLength(ws[0]);
      GroupsLength(ws[1..]);
    }
  }

  /** The text always fits into the buffer. */
  lemma TextLength(a: seq<Byte>, ws: seq<Word>, b: int, n: nat)
    requires |a| == 16 && |ws| == 8 && b >= -1 && (b >= 0 ==> b + n <= 8 && n >= 2)
    ensures |Groups(ws)| < INET6_ADDRSTRLEN && (b >= 0 ==> |Short(a, ws, b, n)| < INET6_ADDRSTRLEN)
  {
    GroupsLength(ws);
    if b >= 0 {
      GroupsLength(ws[..b]);
      GroupsLength(ws[b + n..]);
      DottedLength(a[12..]);
      WordLength(ws[5]);
    }
  }

  /** Whatever is printed is read back. */
  lemma RoundTrip6(a: seq<Byte>, s: seq<char>)
    requires |a| == 16 && Printed(a, s)
    ensures Pton6(s) == Some(a)
  {
    var ws := WordsOf(a);
    if Uncompressed(ws) {
      LongBack(a);
    } else {
      var b: nat, n: nat :| Compressed(ws, b, n) && s == Short(a, ws, b, n);
      ShortBack(a, b, n);
    }
  }

  // ---------- parsing IPv6 ----------

  /** Move the bytes from `c` to `tp` to the end of the buffer, leaving zeros. */
  method ShiftRight(tmp: array<Byte>, c: nat, tp: nat)
    requires tmp.Length == 16 && c <= tp < 16 && forall k :: tp <= k < 16 ==> tmp[k] == 0
    modifies tmp
    ensures tmp[..] == old(tmp[..c]) + Zeros(16 - tp) + old(tmp[c..tp])
  {
    var n := tp - c;
    for i := 1 to n + 1
      invariant forall k :: 0 <= k <= tp - i ==> tmp[k] == old(tmp[k])
      invariant forall k :: tp - i < k <= 16 - i ==> tmp[k] == 0
      invariant forall k :: 16 - i < k < 16 ==> tmp[k] == old(tmp[k - (16 - tp)])
    {
      tmp[16 - i] := tmp[tp - i];
      tmp[tp - i] := 0;
    }
  }

  /** The buffer holds the bytes read so far, followed by zeros. */
  ghost predicate Holds(tmp: array<Byte>, tp: nat, bytes: seq<Byte>)
    reads tmp
  {
    tmp.Length == 16 && tp <= 16 && tmp[..tp] == bytes && forall k :: tp <= k < 16 ==> tmp[k] == 0
  }

  /** Append the bytes of a group. */
  method Push(tmp: array<Byte>, tp: nat, val: nat, ghost st: P6)
    requires Holds(tmp, tp, st.bytes) && tp + 2 <= 16 && st.val == val
    modifies tmp
    ensures Holds(tmp, tp + 2, Pushed(st))
  {
    tmp[tp], tmp[tp + 1] := val / 256 % 256, val % 256;
    assert tmp[..tp + 2] == tmp[..tp] + [tmp[tp], tmp[tp + 1]];
  }

  /** Append the bytes of an embedded IPv4 address. */
  method PushAll(tmp: array<Byte>, tp: nat, a: seq<Byte>, ghost bytes: seq<Byte>)
    requires Holds(tmp, tp, bytes) && |a| == 4 && tp + 4 <= 16
    modifies tmp
    ensures Holds(tmp, tp + 4, bytes + a)
  {
    tmp[tp], tmp[tp + 1], tmp[tp + 2], tmp[tp + 3] := a[0], a[1], a[2], a[3];
    assert tmp[..tp + 4] == tmp[..tp] + [tmp[tp], tmp[tp + 1], tmp[tp + 2], tmp[tp + 3]];
  }

  /** What is left to do at the end of the text. */
  method Complete(tmp: array<Byte>, tp0: nat, colonp: Option<nat>, val: nat, seen: nat, ghost st: P6)
      returns (r: Result<seq<Byte>>)
    requires Holds(tmp, tp0, st.bytes) && st.colon == colonp && st.val == val && st.seen == seen
        && (colonp.Some? ==> colonp.value <= tp0)
    modifies tmp
    ensures r == match Finish(st) case Some(a) => Ok(a) case None => Invalid
  {
    var tp := tp0;
    if seen > 0 {
      if tp + 2 > 16 { return Invalid; }
      Push(tmp, tp, val, st);
      tp := tp + 2;
    }
    if colonp.Some? {
      if tp == 16 { return Invalid; }
      var c := colonp.value;
      ghost var bytes := tmp[..tp];
      assert tmp[..c] == bytes[..c] && tmp[c..tp] == bytes[c..];
      ShiftRight(tmp, c, tp);
      tp := 16;
    }
    if tp != 16 { return Invalid; }
    assert tmp[..16] == tmp[..];
    r := Ok(tmp[..]);
  }

  method ParseIPv6(src0: seq<char>) returns (r: Result<seq<Byte>>)
    ensures r == match Pton6(src0) case Some(a) => Ok(a) case None => Invalid
  {
    var tmp: array<Byte> := new Byte[16](i => 0);
    var tp: nat, colonp: Option<nat>, src := 0, None, src0;
    if src != [] && src[0] == ':' {
      src := src[1..];
      if src == [] || src[0] != ':' { return Invalid; }
    }
    var curtok, seen: nat, val: nat := src, 0, 0;
    ghost var st := P6([], None, 0, 0, src);
    while src != []
      invariant Parse6(st, src) == Pton6(src0) && fresh(tmp)
      invariant st == P6(st.bytes, colonp, val, seen, curtok) && Holds(tmp, tp, st.bytes)
          && (colonp.Some? ==> colonp.value <= tp)
      decreases |src|
    {
      var ch := src[0];
      src := src[1..];
      if DigitValue(ch) >= 0 {
        val := val * 16 + DigitValue(ch);
        seen := seen + 1;
        if seen > 4 { return Invalid; }
        st := st.(val := val, seen := seen);
      } else if ch == ':' {
        curtok := src;
        if seen == 0 {
          if colonp.Some? { return Invalid; }
          colonp := Some(tp);
          st := st.(colon := colonp, tok := src);
        } else {
          if src == [] { return Invalid; }
          if tp + 2 > 16 { return Invalid; }
          Push(tmp, tp, val, st);
          tp := tp + 2;
          st := P6(Pushed(st), colonp, 0, 0, src);
          seen, val := 0, 0;
        }
      } else if ch == '.' && tp + 4 <= 16 {
        var v4 := ParseIPv4(curtok);
        if !v4.Ok? { return Invalid; }
        Exact4(curtok, v4.value);
        PushAll(tmp, tp, v4.value, st.bytes);
        st := P6(st.bytes + v4.value, colonp, 0, 0, []);
        r := Complete(tmp, tp + 4, colonp, 0, 0, st);
        return;
      } else {
        return Invalid;
      }
    }
    r := Complete(tmp, tp, colonp, val, seen, st);
  }

  /** An address may carry a zone, which is cut off; an over-long text before it is refused. */
  method Pton6WithZone(src: seq<char>) returns (r: Result<seq<Byte>>)
    ensures forall k :: 0 <= k < |src| && src[k] == '%' && (forall j :: 0 <= j < k ==> src[j] != '%') ==>
      r == if k > INET6_ADDRSTRLEN - 1 then Invalid
          else match Pton6(src[..k]) case Some(a) => Ok(a) case None => Invalid
    ensures '%' !in src ==> r == match Pton6(src) case Some(a) => Ok(a) case None => Invalid
  {
    var p := 0;
    while p < |src| && src[p] != '%'
      invariant p <= |src| && forall j :: 0 <= j < p ==> src[j] != '%'
    {
      p := p + 1;
    }
    if p == |src| {
      r := ParseIPv6(src);
    } else if p > INET6_ADDRSTRLEN - 1 {
      r := Invalid;
    } else {
      r := ParseIPv6(src[..p]);
    }
  }
}
