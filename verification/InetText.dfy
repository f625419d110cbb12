/**
 Internet addresses as text, part 1: what is printed, what the parsers accept, and that parsing undoes
 printing.  The form printed for IPv6 is that of sections 4.1 to 4.3 of RFC 5952.
 */
module InetText {
  import opened Options

  type Byte = b: nat | b < 256
  type Word = w: nat | w < 65536

  // ---------- digits ----------

  function DigitChar(d: nat): char
    requires d < 16
  {
    if d < 10 then '0' + d as char else 'a' + (d - 10) as char
  }

  /** The value of a hexadecimal digit of either case, or -1. */
  function DigitValue(c: char): int {
    if '0' <= c <= '9' then c as int - '0' as int
    else if 'a' <= c <= 'f' then c as int - 'a' as int + 10
    else if 'A' <= c <= 'F' then c as int - 'A' as int + 10
    else -1
  }

  predicate IsDecimal(c: char) { '0' <= c <= '9' }

  lemma DigitOk(d: nat)
    requires d < 16
    ensures DigitValue(DigitChar(d)) == d && (d < 10 ==> IsDecimal(DigitChar(d))) && DigitChar(d) != ':'
        && DigitChar(d) != '.'
  {
  }

  /** A number in base 16 and in base 10, without leading zeros, in lower case. */
  function Hex(n: nat): (s: seq<char>)
    ensures |s| >= 1
  {
    if n < 16 then [DigitChar(n)] else Hex(n / 16) + [DigitChar(n % 16)]
  }

  function Dec(n: nat): (s: seq<char>)
    ensures |s| >= 1
  {
    if n < 10 then [DigitChar(n)] else Dec(n / 10) + [DigitChar(n % 10)]
  }

  /** Hexadecimal digits are in lower case, and none but the number zero begins with a zero. */
  lemma {:induction false} HexDigits(n: nat)
    ensures forall i :: 0 <= i < |Hex(n)| ==> IsDecimal(Hex(n)[i]) || 'a' <= Hex(n)[i] <= 'f'
    ensures Hex(n)[0] == '0' ==> n == 0
  {
    if n >= 16 { HexDigits(n / 16); }
  }

  lemma {:induction false} HexLength(n: nat, k: nat)
    requires k >= 1 && n < Power16(k)
    ensures |Hex(n)| <= k
    decreases k
  {
    if n >= 16 { HexLength(n / 16, k - 1); }
  }

  function Power16(k: nat): nat { if k == 0 then 1 else 16 * Power16(k - 1) }

  lemma WordLength(w: Word)
    ensures |Hex(w)| <= 4
  {
    assert Power16(2) == 256 && Power16(4) == 65536;
    HexLength(w, 4);
  }

  // ---------- IPv4 ----------

  /** Octets separated by dots. */
  function Dotted(a: seq<Byte>): seq<char> {
    if a == [] then [] else if |a| == 1 then Dec(a[0]) else Dec(a[0]) + ['.'] + Dotted(a[1..])
  }

  predicate IsAddress4(a: seq<Byte>) { |a| == 4 }

  /** The parser's state: finished octets, the current one, and whether it has a digit. */
  datatype P4 = P4(octets: seq<Byte>, cur: Byte, saw: bool)

  /** The state after one more character, or nothing. */
  function Step4(st: P4, c: char): Option<P4> {
    if IsDecimal(c) then
      var nw := st.cur * 10 + DigitValue(c);
      if (st.saw && st.cur == 0) || nw > 255 || (!st.saw && |st.octets| + 1 > 4) then None
      else Some(P4(st.octets, nw, true))
    else if c == '.' && st.saw then if |st.octets| + 1 == 4 then None else Some(P4(st.octets + [st.cur], 0, false))
    else None
  }

  function Parse4(st: P4, s: seq<char>): Option<seq<Byte>>
    decreases |s|
  {
    if s == [] then if st.saw && |st.octets| + 1 == 4 then Some(st.octets + [st.cur]) else None
    else match Step4(st, s[0]) case None => None case Some(st') => Parse4(st', s[1..])
  }

  /** What the IPv4 parser makes of a string. */
  function Pton4(s: seq<char>): Option<seq<Byte>> { Parse4(P4([], 0, false), s) }

  /** The digits of an octet are read as its value. */
  lemma {:induction false} ReadOctet(o: seq<Byte>, b: Byte, rest: seq<char>)
    requires |o| < 4
    ensures Parse4(P4(o, 0, false), Dec(b) + rest) == Parse4(P4(o, b, true), rest)
    decreases b
  {
    if b < 10 {
      DigitOk(b);
      assert ([DigitChar(b)] + rest)[1..] == rest;
    } else {
      var d := DigitChar(b % 10);
      DigitOk(b % 10);
      ReadOctet(o, b / 10, [d] + rest);
      assert Dec(b) + rest == Dec(b / 10) + ([d] + rest);
      assert ([d] + rest)[1..] == rest;
    }
  }

  /** Printed IPv4 addresses are read back. */
  lemma {:induction false} ReadDotted(o: seq<Byte>, a: seq<Byte>)
    requires |a| >= 1 && |o| + |a| == 4
    ensures Parse4(P4(o, 0, false), Dotted(a)) == Some(o + a)
    decreases |a|
  {
    if |a| == 1 {
      ReadOctet(o, a[0], []);
      assert Dec(a[0]) + [] == Dec(a[0]);
      assert o + [a[0]] == o + a;
    } else {
      var rest := ['.'] + Dotted(a[1..]);
      ReadOctet(o, a[0], rest);
      assert Dec(a[0]) + ['.'] + Dotted(a[1..]) == Dec(a[0]) + rest;
      assert rest[1..] == Dotted(a[1..]);
      ReadDotted(o + [a[0]], a[1..]);
      assert o + [a[0]] + a[1..] == o + a;
    }
  }

  /** The text that leads to a parser state. */
  function Text4(st: P4): seq<char> {
    Ended(st.octets) + if st.saw then Dec(st.cur) else []
  }

  /** Octets each followed by a dot. */
  function Ended(o: seq<Byte>): seq<char> {
    if o == [] then [] else Ended(o[..|o|-1]) + Dec(o[|o|-1]) + ['.']
  }

  predicate Ok4(st: P4) { |st.octets| <= 3 && (!st.saw ==> st.cur == 0) }

  lemma StepText(st: P4, c: char)
    requires Ok4(st) && Step4(st, c).Some?
    ensures Ok4(Step4(st, c).value) && Text4(Step4(st, c).value) == Text4(st) + [c]
  {
    var st' := Step4(st, c).value;
    if IsDecimal(c) {
      var d := DigitValue(c);
      assert DigitChar(d) == c;
      if st.saw {
        assert st'.cur / 10 == st.cur && st'.cur % 10 == d;
        assert Dec(st'.cur) == Dec(st.cur) + [c];
      }
    } else {
      assert st'.octets[..|st'.octets|-1] == st.octets;
    }
  }

  lemma {:induction false} ParseText(st: P4, s: seq<char>)
    requires Ok4(st) && Parse4(st, s).Some?
    ensures IsAddress4(Parse4(st, s).value) && Text4(st) + s == Dotted(Parse4(st, s).value)
    decreases |s|
  {
    if s == [] {
      var a := st.octets + [st.cur];
      EndedDotted(st.octets, st.cur);
    } else {
      var st' := Step4(st, s[0]).value;
      StepText(st, s[0]);
      ParseText(st', s[1..]);
      assert Text4(st) + s == Text4(st') + s[1..];
    }
  }

  lemma {:induction false} EndedDotted(o: seq<Byte>, b: Byte)
    ensures Dotted(o + [b]) == Ended(o) + Dec(b)
    decreases |o|
  {
    if o == [] {
      assert o + [b] == [b];
    } else {
      var n := |o| - 1;
      EndedDotted(o[..n], o[n]);
      DottedSnoc(o, b);
      assert o[..n] + [o[n]] == o;
    }
  }

  lemma {:induction false} DottedSnoc(o: seq<Byte>, b: Byte)
    requires o != []
    ensures Dotted(o + [b]) == Dotted(o) + ['.'] + Dec(b)
    decreases |o|
  {
    var w := o + [b];
    assert w[1..] == o[1..] + [b] && w[0] == o[0] && |w| > 1;
    if |o| == 1 {
      assert w[1..] == [b] && o == [o[0]];
    } else {
      DottedSnoc(o[1..], b);
      Glue(Dec(o[0]) + ['.'], Dotted(o[1..]), ['.'] + Dec(b));
      assert Dotted(o[1..]) + ['.'] + Dec(b) == Dotted(o[1..]) + (['.'] + Dec(b));
      assert Dotted(o) + ['.'] + Dec(b) == Dotted(o) + (['.'] + Dec(b));
    }
  }

  lemma Glue(a: seq<char>, b: seq<char>, c: seq<char>)
    ensures a + b + c == a + (b + c)
  {
  }

  /** The IPv4 parser accepts exactly the strings that are printed, with the addresses they stand for. */
  lemma Exact4(s: seq<char>, a: seq<Byte>)
    ensures Pton4(s) == Some(a) <==> IsAddress4(a) && s == Dotted(a)
  {
    if IsAddress4(a) && s == Dotted(a) {
      ReadDotted([], a);
      assert [] + a == a;
    }
    if Pton4(s) == Some(a) {
      ParseText(P4([], 0, false), s);
      assert Text4(P4([], 0, false)) + s == s;
    }
  }
}
