/**
 Internet addresses as text, part 4: which addresses are printed with an IPv4 address at the end.
 */
module InetForms {
  import opened InetText
  import opened InetText6
  import Inet

  /** The words before the last two are zeros, or five zeros and the word ffff. */
  predicate Compatible(ws: seq<Word>)
    requires |ws| == 8
  {
    (forall i :: 0 <= i < 6 ==> ws[i] == 0) && ws[6] != 0
  }

  predicate Mapped(ws: seq<Word>)
    requires |ws| == 8
  {
    (forall i :: 0 <= i < 5 ==> ws[i] == 0) && ws[5] == 0xffff
  }

  /** The first `n` words are the run that is compressed. */
  lemma RunInFront(ws: seq<Word>, n: nat)
    requires |ws| == 8 && 5 <= n < 8 && ZeroRun(ws, 0, n) && ws[n] != 0
    ensures Compressed(ws, 0, n)
    ensures forall b: nat, k: nat :: Compressed(ws, b, k) ==> b == 0 && k == n
  {
    forall c: nat, k: nat | ZeroRun(ws, c, k)
      ensures k <= n
    {
      assert !(c <= n < c + k);
    }
    forall b: nat, k: nat | Compressed(ws, b, k)
      ensures b == 0 && k == n
    {
      assert ZeroRun(ws, b, k);
    }
  }

  /** The last four bytes of such an address are printed as an IPv4 address behind two colons. */
  lemma CompatibleForm(a: seq<Byte>, s: seq<char>)
    requires |a| == 16 && |WordsOf(a)| == 8 && Inet.Printed(a, s) && Compatible(WordsOf(a))
    ensures s == "::" + Dotted(a[12..])
  {
    var ws := WordsOf(a);
    RunInFront(ws, 6);
    assert s == Short(a, ws, 0, 6);
    NoneBefore(ws, Rest(a, ws, 0, 6));
    assert Rest(a, ws, 0, 6) == Dotted(a[12..]);
  }

  /** Or behind `::ffff:`. */
  lemma MappedForm(a: seq<Byte>, s: seq<char>)
    requires |a| == 16 && |WordsOf(a)| == 8 && Inet.Printed(a, s) && Mapped(WordsOf(a))
    ensures s == "::ffff:" + Dotted(a[12..])
  {
    var ws := WordsOf(a);
    RunInFront(ws, 5);
    assert s == Short(a, ws, 0, 5);
    MappedText(a, ws);
  }

  lemma MappedText(a: seq<Byte>, ws: seq<Word>)
    requires |a| == 16 && |ws| == 8 && ws[5] == 0xffff
    ensures Short(a, ws, 0, 5) == "::ffff:" + Dotted(a[12..])
  {
    HexFfff();
    NoneBefore(ws, Rest(a, ws, 0, 5));
    FfffText(Dotted(a[12..]));
  }

  /** Nothing stands before a run in front. */
  lemma NoneBefore(ws: seq<Word>, rest: seq<char>)
    ensures Groups(ws[..0]) + [':', ':'] + rest == "::" + rest
  {
    assert ws[..0] == [] && [] + [':', ':'] == "::";
  }

  lemma FfffText(d: seq<char>)
    ensures "::" + ("ffff" + [':'] + d) == "::ffff:" + d
  {
  }

  lemma HexFfff()
    ensures Hex(0xffff) == "ffff"
  {
    assert Hex(0xf) == "f";
    assert Hex(0xff) == Hex(0xf) + "f";
    assert Hex(0xfff) == Hex(0xff) + "f";
    assert Hex(0xffff) == Hex(0xfff) + "f";
  }

  lemma {:induction false} NoDot(ws: seq<Word>)
    ensures '.' !in Groups(ws)
  {
    if ws != [] {
      HexDigits(ws[0]);
      NoDot(ws[1..]);
    }
  }

  /** All other addresses are printed in groups only. */
  lemma PlainForm(a: seq<Byte>, s: seq<char>)
    requires |a| == 16 && |WordsOf(a)| == 8 && Inet.Printed(a, s)
    ensures '.' in s ==> Compatible(WordsOf(a)) || Mapped(WordsOf(a))
  {
    var ws := WordsOf(a);
    NoDot(ws);
    if !Uncompressed(ws) {
      var b: nat, n: nat :| Compressed(ws, b, n) && s == Short(a, ws, b, n);
      NoDot(ws[..b]);
      NoDot(ws[b + n..]);
      if Embedded(ws, b, n) && n == 6 { NotLonger(ws); }
    }
  }

  lemma NotLonger(ws: seq<Word>)
    requires |ws| == 8 && Compressed(ws, 0, 6)
    ensures ws[6] != 0
  {
    assert !ZeroRun(ws, 0, 7);
  }
}
