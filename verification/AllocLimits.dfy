/**
 LuaJIT's allocator, part 7: sizes.  Which size a request is given, and which sizes the index computation was not
 written for.
 */
module AllocLimits {
  import opened AllocChunk
  import opened AllocBins
  import opened AllocHeap

  /** A request is given the least size that is aligned, large enough for a free chunk, and has room for the header. */
  lemma RequestLeast(req: nat, n: nat)
    ensures RequestSize(req) % 8 == 0 && RequestSize(req) >= MIN_CHUNK_SIZE && RequestSize(req) >= req + 8
    ensures n % 8 == 0 && n >= MIN_CHUNK_SIZE && n >= req + 8 ==> RequestSize(req) <= n
  {
    if n % 8 == 0 && n >= MIN_CHUNK_SIZE && n >= req + 8 {
      var k, m := n / 8, RequestSize(req) / 8;
      assert n == 8 * k && RequestSize(req) == 8 * m;
    }
  }

  /** The index of size `s` is that of the tree whose sizes include `s`; the last tree has no largest size. */
  predicate InItsBin(s: nat) {
    var i := TreeIndex(s);
    i < NTREEBINS && MinSize(i) <= s && (i < NTREEBINS - 1 ==> s < MinSize(i) + Width(i))
  }

  /**
   When the index puts a size into the tree whose interval contains it: always below 2^40, and from there on
   exactly if the bits that are left by the cast say the last tree.
   */
  lemma IndexExactly(s: nat)
    requires s >= MIN_LARGE_SIZE
    ensures InItsBin(s) <==> s < INDEXED || (s / 256) % 0x1_0000_0000 >= 0xC000
  {
    if s < INDEXED {
      IndexInside(s);
    } else {
      var x, i := (s / 256) % 0x1_0000_0000, TreeIndex(s);
      LastMin();
      if x == 0 {
        assert MinSize(0) + Width(0) == 3 * Pow(7);
        PowWord();
      } else if x <= 0xFFFF {
        CastIndex(s, x);
        if i < NTREEBINS - 1 { MinMonotone(i, NTREEBINS - 1); }
      }
    }
  }

  /** The index of a size whose bits within the cast are `x`. */
  lemma CastIndex(s: nat, x: nat)
    requires x == (s / 256) % 0x1_0000_0000 && 0 < x <= 0xFFFF
    ensures TreeIndex(s) < NTREEBINS && (TreeIndex(s) == NTREEBINS - 1 <==> x >= 0xC000)
  {
    HighestBit(x);
    if x >= 0x8000 {
      SecondBit(s, x);
      assert Pow(22) == 0x40_0000 by {
        PowWord();
        PowAdd(6, 16);
      }
    }
  }

  lemma HighestBit(x: nat)
    requires 0 < x <= 0xFFFF
    ensures Fls(x) <= 15 && (Fls(x) == 15 <==> x >= 0x8000)
  {
    var k := Fls(x);
    FlsIs(x);
    PowWord();
    PowAdd(7, 8);
    assert Pow(8) == 256 && Pow(15) == 0x8000;
    if k >= 16 {
      PowLess(16, k);
    } else if k < 15 {
      PowLess(k + 1, 15);
    }
  }

  /** The bit after the highest of a 16-bit value survives the cast. */
  lemma SecondBit(s: nat, x: nat)
    requires x == (s / 256) % 0x1_0000_0000 && 0x8000 <= x <= 0xFFFF
    ensures (s / 0x40_0000) % 2 == 1 <==> x >= 0xC000
  {
    var q := (s / 256) / 0x1_0000_0000;
    assert s / 256 == q * 0x1_0000_0000 + x;
    assert s / 0x40_0000 == (s / 256) / 0x4000;
    assert (s / 256) / 0x4000 == q * 0x4_0000 + x / 0x4000;
    var y := if x >= 0xC000 then 3 else 2;
    assert x / 0x4000 == y;
    Parity(q * 0x2_0000 + 1, y - 2);
    assert s / 0x40_0000 == 2 * (q * 0x2_0000 + 1) + (y - 2);
  }

  lemma Parity(a: nat, b: nat)
    requires b < 2
    ensures (2 * a + b) % 2 == b
  {
  }

  /** A size that goes astray: the index says the tree of the smallest sizes, where no larger request looks. */
  lemma IndexAstray()
    ensures TreeIndex(INDEXED) == 0 && INDEXED > MinSize(0) + Width(0) && !InItsBin(INDEXED)
    ensures TreeIndex(INDEXED - 8) == NTREEBINS - 1
  {
    assert (INDEXED / 256) % 0x1_0000_0000 == 0;
    assert ((INDEXED - 8) / 256) % 0x1_0000_0000 == 0xFFFF_FFFF;
    PowWord();
  }

  /** A segment of `n` bytes may be given to the allocator exactly if every size it can hold is indexed rightly. */
  lemma SegmentExactly(n: nat)
    ensures (forall s :: MIN_LARGE_SIZE <= s <= n && s % 8 == 0 ==> InItsBin(s)) <==> n < INDEXED
  {
    if n < INDEXED {
      forall s | MIN_LARGE_SIZE <= s <= n
        ensures InItsBin(s)
      {
        IndexExactly(s);
      }
    } else {
      IndexAstray();
      assert MIN_LARGE_SIZE <= INDEXED <= n && INDEXED % 8 == 0;
    }
  }
}
