/**
 LuaJIT's allocator, part 2: which tree a large chunk belongs to, and the best-fit search.
 */
module AllocBins {
  import opened AllocChunk
  import opened AllocTrie

  const NTREEBINS: nat := 32
  const MIN_LARGE_SIZE: nat := 256

  /** Sizes up to here are indexed without losing bits in the 32-bit cast of the index computation. */
  const INDEXED: nat := 0x100_0000_0000

  // ---------- indices ----------

  function Pow(n: nat): (p: nat)
    ensures p >= 1
  {
    if n == 0 then 1 else 2 * Pow(n - 1)
  }

  /** The highest set bit. */
  function Fls(x: nat): nat { if x < 2 then 0 else 1 + Fls(x / 2) }

  /** The tree for chunks of size `s`. */
  function TreeIndex(s: nat): nat {
    var x := (s / 256) % 0x1_0000_0000;
    if x == 0 then 0
    else if x > 0xFFFF then NTREEBINS - 1
    else 2 * Fls(x) + (s / Pow(Fls(x) + 7)) % 2
  }

  /** How many sizes a tree other than the last distinguishes, and the smallest size of each tree. */
  function Width(i: nat): nat { Pow(i / 2 + 7) }
  function MinSize(i: nat): nat { (2 + i % 2) * Width(i) }

  /** The interval on which the trie of bin `i` branches. */
  function Low(i: nat): nat { if i == NTREEBINS - 1 then 0 else MinSize(i) }
  function Span(i: nat): nat { if i == NTREEBINS - 1 then WORD else Width(i) }

  /** The size bits shifted so that the first one to branch on is the top bit. */
  function SizeBits(s: nat, i: nat): nat {
    if i == NTREEBINS - 1 then s % WORD else (s * Pow(if i / 2 <= 57 then 57 - i / 2 else 0)) % WORD
  }

  lemma {:induction false} FlsIs(x: nat)
    requires x > 0
    ensures Pow(Fls(x)) <= x < 2 * Pow(Fls(x))
  {
    if x >= 2 { FlsIs(x / 2); }
  }

  lemma {:induction false} PowAdd(m: nat, n: nat)
    ensures Pow(m + n) == Pow(m) * Pow(n)
  {
    if m > 0 { PowAdd(m - 1, n); }
  }

  lemma {:induction false} PowLess(m: nat, n: nat)
    requires m <= n
    ensures Pow(m) <= Pow(n)
  {
    if m < n { PowLess(m, n - 1); }
  }

  lemma PowWord()
    ensures Pow(64) == WORD && Pow(16) == 0x1_0000 && Pow(7) == 128
  {
    assert Pow(8) == 256 && Pow(7) == 128;
    PowAdd(8, 8);
    PowAdd(16, 16);
    PowAdd(32, 32);
  }

  lemma {:induction false} PowBinary(n: nat)
    ensures Binary(Pow(n))
  {
    if n > 0 { PowBinary(n - 1); }
  }

  lemma SpanBinary(i: nat)
    requires i < NTREEBINS
    ensures Binary(Span(i))
  {
    PowWord();
    PowBinary(64);
    PowBinary(i / 2 + 7);
  }

  /** The sizes of tree `i` end where those of the next one begin. */
  lemma NextMin(i: nat)
    ensures MinSize(i) + Width(i) == MinSize(i + 1)
  {
    if i % 2 == 0 {
      assert (i + 1) / 2 == i / 2;
    } else {
      assert (i + 1) / 2 == i / 2 + 1 && (i + 1) % 2 == 0;
      assert Width(i + 1) == 2 * Width(i);
    }
  }

  lemma {:induction false} MinMonotone(i: nat, j: nat)
    requires i < j
    ensures MinSize(i) + Width(i) <= MinSize(j)
    decreases j - i
  {
    NextMin(i);
    if i + 1 < j {
      MinMonotone(i + 1, j);
    }
  }

  /** The index puts a size into the tree whose interval contains it. */
  lemma IndexInside(s: nat)
    requires MIN_LARGE_SIZE <= s < INDEXED
    ensures var i := TreeIndex(s);
      i < NTREEBINS && MinSize(i) <= s && (i < NTREEBINS - 1 ==> s < MinSize(i) + Width(i))
  {
    var x := s / 256;
    assert x % 0x1_0000_0000 == x;
    if x <= 0xFFFF {
      IndexSmall(s, x);
    } else {
      LastMin();
    }
  }

  lemma LastMin()
    ensures MinSize(31) == 0xC0_0000
  {
    PowWord();
    PowAdd(6, 16);
    assert Pow(6) == 64;
  }

  lemma IndexSmall(s: nat, x: nat)
    requires x == s / 256 && 0 < x <= 0xFFFF
    ensures var i := 2 * Fls(x) + (s / Pow(Fls(x) + 7)) % 2;
      i < NTREEBINS && MinSize(i) <= s < MinSize(i) + Width(i)
  {
    var k := Fls(x);
    var p := Pow(k + 7);
    FlsBounds(s, x);
    Quotient(s, p);
    IndexParts(k, if s < 3 * p then 0 else 1);
  }

  lemma FlsBounds(s: nat, x: nat)
    requires x == s / 256 && 0 < x <= 0xFFFF
    ensures var p := Pow(Fls(x) + 7); Fls(x) < 16 && 2 * p <= s < 4 * p
  {
    var k, y := Fls(x), Pow(Fls(x));
    FlsIs(x);
    PowWord();
    PowAdd(k, 7);
    assert Pow(k + 7) == 128 * y;
    if k >= 16 { PowLess(16, k); }
  }

  lemma IndexParts(k: nat, b: nat)
    requires b < 2
    ensures MinSize(2 * k + b) == (if b == 0 then 2 * Pow(k + 7) else 3 * Pow(k + 7)) && Width(2 * k + b) == Pow(k + 7)
  {
    assert (2 * k + b) / 2 == k && (2 * k + b) % 2 == b;
  }

  lemma Quotient(s: nat, p: nat)
    requires p > 0 && 2 * p <= s < 4 * p
    ensures (s / p) % 2 == if s < 3 * p then 0 else 1
  {
    Divides(s, p, if s < 3 * p then 2 else 3);
  }

  lemma Divides(s: nat, p: nat, q: nat)
    requires p > 0 && q * p <= s < (q + 1) * p
    ensures s / p == q
  {
    var z := s / p;
    assert z * p <= s < (z + 1) * p by { assert s == z * p + s % p; }
    Product(z + 1, q, p);
    Product(q + 1, z, p);
  }

  /** The shifted size bits are those that the trie branches on. */
  lemma StartBits(s: nat, i: nat)
    requires i < NTREEBINS && Low(i) <= s < Low(i) + Span(i)
    ensures Bits(SizeBits(s, i), s - Low(i), Span(i))
  {
    if i < NTREEBINS - 1 {
      PowWord();
      var n, q, m := Width(i), Pow(57 - i / 2), 2 + i % 2;
      PowAdd(i / 2 + 7, 57 - i / 2);
      ShiftedBits(s, s - Low(i), m, n, q);
    }
  }

  lemma ShiftedBits(s: nat, d: nat, m: nat, n: nat, q: nat)
    requires n * q == WORD && s == m * n + d && d < n && q > 0
    ensures Bits((s * q) % WORD, d, n)
  {
    assert s * q == m * (n * q) + d * q;
    assert d * q < WORD by { Product(d, n, q); }
    ModAway(m, d * q);
    assert (d * q) * n == d * (n * q);
  }

  lemma {:induction false} ModAway(m: nat, x: nat)
    requires x < WORD
    ensures (m * WORD + x) % WORD == x
  {
    if m > 0 {
      ModAway(m - 1, x);
      assert m * WORD + x == ((m - 1) * WORD + x) + WORD;
    }
  }

  // ---------- the trees ----------

  /** Tree `i` is a trie of sizes that belong to bin `i`. */
  ghost predicate BinOk(t: Trie, i: nat) {
    Ok(t, Low(i), Span(i)) && forall x :: x in Sizes(t) ==> MinSize(i) <= x < INDEXED
  }

  /** A well-formed array of trees with its map of the non-empty ones. */
  ghost predicate TreesOk(trees: seq<Trie>, marks: set<nat>) {
    && |trees| == NTREEBINS
    && (forall i :: 0 <= i < NTREEBINS ==> BinOk(trees[i], i))
    && (forall i :: 0 <= i < NTREEBINS ==> (i in marks <==> trees[i].Node?))
    && (forall i :: i in marks ==> i < NTREEBINS)
  }

  lemma BinSizes(t: Trie, i: nat)
    requires i < NTREEBINS && BinOk(t, i)
    ensures forall x :: x in Sizes(t) && i < NTREEBINS - 1 ==> x < MinSize(i) + Width(i)
  {
    SizesInside(t, Low(i), Span(i));
  }

  /** Sizes in a later tree are larger. */
  lemma TreesOrdered(trees: seq<Trie>, marks: set<nat>, i: nat, j: nat)
    requires TreesOk(trees, marks) && i < j < NTREEBINS
    ensures forall x, y :: x in Sizes(trees[i]) && y in Sizes(trees[j]) ==> x < y
  {
    BinSizes(trees[i], i);
    MinMonotone(i, j);
    assert BinOk(trees[j], j);
  }

  // ---------- the best-fit search ----------

  /** `v` is the best chunk met so far and `rsize` what it leaves over, in 64-bit arithmetic. */
  predicate Candidate(v: Trie, rsize: nat, nb: nat) {
    if v.Nil? then nb <= WORD && rsize == WORD - nb else nb <= v.size < INDEXED && rsize == v.size - nb
  }

  /** The smallest size in a tree: it lies on the leftmost path. */
  function MinOf(t: Trie): nat
    requires t.Node?
  {
    var u := if t.l.Node? then t.l else t.r;
    if u.Node? && MinOf(u) < t.size then MinOf(u) else t.size
  }

  lemma {:induction false} MinOfIs(t: Trie, lo: nat, n: nat)
    requires Ok(t, lo, n) && t.Node?
    ensures MinOf(t) in Sizes(t) && forall x :: x in Sizes(t) ==> MinOf(t) <= x
    decreases t
  {
    SizesInside(t.l, lo, n / 2);
    SizesInside(t.r, lo + n / 2, n / 2);
    if t.l.Node? { MinOfIs(t.l, lo, n / 2); }
    if t.r.Node? { MinOfIs(t.r, lo + n / 2, n / 2); }
  }

  /** The smallest size among the candidate and a tree, or the word size if there is none. */
  function Least(v: Trie, t: Trie): nat {
    if v.Nil? then if t.Nil? then WORD else MinOf(t)
    else if t.Nil? then v.size
    else if MinOf(t) < v.size then MinOf(t) else v.size
  }

  /** The remainder in 64-bit arithmetic. */
  function Remainder(size: nat, nb: nat): nat
    requires nb < WORD
  {
    (size + (WORD - nb)) % WORD
  }

  /** The wrapped remainder of a chunk that is too small is never below the running one. */
  lemma RemainderIs(v: Trie, rsize: nat, nb: nat, size: nat)
    requires Candidate(v, rsize, nb) && 0 < nb < WORD && size < INDEXED
    ensures Remainder(size, nb) < rsize <==> size >= nb && (v.Nil? || size < v.size)
    ensures size >= nb ==> Remainder(size, nb) == size - nb
  {
    if size >= nb {
      assert size + (WORD - nb) == (size - nb) + WORD;
      ModAway(1, size - nb);
    } else {
      ModAway(0, size + (WORD - nb));
    }
  }

  method Better(t: Trie, v0: Trie, rsize0: nat, nb: nat) returns (v: Trie, rsize: nat)
    requires t.Node? && t.size < INDEXED && Candidate(v0, rsize0, nb) && 0 < nb < WORD
    ensures Candidate(v, rsize, nb)
    ensures v == if t.size >= nb && (v0.Nil? || t.size < v0.size) then t else v0
  {
    v, rsize := v0, rsize0;
    RemainderIs(v, rsize, nb, t.size);
    var trem := Remainder(t.size, nb);
    if trem < rsize {
      rsize := trem;
      v := t;
    }
  }

  predicate Subtree(t: Trie, t0: Trie) { t == t0 || (t0.Node? && (Subtree(t, t0.l) || Subtree(t, t0.r))) }

  lemma {:induction false} SubtreeKids(t: Trie, t0: Trie)
    requires Subtree(t, t0) && t.Node?
    ensures Subtree(t.l, t0) && Subtree(t.r, t0)
  {
    if t != t0 {
      if Subtree(t, t0.l) { SubtreeKids(t, t0.l); } else { SubtreeKids(t, t0.r); }
    } else {
      assert Subtree(t.l, t0.l) && Subtree(t.r, t0.r);
    }
  }

  lemma {:induction false} SubtreeSizes(t: Trie, t0: Trie)
    requires Subtree(t, t0)
    ensures Sizes(t) <= Sizes(t0) && (t.Node? ==> t.size in Sizes(t0) && Has(t0, Chunk(t.chunk, t.size)))
  {
    if t != t0 {
      if Subtree(t, t0.l) { SubtreeSizes(t, t0.l); } else { SubtreeSizes(t, t0.r); }
    }
  }

  lemma {:induction false} NilSubtree(t0: Trie)
    ensures Subtree(Nil, t0)
  {
    if t0.Node? { NilSubtree(t0.l); }
  }

  /** Walk down the leftmost path of a tree whose sizes all suffice, or in which nothing better can be. */
  method Leftmost(t0: Trie, v0: Trie, rsize0: nat, nb: nat) returns (v: Trie, rsize: nat)
    requires (forall x :: x in Sizes(t0) ==> x < INDEXED) && 0 < nb < WORD && Candidate(v0, rsize0, nb)
    requires (forall x :: x in Sizes(t0) ==> x >= nb) || rsize0 == 0 || nb >= INDEXED
    ensures Candidate(v, rsize, nb)
    ensures if rsize0 == 0 || nb >= INDEXED then v == v0 else Least(v, Nil) == Least(v0, t0)
    ensures v == v0 || (v.Node? && Subtree(v, t0))
  {
    var t := t0;
    v, rsize := v0, rsize0;
    while t.Node?
      invariant Subtree(t, t0) && Candidate(v, rsize, nb)
      invariant v == v0 || (v.Node? && Subtree(v, t0))
      invariant if rsize0 == 0 || nb >= INDEXED then v == v0 else Least(v, t) == Least(v0, t0)
      decreases t
    {
      SubtreeSizes(t, t0);
      SubtreeKids(t, t0);
      v, rsize := Better(t, v, rsize, nb);
      t := if t.l.Node? then t.l else t.r;
    }
  }

  // The smallest sufficient size, looked for everywhere.

  function Lesser(x: nat, y: nat): nat { if x < y then x else y }

  /** The smallest size of at least `nb` in a tree, or the word size if there is none. */
  function LeastFit(t: Trie, nb: nat): nat {
    if t.Nil? then WORD
    else Lesser(if t.size >= nb then t.size else WORD, Lesser(LeastFit(t.l, nb), LeastFit(t.r, nb)))
  }

  function SizeOf(v: Trie): nat { if v.Nil? then WORD else v.size }

  lemma {:induction false} LeastFitIs(t: Trie, nb: nat)
    requires forall x :: x in Sizes(t) ==> x < INDEXED
    ensures forall x :: x in Sizes(t) && x >= nb ==> LeastFit(t, nb) <= x
    ensures LeastFit(t, nb) == WORD || (LeastFit(t, nb) in Sizes(t) && nb <= LeastFit(t, nb) < WORD)
  {
    if t.Node? {
      assert Sizes(t.l) <= Sizes(t) && Sizes(t.r) <= Sizes(t);
      LeastFitIs(t.l, nb);
      LeastFitIs(t.r, nb);
    }
  }

  lemma NoneFits(t: Trie, nb: nat)
    requires forall x :: x in Sizes(t) ==> x < INDEXED && x < nb
    ensures LeastFit(t, nb) == WORD
  {
    LeastFitIs(t, nb);
  }

  lemma AllFit(t: Trie, nb: nat, lo: nat, n: nat)
    requires t.Node? && Ok(t, lo, n) && forall x :: x in Sizes(t) ==> nb <= x < INDEXED
    ensures LeastFit(t, nb) == MinOf(t)
  {
    LeastFitIs(t, nb);
    MinOfIs(t, lo, n);
  }

  /** The walk along the bits of `nb` has come to `t`; `rst` is the deepest right subtree it passed by. */
  ghost predicate OnPath(t: Trie, rst: Trie, nb: nat, k: nat, lo: nat, n: nat) {
    && Binary(n) && lo <= nb < lo + n && Bits(k, nb - lo, n)
    && (forall x :: x in Sizes(rst) ==> x >= lo + n)
  }

  /** The best of the candidate and what is left in two trees. */
  function BestOf(v: Trie, t: Trie, rst: Trie, nb: nat): nat {
    Lesser(SizeOf(v), Lesser(LeastFit(t, nb), LeastFit(rst, nb)))
  }

  /** The candidate after node `t` was looked at. */
  function Updated(v: Trie, t: Trie, nb: nat): Trie
    requires t.Node?
  {
    if t.size >= nb && (v.Nil? || t.size < v.size) then t else v
  }

  /** The sizes of `t` exceed `nb` and lie below those of `rst`. */
  ghost predicate Beyond(t: Trie, rst: Trie, nb: nat) {
    && (forall x :: x in Sizes(t) ==> nb < x)
    && (forall x, y :: x in Sizes(t) && y in Sizes(rst) ==> x < y)
  }

  lemma PathOn(t: Trie, rst: Trie, nb: nat, k: nat, lo: nat, n: nat)
    requires t.Node? && Ok(t, lo, n) && n > 1 && OnPath(t, rst, nb, k, lo, n)
    ensures var u := if TopBit(k) then t.r else t.l;
      var rst' := if t.r.Node? && !TopBit(k) then t.r else rst;
      OnPath(u, rst', nb, Shift(k), if TopBit(k) then lo + n / 2 else lo, n / 2)
    ensures TopBit(k) ==> forall x :: x in Sizes(t.l) ==> x < nb
    ensures !TopBit(k) ==> Beyond(t.r, rst, nb)
  {
    NextBit(k, nb - lo, n);
    SizesInside(t.l, lo, n / 2);
    SizesInside(t.r, lo + n / 2, n / 2);
  }

  lemma BestOn(t: Trie, rst: Trie, v: Trie, nb: nat, right: bool)
    requires t.Node? && (v.Node? ==> v.size < INDEXED)
    requires forall x :: x in Sizes(t) || x in Sizes(rst) ==> x < INDEXED
    requires right ==> forall x :: x in Sizes(t.l) ==> x < nb
    requires !right ==> Beyond(t.r, rst, nb)
    ensures var u := if right then t.r else t.l;
      var rst' := if t.r.Node? && !right then t.r else rst;
      BestOf(Updated(v, t, nb), u, rst', nb) == BestOf(v, t, rst, nb)
  {
    assert Sizes(t.l) <= Sizes(t) && Sizes(t.r) <= Sizes(t) && t.size in Sizes(t);
    LeastFitIs(rst, nb);
    LeastFitIs(t.l, nb);
    LeastFitIs(t.r, nb);
    if right {
      NoneFits(t.l, nb);
    } else if t.r.Node? {
      assert t.r.size in Sizes(t.r);
    }
    Minimum(SizeOf(v), if t.size >= nb then t.size else WORD, LeastFit(t.l, nb), LeastFit(t.r, nb), LeastFit(rst, nb));
  }

  lemma Minimum(v: nat, s: nat, l: nat, r: nat, o: nat)
    requires v <= WORD && s <= WORD && l <= WORD && r <= WORD && o <= WORD
    ensures l == WORD ==> Lesser(Lesser(s, v), Lesser(r, o)) == Lesser(v, Lesser(Lesser(s, Lesser(l, r)), o))
    ensures o >= r ==> Lesser(Lesser(s, v), Lesser(l, r)) == Lesser(v, Lesser(Lesser(s, Lesser(l, r)), o))
    ensures r == WORD ==> Lesser(Lesser(s, v), Lesser(l, o)) == Lesser(v, Lesser(Lesser(s, Lesser(l, r)), o))
  {
  }

  /** Walk down the trie along the bits of `nb`, looking for an exact fit. */
  method Walk(t0: Trie, nb: nat, bits: nat, ghost lo0: nat, ghost n0: nat) returns (v: Trie, rsize: nat, t: Trie)
    requires t0.Node? && Ok(t0, lo0, n0) && Binary(n0) && 0 < nb < WORD && forall x :: x in Sizes(t0) ==> x < INDEXED
    requires nb < INDEXED ==> lo0 <= nb < lo0 + n0 && Bits(bits, nb - lo0, n0)
    ensures Candidate(v, rsize, nb) && (v.Node? ==> Subtree(v, t0))
    ensures Subtree(t, t0)
    ensures rsize == 0 || nb >= INDEXED || NoneBelow(t, nb)
    ensures nb < INDEXED && rsize == 0 ==> LeastFit(t0, nb) == nb
    ensures nb < INDEXED && rsize != 0 ==> BestOf(v, t, Nil, nb) == LeastFit(t0, nb)
  {
    v, rsize, t := Nil, WORD - nb, t0;
    var k, rst := bits, Nil;
    ghost var lo, n := lo0, n0;
    LeastFitIs(t0, nb);
    NilSubtree(t0);
    while true
      invariant t.Node? && Candidate(v, rsize, nb) && rsize != 0 && (v.Node? ==> Subtree(v, t0))
      invariant Subtree(t, t0) && Subtree(rst, t0) && Ok(t, lo, n)
      invariant nb < INDEXED ==> OnPath(t, rst, nb, k, lo, n) && BestOf(v, t, rst, nb) == LeastFit(t0, nb)
      decreases t
    {
      ghost var v1, t1, rst1 := v, t, rst;
      SubtreeSizes(t, t0);
      v, rsize := Better(t, v, rsize, nb);
      if rsize == 0 {
        ExactFit(t0, t, nb);
        return;
      }
      var right := TopBit(k);
      var rt := t.r;
      t := if right then t.r else t.l;
      if rt.Node? && !right { rst := rt; }
      WalkDown(t0, t1, rst1, v1, nb, k, lo, n, t, rst);
      if t.Nil? {
        t := rst;
        return;
      }
      lo, n := if right then lo + n / 2 else lo, n / 2;
      k := Shift(k);
    }
  }

  /** Every size in the tree is at least `nb`. */
  ghost predicate NoneBelow(t: Trie, nb: nat) { forall x :: x in Sizes(t) ==> x >= nb }

  /** What going on to the subtree `u`, with `rst'` untaken, keeps. */
  lemma WalkDown(t0: Trie, t: Trie, rst: Trie, v: Trie, nb: nat, k: nat, lo: nat, n: nat, u: Trie, rst': Trie)
    requires t.Node? && Subtree(t, t0) && Subtree(rst, t0) && Ok(t, lo, n) && (v.Node? ==> v.size < INDEXED)
    requires forall x :: x in Sizes(t0) ==> x < INDEXED
    requires u == (if TopBit(k) then t.r else t.l) && rst' == if t.r.Node? && !TopBit(k) then t.r else rst
    ensures Subtree(u, t0) && Subtree(rst', t0) && Ok(u, if TopBit(k) then lo + n / 2 else lo, n / 2)
    ensures nb < INDEXED && OnPath(t, rst, nb, k, lo, n) ==>
      && BestOf(Updated(v, t, nb), u, rst', nb) == BestOf(v, t, rst, nb)
      && NoneBelow(rst', nb)
      && (u.Node? ==> OnPath(u, rst', nb, Shift(k), if TopBit(k) then lo + n / 2 else lo, n / 2))
  {
    SubtreeSizes(t, t0);
    SubtreeSizes(rst, t0);
    SubtreeKids(t, t0);
    if nb < INDEXED && OnPath(t, rst, nb, k, lo, n) { StepDown(t, rst, v, nb, k, lo, n); }
  }

  lemma StepDown(t: Trie, rst: Trie, v: Trie, nb: nat, k: nat, lo: nat, n: nat)
    requires t.Node? && Ok(t, lo, n) && OnPath(t, rst, nb, k, lo, n) && (v.Node? ==> v.size < INDEXED)
    requires forall x :: x in Sizes(t) || x in Sizes(rst) ==> x < INDEXED
    ensures var u := if TopBit(k) then t.r else t.l;
      var rst' := if t.r.Node? && !TopBit(k) then t.r else rst;
      && BestOf(Updated(v, t, nb), u, rst', nb) == BestOf(v, t, rst, nb)
      && NoneBelow(rst', nb)
      && (u.Node? ==> OnPath(u, rst', nb, Shift(k), if TopBit(k) then lo + n / 2 else lo, n / 2))
  {
    if n > 1 {
      PathOn(t, rst, nb, k, lo, n);
    }
    BestOn(t, rst, v, nb, TopBit(k));
  }

  lemma ExactFit(t0: Trie, t: Trie, nb: nat)
    requires t.Node? && t.size == nb < INDEXED && Sizes(t) <= Sizes(t0) && forall x :: x in Sizes(t0) ==> x < INDEXED
    ensures LeastFit(t0, nb) == nb
  {
    assert t.size in Sizes(t);
    LeastFitIs(t0, nb);
  }

  lemma {:induction false} SubtreeOk(t: Trie, t0: Trie, lo: nat, n: nat) returns (lo': nat, n': nat)
    requires Subtree(t, t0) && Ok(t0, lo, n)
    ensures Ok(t, lo', n')
    decreases t0
  {
    if t == t0 { lo', n' := lo, n; }
    else if Subtree(t, t0.l) { lo', n' := SubtreeOk(t, t0.l, lo, n / 2); }
    else { lo', n' := SubtreeOk(t, t0.r, lo + n / 2, n / 2); }
  }

  /** What the leftmost walk makes of the candidate is the best of both. */
  lemma LeastIsBest(v: Trie, t: Trie, t0: Trie, nb: nat, lo: nat, n: nat)
    requires Subtree(t, t0) && Ok(t0, lo, n) && (forall x :: x in Sizes(t) ==> nb <= x < INDEXED)
    requires v.Node? ==> v.size < INDEXED
    ensures Least(v, t) == BestOf(v, t, Nil, nb)
  {
    if t.Node? {
      var lo', n' := SubtreeOk(t, t0, lo, n);
      AllFit(t, nb, lo', n');
      MinOfIs(t, lo', n');
    }
  }

  /** The least marked index above `i`, or the number of trees. */
  method NextMark(marks: set<nat>, i: nat) returns (j: nat)
    ensures j > i
    ensures j < NTREEBINS ==> j in marks
    ensures forall k :: i < k < j && k < NTREEBINS ==> k !in marks
    ensures j >= NTREEBINS ==> forall k :: i < k < NTREEBINS ==> k !in marks
  {
    j := i + 1;
    while j < NTREEBINS && j !in marks
      invariant i < j && forall k :: i < k < j ==> k !in marks
    {
      j := j + 1;
    }
  }

  ghost predicate NothingFits(trees: seq<Trie>, nb: nat) {
    forall i, x :: 0 <= i < |trees| && x in Sizes(trees[i]) ==> x < nb
  }

  /** `v` is a node of tree `i`, large enough for `nb`, and no smaller chunk in any tree is. */
  ghost predicate BestFit(trees: seq<Trie>, v: Trie, nb: nat, i: nat) {
    && v.Node? && i < |trees| && Subtree(v, trees[i]) && v.size >= nb
    && forall j, x :: 0 <= j < |trees| && x in Sizes(trees[j]) && x >= nb ==> v.size <= x
  }

  /** A tree whose sizes lie below the bin of `nb` has nothing that fits. */
  lemma EarlierTrees(trees: seq<Trie>, marks: set<nat>, nb: nat, j: nat)
    requires TreesOk(trees, marks) && MIN_LARGE_SIZE <= nb < INDEXED && j < TreeIndex(nb)
    ensures j < |trees| && forall x :: x in Sizes(trees[j]) ==> x < nb
  {
    IndexInside(nb);
    BinSizes(trees[j], j);
    MinMonotone(j, TreeIndex(nb));
  }

  lemma LaterTrees(trees: seq<Trie>, marks: set<nat>, nb: nat, j: nat)
    requires TreesOk(trees, marks) && MIN_LARGE_SIZE <= nb < INDEXED && TreeIndex(nb) < j < NTREEBINS
    ensures forall x :: x in Sizes(trees[j]) ==> x > nb
  {
    IndexInside(nb);
    MinMonotone(TreeIndex(nb), j);
    assert BinOk(trees[j], j);
  }

  /** A best fit of the bin of `nb` is a best fit of all. */
  lemma BestHere(trees: seq<Trie>, marks: set<nat>, v: Trie, nb: nat)
    requires TreesOk(trees, marks) && MIN_LARGE_SIZE <= nb < INDEXED
    requires var i := TreeIndex(nb);
      i < NTREEBINS && v.Node? && Subtree(v, trees[i]) && v.size == LeastFit(trees[i], nb) && v.size < INDEXED
    ensures BestFit(trees, v, nb, TreeIndex(nb))
  {
    var i := TreeIndex(nb);
    assert BinOk(trees[i], i);
    LeastFitIs(trees[i], nb);
    forall j, x | 0 <= j < |trees| && x in Sizes(trees[j]) && x >= nb ensures v.size <= x {
      if j < i {
        EarlierTrees(trees, marks, nb, j);
      } else if j > i {
        TreesOrdered(trees, marks, i, j);
      }
    }
  }

  /** Nothing fits in the bin of `nb`: the smallest chunk of the next non-empty tree is the best fit. */
  lemma BestLater(trees: seq<Trie>, marks: set<nat>, v: Trie, nb: nat, i: nat)
    requires TreesOk(trees, marks) && MIN_LARGE_SIZE <= nb < INDEXED && TreeIndex(nb) < i < NTREEBINS
    requires LeastFit(trees[TreeIndex(nb)], nb) == WORD && forall k :: TreeIndex(nb) < k < i ==> k !in marks
    requires trees[i].Node? && v.Node? && Subtree(v, trees[i]) && v.size == MinOf(trees[i])
    ensures BestFit(trees, v, nb, i)
  {
    var h := TreeIndex(nb);
    assert BinOk(trees[i], i) && BinOk(trees[h], h);
    MinOfIs(trees[i], Low(i), Span(i));
    LeastFitIs(trees[h], nb);
    LaterTrees(trees, marks, nb, i);
    forall j: nat, x | j < |trees| && x in Sizes(trees[j]) && x >= nb ensures v.size <= x {
      LaterIsLarger(trees, marks, v, nb, i, j, x);
    }
  }

  lemma LaterIsLarger(trees: seq<Trie>, marks: set<nat>, v: Trie, nb: nat, i: nat, j: nat, x: nat)
    requires TreesOk(trees, marks) && MIN_LARGE_SIZE <= nb < INDEXED && TreeIndex(nb) < i < NTREEBINS
    requires LeastFit(trees[TreeIndex(nb)], nb) == WORD && forall k :: TreeIndex(nb) < k < i ==> k !in marks
    requires trees[i].Node? && v.Node? && v.size == MinOf(trees[i])
    requires j < NTREEBINS && x in Sizes(trees[j]) && x >= nb
    ensures v.size <= x
  {
    var h := TreeIndex(nb);
    assert BinOk(trees[i], i) && BinOk(trees[h], h) && BinOk(trees[j], j);
    MinOfIs(trees[i], Low(i), Span(i));
    if j < h {
      EarlierTrees(trees, marks, nb, j);
    } else if j == h {
      LeastFitIs(trees[h], nb);
    } else if j > i {
      TreesOrdered(trees, marks, i, j);
    }
  }

  lemma NothingLater(trees: seq<Trie>, marks: set<nat>, nb: nat)
    requires TreesOk(trees, marks) && MIN_LARGE_SIZE <= nb < INDEXED && TreeIndex(nb) < NTREEBINS
    requires LeastFit(trees[TreeIndex(nb)], nb) == WORD && forall k :: TreeIndex(nb) < k < NTREEBINS ==> k !in marks
    ensures NothingFits(trees, nb)
  {
    var h := TreeIndex(nb);
    assert BinOk(trees[h], h);
    LeastFitIs(trees[h], nb);
    forall j, x | 0 <= j < |trees| && x in Sizes(trees[j]) ensures x < nb {
      if j < h { EarlierTrees(trees, marks, nb, j); }
    }
  }

  lemma IndexBelow(s: nat)
    ensures TreeIndex(s) < NTREEBINS
  {
    var x := (s / 256) % 0x1_0000_0000;
    if 0 < x <= 0xFFFF {
      FlsIs(x);
      PowWord();
      if Fls(x) >= 16 { PowLess(16, Fls(x)); }
    }
  }

  /**
   Best fit: the smallest sufficient chunk of all trees, if there is any.  The remainders are computed in
   wrapping 64-bit arithmetic and the walk looks at one path and one subtree of a single tree only.
   */
  method FindLarge(trees: seq<Trie>, marks: set<nat>, nb: nat) returns (v: Trie, rsize: nat, ghost i: nat)
    requires TreesOk(trees, marks) && MIN_LARGE_SIZE <= nb < WORD
    ensures v.Node? ==> BestFit(trees, v, nb, i) && rsize == v.size - nb && v.size < INDEXED
    ensures v.Nil? ==> NothingFits(trees, nb)
  {
    IndexBelow(nb);
    var idx := TreeIndex(nb);
    var t := trees[idx];
    v, rsize, i := Nil, WORD - nb, idx;
    assert BinOk(t, idx);
    if t.Node? {
      SpanBinary(idx);
      if nb < INDEXED {
        IndexInside(nb);
        StartBits(nb, idx);
      }
      v, rsize, t := Walk(t, nb, SizeBits(nb, idx), Low(idx), Span(idx));
      SubtreeSizes(t, trees[idx]);
      if nb < INDEXED && rsize != 0 { LeastIsBest(v, t, trees[idx], nb, Low(idx), Span(idx)); }
    }
    ghost var here := t.Node? || v.Node?;
    if t.Nil? && v.Nil? {
      var j := NextMark(marks, idx);
      i := j;
      if j < NTREEBINS {
        t := trees[j];
        assert BinOk(t, j);
        if nb < INDEXED { LaterTrees(trees, marks, nb, j); }
      }
    }
    ghost var v1, rsize1 := v, rsize;
    v, rsize := Leftmost(t, v, rsize, nb);
    if nb >= INDEXED {
      ConcludeHuge(trees, marks, nb);
    } else if here {
      ConcludeHere(trees, marks, nb, t, v1, rsize1, v);
    } else {
      ConcludeLater(trees, marks, nb, t, v, i);
    }
  }

  lemma ConcludeHere(trees: seq<Trie>, marks: set<nat>, nb: nat, t: Trie, v1: Trie, rsize1: nat, v: Trie)
    requires TreesOk(trees, marks) && MIN_LARGE_SIZE <= nb < INDEXED && TreeIndex(nb) < NTREEBINS
        && (v1.Node? || t.Node?)
    requires Candidate(v1, rsize1, nb) && (v.Node? ==> v.size < INDEXED)
    requires if rsize1 == 0 then v == v1 else Least(v, Nil) == Least(v1, t)
    requires v == v1 || (v.Node? && Subtree(v, t))
    requires var t0 := trees[TreeIndex(nb)];
      && Subtree(t, t0) && (v1.Node? ==> Subtree(v1, t0)) && (t.Node? ==> MinOf(t) < WORD)
      && LeastFit(t0, nb) == if rsize1 == 0 then nb else Least(v1, t)
    ensures BestFit(trees, v, nb, TreeIndex(nb))
  {
    var t0 := trees[TreeIndex(nb)];
    if v != v1 { SubtreeTrans(v, t, t0); }
    BestHere(trees, marks, v, nb);
  }

  lemma ConcludeLater(trees: seq<Trie>, marks: set<nat>, nb: nat, t: Trie, v: Trie, i: nat)
    requires TreesOk(trees, marks) && MIN_LARGE_SIZE <= nb < INDEXED && TreeIndex(nb) < NTREEBINS && TreeIndex(nb) < i
    requires LeastFit(trees[TreeIndex(nb)], nb) == WORD
        && (forall k :: TreeIndex(nb) < k < i && k < NTREEBINS ==> k !in marks)
    requires t == (if i < NTREEBINS then trees[i] else Nil) && (i < NTREEBINS ==> i in marks)
    requires Least(v, Nil) == Least(Nil, t) && (v.Node? ==> v.size < INDEXED && Subtree(v, t))
    ensures v.Node? ==> BestFit(trees, v, nb, i)
    ensures v.Nil? ==> NothingFits(trees, nb)
  {
    if i < NTREEBINS {
      assert BinOk(t, i);
      MinOfIs(t, Low(i), Span(i));
      BestLater(trees, marks, v, nb, i);
    } else {
      NothingLater(trees, marks, nb);
    }
  }

  lemma ConcludeHuge(trees: seq<Trie>, marks: set<nat>, nb: nat)
    requires TreesOk(trees, marks) && nb >= INDEXED
    ensures NothingFits(trees, nb)
  {
    forall j, x | 0 <= j < |trees| && x in Sizes(trees[j]) ensures x < nb { assert BinOk(trees[j], j); }
  }

  lemma {:induction false} SubtreeTrans(a: Trie, b: Trie, c: Trie)
    requires Subtree(a, b) && Subtree(b, c)
    ensures Subtree(a, c)
  {
    if b != c {
      if Subtree(b, c.l) { SubtreeTrans(a, b, c.l); } else { SubtreeTrans(a, b, c.r); }
    }
  }

  lemma LeastMin(i: nat)
    ensures MinSize(i) >= MIN_LARGE_SIZE
  {
    PowWord();
    PowLess(7, i / 2 + 7);
  }

  /** The smallest chunk of all trees. */
  method FindSmallest(trees: seq<Trie>, marks: set<nat>, nb: nat) returns (v: Trie, rsize: nat, ghost i: nat)
    requires TreesOk(trees, marks) && marks != {} && 0 < nb <= MIN_LARGE_SIZE
    ensures BestFit(trees, v, nb, i) && rsize == v.size - nb && v.size < INDEXED
    ensures forall j, x :: 0 <= j < |trees| && x in Sizes(trees[j]) ==> v.size <= x
  {
    ghost var m :| m in marks;
    var j := 0;
    while j !in marks
      invariant j <= m && forall k :: 0 <= k < j ==> k !in marks
      decreases m - j
    {
      j := j + 1;
    }
    i := j;
    var t := trees[j];
    assert BinOk(t, j) && t.size in Sizes(t);
    LeastMin(j);
    v, rsize := t, t.size - nb;
    t := if t.l.Node? then t.l else t.r;
    SubtreeKids(trees[j], trees[j]);
    SubtreeSizes(t, trees[j]);
    v, rsize := Leftmost(t, v, rsize, nb);
    if v != trees[j] { SubtreeTrans(v, t, trees[j]); }
    SmallestIs(trees, marks, v, nb, j);
  }

  lemma SmallestIs(trees: seq<Trie>, marks: set<nat>, v: Trie, nb: nat, i: nat)
    requires TreesOk(trees, marks) && i in marks && (forall k :: 0 <= k < i ==> k !in marks) && v.Node?
        && nb <= MIN_LARGE_SIZE
    requires v.size == MinOf(trees[i]) || v.size == nb
    ensures forall j, x :: 0 <= j < |trees| && x in Sizes(trees[j]) ==> v.size <= x
  {
    assert BinOk(trees[i], i);
    MinOfIs(trees[i], Low(i), Span(i));
    forall j, x | 0 <= j < |trees| && x in Sizes(trees[j]) ensures v.size <= x {
      assert BinOk(trees[j], j);
      LeastMin(j);
      if i < j { TreesOrdered(trees, marks, i, j); }
    }
  }
}
