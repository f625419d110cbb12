/**
 LuaJIT's allocator, part 1: the trees of large free chunks.  A tree is a bitwise trie on chunk sizes;
 each node holds a ring of chunks of one size.
 */
module AllocTrie {
  import opened AllocChunk

  /** A node: the chunk in the tree, the other chunks of its size in ring order, and two subtrees. */
  datatype Trie = Nil | Node(size: nat, chunk: Addr, rest: seq<Addr>, l: Trie, r: Trie)

  datatype Chunk = Chunk(addr: Addr, size: nat)

  // ---------- 64-bit words ----------

  const WORD: nat := 0x1_0000_0000_0000_0000
  const HALF: nat := 0x8000_0000_0000_0000

  /** Shift a word left by one bit, losing its top bit. */
  function Shift(k: nat): nat { (k * 2) % WORD }
  predicate TopBit(k: nat) { k >= HALF }

  /** A power of two. */
  predicate Binary(n: nat) { n == 1 || (n > 1 && n % 2 == 0 && Binary(n / 2)) }

  /** Word `k` has at its upper end the bits of `d`, a value below `n`. */
  predicate Bits(k: nat, d: nat, n: nat) { d < n && k < WORD && k * n == d * WORD }

  /** The top bit tells in which half of the interval the value lies; shifting goes on to the next bit. */
  lemma NextBit(k: nat, d: nat, n: nat)
    requires Bits(k, d, n) && n > 1 && n % 2 == 0
    ensures TopBit(k) <==> d >= n / 2
    ensures Bits(Shift(k), if d >= n / 2 then d - n / 2 else d, n / 2)
  {
    var h := n / 2;
    assert k * n == 2 * (k * h) by { assert n == 2 * h; }
    assert k * h == d * HALF;
    if k >= HALF {
      Product(HALF, k, h);
      assert d >= h by { Product(d, h, HALF); }
      assert Shift(k) == 2 * k - WORD;
      assert (2 * k - WORD) * h == 2 * (k * h) - WORD * h;
      assert (d - h) * WORD == 2 * (d * HALF) - WORD * h;
    } else {
      Product(k, HALF, h);
      assert d < h by { Product(h, d, HALF); }
      assert (2 * k) * h == 2 * (k * h);
    }
  }

  lemma Product(a: nat, b: nat, c: nat)
    ensures a <= b ==> a * c <= b * c
    ensures a < b && c > 0 ==> a * c < b * c
  {
  }

  // ---------- the invariant ----------

  function Sizes(t: Trie): set<nat> { if t.Nil? then {} else {t.size} + Sizes(t.l) + Sizes(t.r) }

  /**
   All sizes lie among the `n` values from `lo` on, those of the left subtree in the lower half and those
   of the right one in the upper half; no size occurs in two nodes.
   */
  predicate Ok(t: Trie, lo: nat, n: nat)
    decreases t
  {
    t.Node? ==>
      && lo <= t.size < lo + n && (n == 1 ==> t.l.Nil? && t.r.Nil?)
      && Ok(t.l, lo, n / 2) && Ok(t.r, lo + n / 2, n / 2)
      && t.size !in Sizes(t.l) && t.size !in Sizes(t.r)
  }

  lemma {:induction false} SizesInside(t: Trie, lo: nat, n: nat)
    requires Ok(t, lo, n)
    ensures forall x :: x in Sizes(t) ==> lo <= x < lo + n
    decreases t
  {
    if t.Node? {
      SizesInside(t.l, lo, n / 2);
      SizesInside(t.r, lo + n / 2, n / 2);
    }
  }

  // ---------- insertion ----------

  /** Insert chunk `a` of size `s`; `k` holds the size bits still to be used. */
  function Inserted(t: Trie, a: Addr, s: nat, k: nat): Trie {
    if t.Nil? then Node(s, a, [], Nil, Nil)
    else if t.size == s then t.(rest := [a] + t.rest)
    else if TopBit(k) then t.(r := Inserted(t.r, a, s, Shift(k)))
    else t.(l := Inserted(t.l, a, s, Shift(k)))
  }

  /** Insertion keeps the trie; the bits never run out. */
  lemma {:induction false} InsertedOk(t: Trie, a: Addr, s: nat, k: nat, lo: nat, n: nat)
    requires Ok(t, lo, n) && Binary(n) && lo <= s < lo + n && Bits(k, s - lo, n)
    ensures Ok(Inserted(t, a, s, k), lo, n) && Sizes(Inserted(t, a, s, k)) == Sizes(t) + {s}
    decreases t
  {
    if t.Node? && t.size != s {
      NextBit(k, s - lo, n);
      if TopBit(k) {
        InsertedOk(t.r, a, s, Shift(k), lo + n / 2, n / 2);
      } else {
        InsertedOk(t.l, a, s, Shift(k), lo, n / 2);
      }
    }
  }

  // ---------- removal ----------

  function Drop(s: seq<Addr>, a: Addr): seq<Addr> {
    if s == [] then [] else if s[0] == a then s[1..] else [s[0]] + Drop(s[1..], a)
  }

  /** A leaf of `t`, found by going right where possible. */
  function SomeLeaf(t: Trie): (f: Trie)
    requires t.Node?
    ensures f.Node? && f.l.Nil? && f.r.Nil? && f.size in Sizes(t)
  {
    if t.r.Node? then SomeLeaf(t.r) else if t.l.Node? then SomeLeaf(t.l) else t
  }

  /** What is left of `t` without that leaf. */
  function WithoutLeaf(t: Trie): Trie
    requires t.Node?
  {
    if t.r.Node? then t.(r := WithoutLeaf(t.r)) else if t.l.Node? then t.(l := WithoutLeaf(t.l)) else Nil
  }

  lemma {:induction false} LeafOk(t: Trie, lo: nat, n: nat)
    requires Ok(t, lo, n) && t.Node?
    ensures Ok(WithoutLeaf(t), lo, n)
    ensures Sizes(WithoutLeaf(t)) == Sizes(t) - {SomeLeaf(t).size}
    decreases t
  {
    if t.r.Node? {
      LeafOk(t.r, lo + n / 2, n / 2);
      SizesInside(t.l, lo, n / 2);
      SizesInside(t.r, lo + n / 2, n / 2);
    } else if t.l.Node? {
      LeafOk(t.l, lo, n / 2);
    }
  }

  /** The tree without its root: a leaf takes the place of the root. */
  function WithoutRoot(t: Trie): Trie
    requires t.Node?
  {
    if t.r.Node? then var f := SomeLeaf(t.r); f.(l := t.l, r := WithoutLeaf(t.r))
    else if t.l.Node? then var f := SomeLeaf(t.l); f.(l := WithoutLeaf(t.l), r := Nil)
    else Nil
  }

  lemma WithoutRootOk(t: Trie, lo: nat, n: nat)
    requires Ok(t, lo, n) && t.Node?
    ensures Ok(WithoutRoot(t), lo, n) && Sizes(WithoutRoot(t)) == Sizes(t) - {t.size}
  {
    SizesInside(t.l, lo, n / 2);
    SizesInside(t.r, lo + n / 2, n / 2);
    if t.r.Node? {
      LeafOk(t.r, lo + n / 2, n / 2);
    } else if t.l.Node? {
      LeafOk(t.l, lo, n / 2);
    }
  }

  /** Unlink chunk `a` of size `s`. */
  function Unlinked(t: Trie, a: Addr, s: nat, k: nat): Trie {
    if t.Nil? then Nil
    else if t.size == s then UnlinkedHere(t, a)
    else if TopBit(k) then t.(r := Unlinked(t.r, a, s, Shift(k)))
    else t.(l := Unlinked(t.l, a, s, Shift(k)))
  }

  function UnlinkedHere(t: Trie, a: Addr): Trie
    requires t.Node?
  {
    if t.chunk != a then t.(rest := Drop(t.rest, a))
    else if t.rest != [] then t.(chunk := t.rest[|t.rest|-1], rest := t.rest[..|t.rest|-1])
    else WithoutRoot(t)
  }

  lemma UnlinkedHereOk(t: Trie, a: Addr, lo: nat, n: nat)
    requires Ok(t, lo, n) && t.Node?
    ensures Ok(UnlinkedHere(t, a), lo, n) && Sizes(UnlinkedHere(t, a)) <= Sizes(t)
  {
    WithoutRootOk(t, lo, n);
  }

  lemma {:induction false} UnlinkedOk(t: Trie, a: Addr, s: nat, k: nat, lo: nat, n: nat)
    requires Ok(t, lo, n) && Binary(n) && lo <= s < lo + n && Bits(k, s - lo, n)
    ensures Ok(Unlinked(t, a, s, k), lo, n) && Sizes(Unlinked(t, a, s, k)) <= Sizes(t)
    decreases t
  {
    if t.Node? {
      if t.size == s {
        UnlinkedHereOk(t, a, lo, n);
      } else {
        NextBit(k, s - lo, n);
        if TopBit(k) {
          UnlinkedOk(t.r, a, s, Shift(k), lo + n / 2, n / 2);
        } else {
          UnlinkedOk(t.l, a, s, Shift(k), lo, n / 2);
        }
      }
    }
  }

  // ---------- the stored chunks ----------

  function RingBag(ring: seq<Addr>, size: nat): multiset<Chunk> {
    if ring == [] then multiset{} else multiset{Chunk(ring[0], size)} + RingBag(ring[1..], size)
  }

  function NodeBag(t: Trie): multiset<Chunk>
    requires t.Node?
  {
    multiset{Chunk(t.chunk, t.size)} + RingBag(t.rest, t.size)
  }

  /** The chunks stored in a tree. */
  function Bag(t: Trie): multiset<Chunk> {
    if t.Nil? then multiset{} else NodeBag(t) + Bag(t.l) + Bag(t.r)
  }

  lemma {:induction false} RingBagIs(ring: seq<Addr>, size: nat, c: Chunk)
    ensures c in RingBag(ring, size) <==> c.size == size && c.addr in ring
  {
    if ring != [] { RingBagIs(ring[1..], size, c); }
  }

  lemma {:induction false} RingConcat(a: seq<Addr>, b: seq<Addr>, size: nat)
    ensures RingBag(a + b, size) == RingBag(a, size) + RingBag(b, size)
  {
    if a == [] {
      assert a + b == b;
    } else {
      assert (a + b)[1..] == a[1..] + b;
      RingConcat(a[1..], b, size);
    }
  }

  predicate InNode(t: Trie, c: Chunk)
    requires t.Node?
  {
    c.size == t.size && (c.addr == t.chunk || c.addr in t.rest)
  }

  /** Chunk `c` is stored in the tree. */
  predicate Has(t: Trie, c: Chunk) { t.Node? && (InNode(t, c) || Has(t.l, c) || Has(t.r, c)) }

  lemma {:induction false} HasBag(t: Trie, c: Chunk)
    ensures Has(t, c) <==> c in Bag(t)
  {
    if t.Node? {
      HasBag(t.l, c);
      HasBag(t.r, c);
      RingBagIs(t.rest, t.size, c);
    }
  }

  lemma {:induction false} HasSize(t: Trie, c: Chunk)
    requires Has(t, c)
    ensures c.size in Sizes(t)
  {
    if Has(t.l, c) { HasSize(t.l, c); } else if Has(t.r, c) { HasSize(t.r, c); }
  }

  lemma {:induction false} SizeHas(t: Trie, x: nat) returns (c: Chunk)
    requires x in Sizes(t)
    ensures Has(t, c) && c.size == x
  {
    if x == t.size { c := Chunk(t.chunk, x); }
    else if x in Sizes(t.l) { c := SizeHas(t.l, x); }
    else { c := SizeHas(t.r, x); }
  }

  lemma GrownLeft(t: Trie, l: Trie, b: multiset<Chunk>)
    requires t.Node? && Bag(l) == Bag(t.l) + b
    ensures Bag(t.(l := l)) == Bag(t) + b
  {
    assert NodeBag(t.(l := l)) == NodeBag(t);
  }

  lemma GrownRight(t: Trie, r: Trie, b: multiset<Chunk>)
    requires t.Node? && Bag(r) == Bag(t.r) + b
    ensures Bag(t.(r := r)) == Bag(t) + b
  {
    assert NodeBag(t.(r := r)) == NodeBag(t);
  }

  /** Insertion adds exactly the chunk. */
  lemma {:induction false} InsertedBag(t: Trie, a: Addr, s: nat, k: nat)
    ensures Bag(Inserted(t, a, s, k)) == Bag(t) + multiset{Chunk(a, s)}
  {
    if t.Nil? {
    } else if t.size == s {
      RingConcat([a], t.rest, s);
      assert RingBag([a], s) == multiset{Chunk(a, s)};
    } else if TopBit(k) {
      InsertedBag(t.r, a, s, Shift(k));
      GrownRight(t, Inserted(t.r, a, s, Shift(k)), multiset{Chunk(a, s)});
    } else {
      InsertedBag(t.l, a, s, Shift(k));
      GrownLeft(t, Inserted(t.l, a, s, Shift(k)), multiset{Chunk(a, s)});
    }
  }

  lemma {:induction false} DropBag(s: seq<Addr>, a: Addr, size: nat)
    requires a in s
    ensures RingBag(s, size) == RingBag(Drop(s, a), size) + multiset{Chunk(a, size)}
  {
    if s[0] != a {
      DropBag(s[1..], a, size);
      RingConcat([s[0]], Drop(s[1..], a), size);
      assert RingBag([s[0]], size) == multiset{Chunk(s[0], size)};
    }
  }

  lemma {:induction false} LeafBag(t: Trie)
    requires t.Node?
    ensures Bag(t) == Bag(WithoutLeaf(t)) + NodeBag(SomeLeaf(t))
  {
    if t.r.Node? {
      LeafBag(t.r);
    } else if t.l.Node? {
      LeafBag(t.l);
    }
  }

  lemma WithoutRootBag(t: Trie)
    requires t.Node?
    ensures Bag(t) == Bag(WithoutRoot(t)) + NodeBag(t)
  {
    if t.r.Node? {
      LeafBag(t.r);
    } else if t.l.Node? {
      LeafBag(t.l);
    }
  }

  lemma UnlinkedHereBag(t: Trie, a: Addr)
    requires t.Node? && InNode(t, Chunk(a, t.size))
    ensures Bag(t) == Bag(UnlinkedHere(t, a)) + multiset{Chunk(a, t.size)}
  {
    if t.chunk != a {
      DroppedBag(t, a);
    } else if t.rest != [] {
      LastMovesUp(t);
    } else {
      WithoutRootBag(t);
      OneChunk(t);
    }
  }

  lemma OneChunk(t: Trie)
    requires t.Node? && t.rest == []
    ensures NodeBag(t) == multiset{Chunk(t.chunk, t.size)}
  {
  }

  lemma DroppedBag(t: Trie, a: Addr)
    requires t.Node? && a in t.rest
    ensures Bag(t) == Bag(t.(rest := Drop(t.rest, a))) + multiset{Chunk(a, t.size)}
  {
    DropBag(t.rest, a, t.size);
    NodeShrunk(t, t.(rest := Drop(t.rest, a)), Chunk(a, t.size));
  }

  lemma LastMovesUp(t: Trie)
    requires t.Node? && t.rest != []
    ensures var m := |t.rest| - 1;
      Bag(t) == Bag(t.(chunk := t.rest[m], rest := t.rest[..m])) + multiset{Chunk(t.chunk, t.size)}
  {
    var m := |t.rest| - 1;
    LastBag(t.rest, t.size);
    NodeShrunk(t, t.(chunk := t.rest[m], rest := t.rest[..m]), Chunk(t.chunk, t.size));
  }

  lemma LastBag(s: seq<Addr>, size: nat)
    requires s != []
    ensures RingBag(s, size) == RingBag(s[..|s|-1], size) + multiset{Chunk(s[|s|-1], size)}
  {
    var m := |s| - 1;
    assert s == s[..m] + [s[m]];
    RingConcat(s[..m], [s[m]], size);
    assert RingBag([s[m]], size) == multiset{Chunk(s[m], size)};
  }

  lemma NodeShrunk(t: Trie, u: Trie, c: Chunk)
    requires t.Node? && u.Node? && u.l == t.l && u.r == t.r && NodeBag(t) == NodeBag(u) + multiset{c}
    ensures Bag(t) == Bag(u) + multiset{c}
  {
  }

  /** Following the bits `k` of its size leads to chunk `c`. */
  predicate Reached(t: Trie, c: Chunk, k: nat) {
    t.Node? &&
    if t.size == c.size then InNode(t, c)
    else if TopBit(k) then Reached(t.r, c, Shift(k))
    else Reached(t.l, c, Shift(k))
  }

  lemma {:induction false} StoredReached(t: Trie, c: Chunk, k: nat, lo: nat, n: nat)
    requires Ok(t, lo, n) && Binary(n) && lo <= c.size < lo + n && Bits(k, c.size - lo, n) && Has(t, c)
    ensures Reached(t, c, k)
    decreases t
  {
    WhichPart(t, c, lo, n);
    if t.size != c.size {
      NextBit(k, c.size - lo, n);
      if TopBit(k) {
        StoredReached(t.r, c, Shift(k), lo + n / 2, n / 2);
      } else {
        StoredReached(t.l, c, Shift(k), lo, n / 2);
      }
    }
  }

  lemma {:induction false} ReachedBag(t: Trie, a: Addr, s: nat, k: nat)
    requires Reached(t, Chunk(a, s), k)
    ensures Bag(t) == Bag(Unlinked(t, a, s, k)) + multiset{Chunk(a, s)}
  {
    if t.size == s {
      UnlinkedHereBag(t, a);
    } else if TopBit(k) {
      ReachedBag(t.r, a, s, Shift(k));
      ShrunkRight(t, Unlinked(t.r, a, s, Shift(k)), Chunk(a, s));
    } else {
      ReachedBag(t.l, a, s, Shift(k));
      ShrunkLeft(t, Unlinked(t.l, a, s, Shift(k)), Chunk(a, s));
    }
  }

  /** Unlinking a stored chunk takes away exactly that chunk. */
  lemma UnlinkedBag(t: Trie, a: Addr, s: nat, k: nat, lo: nat, n: nat)
    requires Ok(t, lo, n) && Binary(n) && lo <= s < lo + n && Bits(k, s - lo, n) && Chunk(a, s) in Bag(t)
    ensures Bag(t) == Bag(Unlinked(t, a, s, k)) + multiset{Chunk(a, s)}
  {
    HasBag(t, Chunk(a, s));
    StoredReached(t, Chunk(a, s), k, lo, n);
    ReachedBag(t, a, s, k);
  }

  lemma ShrunkLeft(t: Trie, l: Trie, c: Chunk)
    requires t.Node? && Bag(t.l) == Bag(l) + multiset{c}
    ensures Bag(t) == Bag(t.(l := l)) + multiset{c}
  {
    assert NodeBag(t.(l := l)) == NodeBag(t);
  }

  lemma ShrunkRight(t: Trie, r: Trie, c: Chunk)
    requires t.Node? && Bag(t.r) == Bag(r) + multiset{c}
    ensures Bag(t) == Bag(t.(r := r)) + multiset{c}
  {
    assert NodeBag(t.(r := r)) == NodeBag(t);
  }

  /** A stored chunk is where its size says. */
  lemma WhichPart(t: Trie, c: Chunk, lo: nat, n: nat)
    requires Ok(t, lo, n) && Has(t, c)
    ensures if c.size == t.size then InNode(t, c) else n != 1 && if c.size >= lo + n / 2 then Has(t.r, c)
        else Has(t.l, c)
  {
    if Has(t.l, c) {
      HasSize(t.l, c);
      SizesInside(t.l, lo, n / 2);
    }
    if Has(t.r, c) {
      HasSize(t.r, c);
      SizesInside(t.r, lo + n / 2, n / 2);
    }
  }
}
