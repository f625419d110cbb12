/**
 LuaJIT's allocator, part 4: the bins as one store of free chunks.
 */
module AllocStore {
  import opened AllocChunk
  import opened AllocTrie
  import opened AllocBins
  import T = AllocTiles

  const NSMALLBINS: nat := 32

  predicate IsSmall(s: nat) { s / 8 < NSMALLBINS }

  function InTrees(trees: seq<Trie>, c: Chunk): nat {
    if trees == [] then 0 else Bag(trees[0])[c] + InTrees(trees[1..], c)
  }

  function InSmall(small: seq<seq<Addr>>, c: Chunk): nat
    requires |small| == NSMALLBINS
  {
    if IsSmall(c.size) && c.size % 8 == 0 then multiset(small[c.size / 8])[c.addr] else 0
  }

  /** How often chunk `c` is stored in all bins together. */
  function Count(small: seq<seq<Addr>>, trees: seq<Trie>, c: Chunk): nat
    requires |small| == NSMALLBINS
  {
    InSmall(small, c) + InTrees(trees, c)
  }

  lemma {:induction false} InTreesUpdate(trees: seq<Trie>, i: nat, t: Trie, c: Chunk)
    requires i < |trees|
    ensures InTrees(trees[i := t], c) + Bag(trees[i])[c] == InTrees(trees, c) + Bag(t)[c]
  {
    if i == 0 {
      assert trees[i := t][1..] == trees[1..];
    } else {
      assert trees[i := t][1..] == trees[1..][i-1 := t];
      InTreesUpdate(trees[1..], i - 1, t, c);
    }
  }

  lemma {:induction false} InTreesAt(trees: seq<Trie>, c: Chunk) returns (i: nat)
    requires InTrees(trees, c) > 0
    ensures i < |trees| && c in Bag(trees[i])
  {
    if c in Bag(trees[0]) {
      i := 0;
    } else {
      var j := InTreesAt(trees[1..], c);
      i := j + 1;
    }
  }

  lemma {:induction false} AtInTrees(trees: seq<Trie>, c: Chunk, i: nat)
    requires i < |trees| && c in Bag(trees[i])
    ensures InTrees(trees, c) > 0
  {
    if i > 0 {
      assert trees[1..][i-1] == trees[i];
      AtInTrees(trees[1..], c, i - 1);
    }
  }

  ghost predicate SmallOk(small: seq<seq<Addr>>, marks: set<nat>) {
    && |small| == NSMALLBINS
    && (forall i :: 0 <= i < NSMALLBINS ==> (i in marks <==> small[i] != []))
    && (forall i :: i in marks ==> i < NSMALLBINS)
  }

  ghost predicate BinsOk(small: seq<seq<Addr>>, smallmap: set<nat>, trees: seq<Trie>, treemap: set<nat>) {
    SmallOk(small, smallmap) && TreesOk(trees, treemap)
  }

  /** One chunk more, or one less. */
  ghost predicate Added(small: seq<seq<Addr>>, trees: seq<Trie>, small': seq<seq<Addr>>, trees': seq<Trie>, c: Chunk)
    requires |small| == |small'| == NSMALLBINS && |trees| == |trees'| == NTREEBINS
  {
    forall x :: Count(small', trees', x) == Count(small, trees, x) + if x == c then 1 else 0
  }

  // ---------- small chunks ----------

  lemma AddSmall(small: seq<seq<Addr>>, trees: seq<Trie>, i: nat, p: Addr, l: seq<Addr>)
    requires |small| == NSMALLBINS && |trees| == NTREEBINS && i < NSMALLBINS
    requires multiset(l) == multiset(small[i]) + multiset{p}
    ensures Added(small, trees, small[i := l], trees, Chunk(p, 8 * i))
  {
    forall x ensures InSmall(small[i := l], x) == InSmall(small, x) + if x == Chunk(p, 8 * i) then 1 else 0 {
      if IsSmall(x.size) && x.size % 8 == 0 { assert x.size == 8 * (x.size / 8); }
    }
  }

  lemma RemoveSmall(small: seq<seq<Addr>>, trees: seq<Trie>, i: nat, p: Addr, l: seq<Addr>)
    requires |small| == NSMALLBINS && |trees| == NTREEBINS && i < NSMALLBINS
    requires multiset(small[i]) == multiset(l) + multiset{p}
    ensures Added(small[i := l], trees, small, trees, Chunk(p, 8 * i))
  {
    AddSmall(small[i := l], trees, i, p, small[i]);
    assert small[i := l][i := small[i]] == small;
  }

  lemma {:induction false} DropOnce(s: seq<Addr>, a: Addr)
    requires a in s
    ensures multiset(s) == multiset(Drop(s, a)) + multiset{a} && |Drop(s, a)| == |s| - 1
  {
    assert s == [s[0]] + s[1..];
    if s[0] != a { DropOnce(s[1..], a); }
  }

  // ---------- large chunks ----------

  /** The tree of a size is the only one whose sizes include it. */
  lemma IndexUnique(s: nat, i: nat)
    requires MIN_LARGE_SIZE <= s < INDEXED && i < NTREEBINS && MinSize(i) <= s
        && (i < NTREEBINS - 1 ==> s < MinSize(i) + Width(i))
    ensures TreeIndex(s) == i
  {
    IndexInside(s);
    if TreeIndex(s) < i {
      MinMonotone(TreeIndex(s), i);
    } else if TreeIndex(s) > i {
      MinMonotone(i, TreeIndex(s));
    }
  }

  lemma InSpan(s: nat)
    requires MIN_LARGE_SIZE <= s < INDEXED
    ensures var i := TreeIndex(s);
      && i < NTREEBINS && Binary(Span(i)) && Low(i) <= s < Low(i) + Span(i) && MinSize(i) <= s
      && Bits(SizeBits(s, i), s - Low(i), Span(i))
  {
    IndexInside(s);
    SpanBinary(TreeIndex(s));
    StartBits(s, TreeIndex(s));
  }

  lemma BinKept(trees: seq<Trie>, treemap: set<nat>, i: nat, t: Trie, marks: set<nat>)
    requires TreesOk(trees, treemap) && i < NTREEBINS && BinOk(t, i) && marks == if t.Node? then treemap + {i}
        else treemap - {i}
    ensures TreesOk(trees[i := t], marks)
  {
    var trees' := trees[i := t];
    forall j | 0 <= j < NTREEBINS ensures BinOk(trees'[j], j) { assert BinOk(trees[j], j); }
  }

  function WithLarge(trees: seq<Trie>, p: Addr, s: nat): Trie
    requires |trees| == NTREEBINS
  {
    IndexBelow(s);
    Inserted(trees[TreeIndex(s)], p, s, SizeBits(s, TreeIndex(s)))
  }

  function WithoutLarge(trees: seq<Trie>, p: Addr, s: nat): Trie
    requires |trees| == NTREEBINS
  {
    IndexBelow(s);
    Unlinked(trees[TreeIndex(s)], p, s, SizeBits(s, TreeIndex(s)))
  }

  lemma WithLargeOk(trees: seq<Trie>, treemap: set<nat>, p: Addr, s: nat, i: nat)
    requires TreesOk(trees, treemap) && MIN_LARGE_SIZE <= s < INDEXED && i == TreeIndex(s)
    ensures i < NTREEBINS && BinOk(WithLarge(trees, p, s), i) && WithLarge(trees, p, s).Node?
    ensures Bag(WithLarge(trees, p, s)) == Bag(trees[i]) + multiset{Chunk(p, s)}
  {
    InSpan(s);
    assert BinOk(trees[i], i);
    BinInserted(trees[i], i, p, s, SizeBits(s, i));
  }

  lemma WithoutLargeOk(trees: seq<Trie>, treemap: set<nat>, p: Addr, s: nat, i: nat)
    requires TreesOk(trees, treemap) && MIN_LARGE_SIZE <= s < INDEXED && i == TreeIndex(s)
    requires i < NTREEBINS && Chunk(p, s) in Bag(trees[i])
    ensures BinOk(WithoutLarge(trees, p, s), i) && trees[i].Node?
    ensures Bag(trees[i]) == Bag(WithoutLarge(trees, p, s)) + multiset{Chunk(p, s)}
  {
    InSpan(s);
    assert BinOk(trees[i], i);
    BinUnlinked(trees[i], i, p, s, SizeBits(s, i));
  }

  lemma AddLarge(small: seq<seq<Addr>>, trees: seq<Trie>, treemap: set<nat>, p: Addr, s: nat, i: nat, t: Trie)
    requires |small| == NSMALLBINS && TreesOk(trees, treemap) && MIN_LARGE_SIZE <= s < INDEXED
    requires i == TreeIndex(s) && t == WithLarge(trees, p, s)
    ensures i < NTREEBINS && TreesOk(trees[i := t], treemap + {i})
        && Added(small, trees, small, trees[i := t], Chunk(p, s))
  {
    WithLargeOk(trees, treemap, p, s, i);
    BinKept(trees, treemap, i, t, treemap + {i});
    TreeChanged(small, trees, i, t, Chunk(p, s));
  }

  lemma BinInserted(t: Trie, i: nat, p: Addr, s: nat, k: nat)
    requires i < NTREEBINS && BinOk(t, i) && Binary(Span(i)) && Low(i) <= s < Low(i) + Span(i)
        && MinSize(i) <= s < INDEXED
    requires Bits(k, s - Low(i), Span(i))
    ensures BinOk(Inserted(t, p, s, k), i) && Bag(Inserted(t, p, s, k)) == Bag(t) + multiset{Chunk(p, s)}
    ensures Inserted(t, p, s, k).Node?
  {
    InsertedOk(t, p, s, k, Low(i), Span(i));
    InsertedBag(t, p, s, k);
  }

  lemma BinUnlinked(t: Trie, i: nat, p: Addr, s: nat, k: nat)
    requires i < NTREEBINS && BinOk(t, i) && Binary(Span(i)) && Low(i) <= s < Low(i) + Span(i)
    requires Bits(k, s - Low(i), Span(i)) && Chunk(p, s) in Bag(t)
    ensures BinOk(Unlinked(t, p, s, k), i) && Bag(t) == Bag(Unlinked(t, p, s, k)) + multiset{Chunk(p, s)} && t.Node?
  {
    UnlinkedOk(t, p, s, k, Low(i), Span(i));
    UnlinkedBag(t, p, s, k, Low(i), Span(i));
  }

  /** A chunk more in a tree is a chunk more in the store. */
  lemma TreeChanged(small: seq<seq<Addr>>, trees: seq<Trie>, i: nat, t: Trie, c: Chunk)
    requires |small| == NSMALLBINS && |trees| == NTREEBINS && i < NTREEBINS && Bag(t) == Bag(trees[i]) + multiset{c}
    ensures Added(small, trees, small, trees[i := t], c)
  {
    forall x ensures Count(small, trees[i := t], x) == Count(small, trees, x) + if x == c then 1 else 0 {
      InTreesUpdate(trees, i, t, x);
    }
  }

  lemma TreeShrunk(small: seq<seq<Addr>>, trees: seq<Trie>, i: nat, t: Trie, c: Chunk)
    requires |small| == NSMALLBINS && |trees| == NTREEBINS && i < NTREEBINS && Bag(trees[i]) == Bag(t) + multiset{c}
    ensures Added(small, trees[i := t], small, trees, c)
  {
    TreeChanged(small, trees[i := t], i, trees[i], c);
    assert trees[i := t][i := trees[i]] == trees;
  }

  lemma BinLess(trees: seq<Trie>, treemap: set<nat>, i: nat, t: Trie)
    requires TreesOk(trees, treemap) && i < NTREEBINS && BinOk(t, i) && trees[i].Node?
    ensures TreesOk(trees[i := t], if t.Node? then treemap else treemap - {i})
  {
    assert (if t.Node? then treemap + {i} else treemap - {i}) == if t.Node? then treemap else treemap - {i};
    BinKept(trees, treemap, i, t, if t.Node? then treemap else treemap - {i});
  }

  lemma RemoveLarge(small: seq<seq<Addr>>, trees: seq<Trie>, treemap: set<nat>, p: Addr, s: nat, i: nat, t: Trie)
    requires |small| == NSMALLBINS && TreesOk(trees, treemap) && MIN_LARGE_SIZE <= s < INDEXED
        && Count(small, trees, Chunk(p, s)) > 0
    requires i == TreeIndex(s) && t == WithoutLarge(trees, p, s)
    ensures i < NTREEBINS && TreesOk(trees[i := t], if t.Node? then treemap else treemap - {i})
    ensures Added(small, trees[i := t], small, trees, Chunk(p, s))
  {
    StoredNode(small, trees, treemap, Chunk(p, s));
    WithoutLargeOk(trees, treemap, p, s, i);
    BinLess(trees, treemap, i, t);
    TreeShrunk(small, trees, i, t, Chunk(p, s));
  }

  /** A node of tree `i` is stored, and has a large size. */
  lemma NodeStored(small: seq<seq<Addr>>, trees: seq<Trie>, treemap: set<nat>, i: nat, c: Chunk)
    requires |small| == NSMALLBINS && TreesOk(trees, treemap) && i < NTREEBINS && Has(trees[i], c)
    ensures Count(small, trees, c) > 0 && MIN_LARGE_SIZE <= c.size < INDEXED && TreeIndex(c.size) == i
  {
    assert BinOk(trees[i], i);
    HasSize(trees[i], c);
    HasBag(trees[i], c);
    AtInTrees(trees, c, i);
    BinSizes(trees[i], i);
    LeastMin(i);
    IndexUnique(c.size, i);
  }

  /** A stored large chunk is in the tree of its size. */
  lemma StoredNode(small: seq<seq<Addr>>, trees: seq<Trie>, treemap: set<nat>, c: Chunk)
    requires |small| == NSMALLBINS && TreesOk(trees, treemap) && !IsSmall(c.size) && Count(small, trees, c) > 0
    ensures var i := TreeIndex(c.size); i < NTREEBINS && c in Bag(trees[i]) && c.size in Sizes(trees[i]) && i in treemap
  {
    var i := InTreesAt(trees, c);
    HasBag(trees[i], c);
    HasSize(trees[i], c);
    NodeStored(small, trees, treemap, i, c);
  }

  // ---------- the store and the heap ----------

  /** `c` is a free chunk of the heap other than the top chunk. */
  predicate FreeAt(h: T.Heads, starts: set<Addr>, top: Addr, c: Chunk) {
    c.addr in starts && !T.InUse(h, c.addr) && c.addr != top && T.SizeAt(h, c.addr) == c.size
  }

  /** The store holds each free chunk once, except those in `xs`. */
  ghost predicate Stored(small: seq<seq<Addr>>, trees: seq<Trie>, h: T.Heads, starts: set<Addr>, top: Addr,
      xs: set<Addr>)
    requires |small| == NSMALLBINS && |trees| == NTREEBINS
  {
    forall c :: Count(small, trees, c) == if FreeAt(h, starts, top, c) && c.addr !in xs then 1 else 0
  }

  /** The same free chunks outside of the exceptions: the store still fits. */
  lemma StillStored(small: seq<seq<Addr>>, trees: seq<Trie>, h: T.Heads, starts: set<Addr>, top: Addr, xs: set<Addr>,
                    h': T.Heads, starts': set<Addr>, top': Addr, xs': set<Addr>)
    requires |small| == NSMALLBINS && |trees| == NTREEBINS && Stored(small, trees, h, starts, top, xs)
    requires forall c: Chunk {:trigger FreeAt(h', starts', top', c)} ::
      (FreeAt(h, starts, top, c) && c.addr !in xs) <==> (FreeAt(h', starts', top', c) && c.addr !in xs')
    ensures Stored(small, trees, h', starts', top', xs')
  {
  }

  lemma StoredMore(small: seq<seq<Addr>>, trees: seq<Trie>, small': seq<seq<Addr>>, trees': seq<Trie>,
                   h: T.Heads, starts: set<Addr>, top: Addr, xs: set<Addr>, c: Chunk)
    requires |small| == |small'| == NSMALLBINS && |trees| == |trees'| == NTREEBINS
    requires Stored(small, trees, h, starts, top, xs) && Added(small, trees, small', trees', c)
    requires FreeAt(h, starts, top, c) && c.addr in xs
    ensures Stored(small', trees', h, starts, top, xs - {c.addr})
  {
  }

  lemma StoredLess(small: seq<seq<Addr>>, trees: seq<Trie>, small': seq<seq<Addr>>, trees': seq<Trie>,
                   h: T.Heads, starts: set<Addr>, top: Addr, xs: set<Addr>, c: Chunk)
    requires |small| == |small'| == NSMALLBINS && |trees| == |trees'| == NTREEBINS
    requires Stored(small, trees, h, starts, top, xs) && Added(small', trees', small, trees, c)
    requires FreeAt(h, starts, top, c) && c.addr !in xs
    ensures Stored(small', trees', h, starts, top, xs + {c.addr})
  {
  }
}
