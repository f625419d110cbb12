/**
 LuaJIT's allocator, part 3: chunks that tile a segment, with boundary tags.
 */
module AllocTiles {
  import opened AllocChunk

  /** The head word of a chunk: its size, and whether it and its predecessor are in use. */
  datatype Head = Head(size: nat, cinuse: bool, pinuse: bool)

  type Heads = map<Addr, Head>

  function SizeAt(h: Heads, a: Addr): nat { if a in h then h[a].size else 0 }
  predicate InUse(h: Heads, a: Addr) { a in h && h[a].cinuse }
  predicate PrevInUse(h: Heads, a: Addr) { a in h && h[a].pinuse }
  function Foot(f: map<Addr, nat>, a: Addr): nat { if a in f then f[a] else 0 }

  /** One chunk of the segment from `base` to `end`, whose last chunk is `top`. */
  predicate ChunkOk(h: Heads, starts: set<Addr>, a: Addr, base: Addr, top: Addr) {
    && base <= a <= top && SizeAt(h, a) > 0
    && (a != top ==> SizeAt(h, a) >= MIN_CHUNK_SIZE && a + SizeAt(h, a) in starts)
  }

  /** The chunks at `starts` tile the segment: each ends where another begins, and none overlap. */
  ghost predicate Tiled(h: Heads, starts: set<Addr>, base: Addr, top: Addr, end: Addr) {
    && base in starts && top in starts && top + SizeAt(h, top) == end
    && (forall a {:trigger ChunkOk(h, starts, a, base, top)} :: a in starts ==> ChunkOk(h, starts, a, base, top))
    && (forall a, b {:trigger Apart(h, a, b)} :: a in starts && b in starts ==> Apart(h, a, b))
  }

  /** Chunks begin and end at multiples of the alignment. */
  ghost predicate Even(h: Heads, starts: set<Addr>) {
    forall a {:trigger EvenAt(h, a)} :: a in starts ==> EvenAt(h, a)
  }

  predicate EvenAt(h: Heads, a: Addr) { a % 8 == 0 && SizeAt(h, a) % 8 == 0 }

  predicate Apart(h: Heads, a: Addr, b: Addr) { a < b ==> a + SizeAt(h, a) <= b }

  /** The tags of one chunk: the next chunk knows whether it is in use, and finds its size if it is free. */
  predicate TagsOk(h: Heads, f: map<Addr, nat>, a: Addr, top: Addr) {
    && (!InUse(h, a) ==> PrevInUse(h, a))
    && (a != top ==> PrevInUse(h, a + SizeAt(h, a)) == InUse(h, a))
    && (a != top && !InUse(h, a) ==> Foot(f, a + SizeAt(h, a)) == SizeAt(h, a))
  }

  ghost predicate Tagged(h: Heads, f: map<Addr, nat>, starts: set<Addr>, base: Addr, top: Addr) {
    && PrevInUse(h, base) && !InUse(h, top)
    && forall a {:trigger TagsOk(h, f, a, top)} :: a in starts ==> TagsOk(h, f, a, top)
  }

  ghost predicate HeapOk(h: Heads, f: map<Addr, nat>, starts: set<Addr>, base: Addr, top: Addr, end: Addr) {
    Tiled(h, starts, base, top, end) && Even(h, starts) && Tagged(h, f, starts, base, top)
  }

  // ---------- what follows ----------

  /** No two neighbours are both free. */
  lemma NeverBothFree(h: Heads, f: map<Addr, nat>, starts: set<Addr>, base: Addr, top: Addr, end: Addr, a: Addr)
    requires HeapOk(h, f, starts, base, top, end) && a in starts && a != top
    ensures a + SizeAt(h, a) in starts && (InUse(h, a) || InUse(h, a + SizeAt(h, a)))
  {
    assert ChunkOk(h, starts, a, base, top);
    assert TagsOk(h, f, a, top) && TagsOk(h, f, a + SizeAt(h, a), top);
  }

  /** The chunk before `a`. */
  lemma Previous(h: Heads, starts: set<Addr>, base: Addr, top: Addr, end: Addr, a: Addr) returns (p: Addr)
    requires Tiled(h, starts, base, top, end) && a in starts && a != base
    ensures p in starts && p < a && p + SizeAt(h, p) == a && p != top
  {
    assert ChunkOk(h, starts, a, base, top);
    p := base;
    while p + SizeAt(h, p) != a
      invariant p in starts && p < a
      decreases a - p
    {
      assert ChunkOk(h, starts, p, base, top) && Apart(h, p, a);
      p := p + SizeAt(h, p);
    }
    assert ChunkOk(h, starts, p, base, top);
  }

  /** Every address of the segment lies in exactly one chunk. */
  lemma Covered(h: Heads, starts: set<Addr>, base: Addr, top: Addr, end: Addr, x: Addr) returns (a: Addr)
    requires Tiled(h, starts, base, top, end) && base <= x < end
    ensures a in starts && a <= x < a + SizeAt(h, a)
    ensures forall b :: b in starts && b <= x < b + SizeAt(h, b) ==> b == a
  {
    a := base;
    while x >= a + SizeAt(h, a)
      invariant a in starts && a <= x
      decreases x - a
    {
      assert ChunkOk(h, starts, a, base, top);
      a := a + SizeAt(h, a);
    }
    forall b | b in starts && b <= x < b + SizeAt(h, b) ensures b == a {
      assert Apart(h, a, b) && Apart(h, b, a);
    }
  }

  /** A free predecessor is found through the footer. */
  lemma BackwardLink(h: Heads, f: map<Addr, nat>, starts: set<Addr>, base: Addr, top: Addr, end: Addr, p: Addr)
    requires HeapOk(h, f, starts, base, top, end) && p in starts && !PrevInUse(h, p)
    ensures var s := Foot(f, p);
      s <= p && p - s in starts && SizeAt(h, p - s) == s && !InUse(h, p - s) && p - s != top && s > 0 && InUse(h, p)
  {
    assert p != base;
    var q := Previous(h, starts, base, top, end, p);
    assert TagsOk(h, f, q, top) && TagsOk(h, f, p, top);
    assert ChunkOk(h, starts, q, base, top);
  }

  // ---------- using a free chunk ----------

  /** Set the bit of the chunk at `a` that says whether its predecessor is in use. */
  function SetPrev(h: Heads, a: Addr, b: bool): Heads { if a in h then h[a := h[a].(pinuse := b)] else h }

  lemma SetPrevIs(h: Heads, a: Addr, b: bool)
    ensures var h' := SetPrev(h, a, b);
      && (forall c :: SizeAt(h', c) == SizeAt(h, c) && InUse(h', c) == InUse(h, c))
      && (forall c :: c != a ==> PrevInUse(h', c) == PrevInUse(h, c))
      && (a in h ==> PrevInUse(h', a) == b)
  {
  }

  /** A chunk turns into a used one of size `s`, and the next chunk is told. */
  function Used(h: Heads, p: Addr, s: nat): Heads { SetPrev(h[p := Head(s, true, true)], p + s, true) }

  /** `h'` is `h` except that the chunks in `put` have new heads and the bit of `nx` is `b`. */
  ghost predicate Rewritten(h: Heads, h': Heads, put: map<Addr, Head>, nx: Addr, b: bool) {
    && (forall a :: a in put ==>
        SizeAt(h', a) == put[a].size && InUse(h', a) == put[a].cinuse && PrevInUse(h', a) == put[a].pinuse)
    && (forall a :: a !in put ==> SizeAt(h', a) == SizeAt(h, a) && InUse(h', a) == InUse(h, a))
    && (forall a :: a !in put && a != nx ==> PrevInUse(h', a) == PrevInUse(h, a))
    && (nx !in put ==> PrevInUse(h', nx) == b)
  }

  lemma UsedIs(h: Heads, p: Addr, s: nat)
    requires p + s in h && s > 0
    ensures Rewritten(h, Used(h, p, s), map[p := Head(s, true, true)], p + s, true)
  {
    SetPrevIs(h[p := Head(s, true, true)], p + s, true);
  }

  /** A free chunk is taken as a whole. */
  lemma UseAll(h: Heads, h': Heads, f: map<Addr, nat>, starts: set<Addr>, base: Addr, top: Addr, end: Addr, p: Addr)
    requires HeapOk(h, f, starts, base, top, end) && p in starts && p != top && !InUse(h, p)
    requires Rewritten(h, h', map[p := Head(SizeAt(h, p), true, true)], p + SizeAt(h, p), true)
    ensures HeapOk(h', f, starts, base, top, end)
  {
    var s := SizeAt(h, p);
    assert ChunkOk(h, starts, p, base, top) && TagsOk(h, f, p, top);
    assert forall a :: SizeAt(h', a) == SizeAt(h, a);
    forall a | a in starts ensures ChunkOk(h', starts, a, base, top) && TagsOk(h', f, a, top) {
      assert ChunkOk(h, starts, a, base, top) && TagsOk(h, f, a, top);
      assert Apart(h, a, p) && Apart(h, p, a);
    }
    forall a, b | a in starts && b in starts ensures Apart(h', a, b) { assert Apart(h, a, b); }
    SameEven(h, h', starts, starts);
  }

  /** Chunks that keep their size stay aligned. */
  lemma SameEven(h: Heads, h': Heads, starts: set<Addr>, starts': set<Addr>)
    requires Even(h, starts) && forall a ::
        a in starts' && (a !in starts || SizeAt(h', a) != SizeAt(h, a)) ==> EvenAt(h', a)
    ensures Even(h', starts')
  {
    forall a | a in starts' ensures EvenAt(h', a) { if a in starts { assert EvenAt(h, a); } }
  }

  // ---------- splitting a chunk ----------

  ghost predicate FootOnly(f: map<Addr, nat>, f': map<Addr, nat>, at: Addr, s: nat) {
    Foot(f', at) == s && forall a :: a != at ==> Foot(f', a) == Foot(f, a)
  }

  /** In `h'` chunk `p` has size `nb` and is in use, and is followed by a chunk of size `rest`. */
  ghost predicate InParts(h: Heads, h': Heads, p: Addr, nb: nat, prev: bool, rest: nat, used: bool) {
    && SizeAt(h', p) == nb && InUse(h', p) && PrevInUse(h', p) == prev
    && SizeAt(h', p + nb) == rest && InUse(h', p + nb) == used && PrevInUse(h', p + nb)
    && (forall a :: a != p && a != p + nb ==> SizeAt(h', a) == SizeAt(h, a) && InUse(h', a) == InUse(h, a))
    && (forall a :: a != p && a != p + nb && a != p + nb + rest ==> PrevInUse(h', a) == PrevInUse(h, a))
  }

  /** Chunk `p` is split: `nb` bytes are in use, and the rest is free or in use as `p` was. */
  lemma Split(h: Heads, h': Heads, f: map<Addr, nat>, f': map<Addr, nat>, starts: set<Addr>, base: Addr, top: Addr,
      end: Addr, p: Addr, nb: nat, s: nat)
    requires HeapOk(h, f, starts, base, top, end) && p in starts && p != top && s == SizeAt(h, p)
    requires nb % 8 == 0 && nb >= MIN_CHUNK_SIZE && s >= nb + MIN_CHUNK_SIZE
    requires InParts(h, h', p, nb, PrevInUse(h, p), s - nb, InUse(h, p)) && PrevInUse(h', p + s) == InUse(h, p)
    requires if InUse(h, p) then f' == f else FootOnly(f, f', p + s, s - nb)
    ensures HeapOk(h', f', starts + {p + nb}, base, top, end)
  {
    SplitTiled(h, h', starts, base, top, end, p, nb, s);
    var r, starts' := p + nb, starts + {p + nb};
    assert EvenAt(h', p) && EvenAt(h', r) by { assert EvenAt(h, p); }
    SameEven(h, h', starts, starts');
    assert ChunkOk(h, starts, p, base, top) && TagsOk(h, f, p, top) && Apart(h, p, top) && Apart(h, p, base);
    forall a | a in starts' ensures TagsOk(h', f', a, top) {
      if a != r && a != p {
        assert ChunkOk(h, starts, a, base, top) && TagsOk(h, f, a, top);
        assert Apart(h, a, p) && Apart(h, p, a);
        if a != top { assert Apart(h, p, a + SizeAt(h, a)) && Apart(h, a, p + s); }
      }
    }
  }

  lemma SplitTiled(h: Heads, h': Heads, starts: set<Addr>, base: Addr, top: Addr, end: Addr, p: Addr, nb: nat, s: nat)
    requires Tiled(h, starts, base, top, end) && p in starts && p != top && s == SizeAt(h, p)
    requires nb >= MIN_CHUNK_SIZE && s >= nb + MIN_CHUNK_SIZE
    requires SizeAt(h', p) == nb && SizeAt(h', p + nb) == s - nb
    requires forall a :: a != p && a != p + nb ==> SizeAt(h', a) == SizeAt(h, a)
    ensures Tiled(h', starts + {p + nb}, base, top, end)
  {
    var r, starts' := p + nb, starts + {p + nb};
    assert ChunkOk(h, starts, p, base, top) && ChunkOk(h, starts, p + s, base, top);
    assert Apart(h, p, top);
    forall a | a in starts' ensures ChunkOk(h', starts', a, base, top) {
      if a != r {
        assert ChunkOk(h, starts, a, base, top) && Apart(h, p, a);
      }
    }
    SplitApart(h, h', starts, p, nb, s);
  }

  lemma SplitApart(h: Heads, h': Heads, starts: set<Addr>, p: Addr, nb: nat, s: nat)
    requires p in starts && s == SizeAt(h, p) && 0 < nb < s
    requires forall a, b {:trigger Apart(h, a, b)} :: a in starts && b in starts ==> Apart(h, a, b)
    requires SizeAt(h', p) == nb && SizeAt(h', p + nb) == s - nb
    requires forall a :: a != p && a != p + nb ==> SizeAt(h', a) == SizeAt(h, a)
    ensures forall a, b {:trigger Apart(h', a, b)} ::
        a in starts + {p + nb} && b in starts + {p + nb} ==> Apart(h', a, b)
  {
    var starts' := starts + {p + nb};
    forall a, b | a in starts' && b in starts' ensures Apart(h', a, b) {
      if b in starts { assert Apart(h, p, b); }
      if a in starts { assert Apart(h, p, a) && Apart(h, a, p); }
      if a in starts && b in starts { assert Apart(h, a, b); }
    }
  }

  /** The top chunk is split: its lower part is used, the rest is the new top. */
  lemma SplitTop(h: Heads, h': Heads, f: map<Addr, nat>, starts: set<Addr>, base: Addr, top: Addr, end: Addr, nb: nat)
    requires HeapOk(h, f, starts, base, top, end) && nb % 8 == 0 && MIN_CHUNK_SIZE <= nb < SizeAt(h, top)
    requires InParts(h, h', top, nb, true, SizeAt(h, top) - nb, false)
    ensures HeapOk(h', f, starts + {top + nb}, base, top + nb, end)
  {
    var r, starts' := top + nb, starts + {top + nb};
    SplitTopTiled(h, h', starts, base, top, end, nb);
    assert EvenAt(h', top) && EvenAt(h', r) by { assert EvenAt(h, top); }
    SameEven(h, h', starts, starts');
    assert ChunkOk(h, starts, top, base, top) && TagsOk(h, f, top, top);
    forall a | a in starts' ensures TagsOk(h', f, a, r) {
      if a != r && a != top {
        assert ChunkOk(h, starts, a, base, top) && TagsOk(h, f, a, top) && Apart(h, a, top);
      }
    }
  }

  lemma SplitTopTiled(h: Heads, h': Heads, starts: set<Addr>, base: Addr, top: Addr, end: Addr, nb: nat)
    requires Tiled(h, starts, base, top, end) && MIN_CHUNK_SIZE <= nb < SizeAt(h, top)
    requires SizeAt(h', top) == nb && SizeAt(h', top + nb) == SizeAt(h, top) - nb
    requires forall a :: a != top && a != top + nb ==> SizeAt(h', a) == SizeAt(h, a)
    ensures Tiled(h', starts + {top + nb}, base, top + nb, end)
  {
    var r, starts' := top + nb, starts + {top + nb};
    assert ChunkOk(h, starts, top, base, top);
    forall a | a in starts' ensures ChunkOk(h', starts', a, base, r) && (a != r ==> a <= top) {
      if a in starts { assert ChunkOk(h, starts, a, base, top) && Apart(h, a, top); }
    }
    forall a, b | a in starts' && b in starts' ensures Apart(h', a, b) {
      assert ChunkOk(h', starts', a, base, r) && ChunkOk(h', starts', b, base, r);
      if a in starts { assert Apart(h, a, top); }
      if a in starts && b in starts { assert Apart(h, a, b); }
    }
  }

  /** The used chunk before top grows or shrinks within the two of them. */
  lemma MoveTop(h: Heads, h': Heads, f: map<Addr, nat>, starts: set<Addr>, base: Addr, top: Addr, end: Addr,
      p: Addr, nb: nat)
    requires HeapOk(h, f, starts, base, top, end) && p in starts && InUse(h, p) && p + SizeAt(h, p) == top
    requires nb % 8 == 0 && SizeAt(h, p) <= nb && p + nb < end
    requires InParts(h, h', p, nb, PrevInUse(h, p), end - (p + nb), false)
    ensures HeapOk(h', f, starts - {top} + {p + nb}, base, p + nb, end)
  {
    var r, starts' := p + nb, starts - {top} + {p + nb};
    assert EvenAt(h', p) && EvenAt(h', r) by { assert EvenAt(h, p) && EvenAt(h, top); }
    SameEven(h, h', starts, starts');
    MoveTopTiled(h, h', starts, base, top, end, p, nb);
    assert ChunkOk(h, starts, p, base, top) && TagsOk(h, f, p, top) && TagsOk(h, f, top, top) && p != top;
    forall a | a in starts' ensures TagsOk(h', f, a, r) {
      if a != r && a != p {
        assert ChunkOk(h, starts, a, base, top) && TagsOk(h, f, a, top);
        assert Apart(h, a, top) && Apart(h, a, p) && Apart(h, p, a);
      }
    }
  }

  lemma MoveTopTiled(h: Heads, h': Heads, starts: set<Addr>, base: Addr, top: Addr, end: Addr, p: Addr, nb: nat)
    requires Tiled(h, starts, base, top, end) && p in starts && p + SizeAt(h, p) == top && SizeAt(h, p) <= nb
        && p + nb < end
    requires SizeAt(h', p) == nb && SizeAt(h', p + nb) == end - (p + nb) && p != top
    requires forall a :: a != p && a != p + nb ==> SizeAt(h', a) == SizeAt(h, a)
    ensures Tiled(h', starts - {top} + {p + nb}, base, p + nb, end)
  {
    var r, starts' := p + nb, starts - {top} + {p + nb};
    assert ChunkOk(h, starts, p, base, top) && ChunkOk(h, starts, top, base, top);
    assert ChunkOk(h, starts, base, base, top);
    forall a | a in starts' ensures ChunkOk(h', starts', a, base, r) && (a != r ==> a <= p) {
      if a != r {
        assert ChunkOk(h, starts, a, base, top) && Apart(h, a, top) && Apart(h, a, p) && Apart(h, p, a);
      }
    }
    forall a, b | a in starts' && b in starts' ensures Apart(h', a, b) {
      assert ChunkOk(h', starts', a, base, r) && ChunkOk(h', starts', b, base, r);
      if a in starts { assert Apart(h, a, p); }
      if a in starts && b in starts { assert Apart(h, a, b); }
    }
  }

  // ---------- joining chunks ----------

  function Outside(starts: set<Addr>, a: Addr, e: Addr): set<Addr> { set b | b in starts && !(a < b < e) }

  /** The chunks from `a` to `a + s` become one free chunk. */
  lemma Join(h: Heads, h': Heads, f: map<Addr, nat>, f': map<Addr, nat>, starts: set<Addr>, base: Addr, top: Addr,
      end: Addr, a: Addr, s: nat)
    requires HeapOk(h, f, starts, base, top, end) && a in starts && a + s in starts && s > 0
    requires PrevInUse(h, a) && InUse(h, a + s)
    requires Rewritten(h, h', map[a := Head(s, false, true)], a + s, false) && FootOnly(f, f', a + s, s)
    ensures HeapOk(h', f', Outside(starts, a, a + s), base, top, end)
  {
    var e, starts' := a + s, Outside(starts, a, a + s);
    assert ChunkOk(h, starts, a, base, top) && ChunkOk(h, starts, e, base, top) && ChunkOk(h, starts, top, base, top);
    assert ChunkOk(h, starts, base, base, top) && Apart(h, a, e);
    assert EvenAt(h', a) by { assert EvenAt(h, a) && EvenAt(h, e); }
    SameEven(h, h', starts, starts');
    assert e < top;
    forall b | b in starts' ensures ChunkOk(h', starts', b, base, top) && TagsOk(h', f', b, top) {
      assert ChunkOk(h, starts, b, base, top) && TagsOk(h, f, b, top);
      assert Apart(h, b, a) && Apart(h, b, e);
    }
    forall b, c | b in starts' && c in starts' ensures Apart(h', b, c) {
      assert Apart(h, b, c);
    }
  }

  /** The chunks from `a` to the end become the top chunk. */
  lemma JoinTop(h: Heads, h': Heads, f: map<Addr, nat>, starts: set<Addr>, base: Addr, top: Addr, end: Addr, a: Addr)
    requires HeapOk(h, f, starts, base, top, end) && a in starts && PrevInUse(h, a) && a <= end
    requires Rewritten(h, h', map[a := Head(end - a, false, true)], a, true)
    ensures HeapOk(h', f, Outside(starts, a, end), base, a, end)
  {
    var starts' := Outside(starts, a, end);
    assert ChunkOk(h, starts, a, base, top) && ChunkOk(h, starts, top, base, top)
        && ChunkOk(h, starts, base, base, top);
    assert EvenAt(h', a) by { assert EvenAt(h, a) && EvenAt(h, top); }
    SameEven(h, h', starts, starts');
    forall b | b in starts' ensures ChunkOk(h', starts', b, base, a) && TagsOk(h', f, b, a) && b <= a {
      assert ChunkOk(h, starts, b, base, top) && TagsOk(h, f, b, top);
      assert Apart(h, b, a);
    }
    forall b, c | b in starts' && c in starts' ensures Apart(h', b, c) {
      assert Apart(h, b, c) && ChunkOk(h', starts', b, base, a) && ChunkOk(h', starts', c, base, a);
    }
  }
}
