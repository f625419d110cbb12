/**
 LuaJIT's allocator, part 5: allocation, release and resizing in place, within one segment.
 */
module AllocHeap {
  import opened AllocChunk
  import opened AllocTrie
  import opened AllocBins
  import opened AllocStore
  import T = AllocTiles

  const MIN_REQUEST: nat := 23
  const MAX_SMALL_REQUEST: nat := 240
  const MAX_REQUEST: nat := 0xFFFF_FFFF_FFFF_FF80

  function PadRequest(req: nat): nat { (req + 15) / 8 * 8 }

  /** The chunk size for a request. */
  function RequestSize(req: nat): (nb: nat)
    ensures nb % 8 == 0 && nb >= MIN_CHUNK_SIZE && nb >= req + 8
  {
    if req < MIN_REQUEST then MIN_CHUNK_SIZE else PadRequest(req)
  }

  /** Chunk `a` is in use and has size `s`. */
  predicate Live(h: T.Heads, starts: set<Addr>, a: Addr, s: nat) {
    a in starts && T.InUse(h, a) && T.SizeAt(h, a) == s
  }

  /** The chunks in use are those before and chunk `p` of size `n`. */
  ghost predicate LivePlus(h: T.Heads, starts: set<Addr>, h': T.Heads, starts': set<Addr>, p: Addr, n: nat) {
    forall a, s {:trigger Live(h', starts', a, s)} ::
        Live(h', starts', a, s) <==> Live(h, starts, a, s) || (a == p && s == n)
  }

  /** The chunks in use are those before except `p`. */
  ghost predicate LiveMinus(h: T.Heads, starts: set<Addr>, h': T.Heads, starts': set<Addr>, p: Addr) {
    forall a, s {:trigger Live(h', starts', a, s)} :: Live(h', starts', a, s) <==> Live(h, starts, a, s) && a != p
  }

  // ---------- facts about single chunks ----------

  lemma FreeFacts(h: T.Heads, f: map<Addr, nat>, starts: set<Addr>, base: Addr, top: Addr, end: Addr, c: Chunk)
    requires T.HeapOk(h, f, starts, base, top, end) && FreeAt(h, starts, top, c)
    ensures c.size >= MIN_CHUNK_SIZE && c.size % 8 == 0 && c.addr % 8 == 0 && base <= c.addr && c.addr + c.size <= end
    ensures c.addr + c.size in starts && c.addr + c.size in h && c.addr in h && T.PrevInUse(h, c.addr)
  {
    var a := c.addr;
    assert T.ChunkOk(h, starts, a, base, top) && T.EvenAt(h, a) && T.TagsOk(h, f, a, top);
    assert T.ChunkOk(h, starts, a + c.size, base, top) && T.ChunkOk(h, starts, top, base, top);
  }

  // ---------- what each step does to the heap, the store and the chunks in use ----------

  lemma UseStep(h: T.Heads, f: map<Addr, nat>, starts: set<Addr>, base: Addr, top: Addr, end: Addr, p: Addr, s: nat,
      h': T.Heads)
    requires T.HeapOk(h, f, starts, base, top, end) && FreeAt(h, starts, top, Chunk(p, s)) && h' == T.Used(h, p, s)
    ensures T.HeapOk(h', f, starts, base, top, end) && T.SizeAt(h', top) == T.SizeAt(h, top)
    ensures forall c: Chunk {:trigger FreeAt(h', starts, top, c)} ::
        FreeAt(h', starts, top, c) <==> FreeAt(h, starts, top, c) && c.addr != p
    ensures LivePlus(h, starts, h', starts, p, s)
  {
    FreeFacts(h, f, starts, base, top, end, Chunk(p, s));
    T.UsedIs(h, p, s);
    T.UseAll(h, h', f, starts, base, top, end, p);
  }

  /** The heads after `p` was split into a used part of `nb` bytes and a free rest. */
  function SplitHeads(h: T.Heads, p: Addr, nb: nat, rest: nat): T.Heads {
    h[p := T.Head(nb, true, true)][p + nb := T.Head(rest, false, true)]
  }

  lemma SplitStep(h: T.Heads, f: map<Addr, nat>, starts: set<Addr>, base: Addr, top: Addr, end: Addr, p: Addr,
      s: nat, nb: nat,
                  h': T.Heads, f': map<Addr, nat>, starts': set<Addr>)
    requires T.HeapOk(h, f, starts, base, top, end) && FreeAt(h, starts, top, Chunk(p, s))
    requires nb % 8 == 0 && nb >= MIN_CHUNK_SIZE && s >= nb + MIN_CHUNK_SIZE
    requires h' == SplitHeads(h, p, nb, s - nb) && f' == f[p + s := s - nb] && starts' == starts + {p + nb}
    ensures T.HeapOk(h', f', starts', base, top, end) && T.SizeAt(h', top) == T.SizeAt(h, top)
    ensures forall c: Chunk {:trigger FreeAt(h', starts', top, c)} ::
      FreeAt(h', starts', top, c) <==> (FreeAt(h, starts, top, c) && c.addr != p) || c == Chunk(p + nb, s - nb)
    ensures LivePlus(h, starts, h', starts', p, nb)
  {
    FreeFacts(h, f, starts, base, top, end, Chunk(p, s));
    assert T.ChunkOk(h, starts, p, base, top) && T.TagsOk(h, f, p, top);
    Inside(h, starts, base, top, end, p, p + nb);
    T.Split(h, h', f, f', starts, base, top, end, p, nb, s);
  }

  /** No chunk begins inside another. */
  lemma Inside(h: T.Heads, starts: set<Addr>, base: Addr, top: Addr, end: Addr, p: Addr, x: Addr)
    requires T.Tiled(h, starts, base, top, end) && p in starts && p < x < p + T.SizeAt(h, p)
    ensures x !in starts
  {
    assert x in starts ==> T.Apart(h, p, x);
  }

  lemma SplitTopStep(h: T.Heads, f: map<Addr, nat>, starts: set<Addr>, base: Addr, top: Addr, end: Addr, nb: nat,
      h': T.Heads, starts': set<Addr>)
    requires T.HeapOk(h, f, starts, base, top, end) && nb % 8 == 0 && MIN_CHUNK_SIZE <= nb < T.SizeAt(h, top)
    requires h' == SplitHeads(h, top, nb, T.SizeAt(h, top) - nb) && starts' == starts + {top + nb}
    ensures T.HeapOk(h', f, starts', base, top + nb, end)
    ensures forall c: Chunk {:trigger FreeAt(h', starts', top + nb, c)} ::
        FreeAt(h', starts', top + nb, c) <==> FreeAt(h, starts, top, c)
    ensures LivePlus(h, starts, h', starts', top, nb)
  {
    Inside(h, starts, base, top, end, top, top + nb);
    T.SplitTop(h, h', f, starts, base, top, end, nb);
  }

  /** The run of chunks from `a` to `e` consists of `p`, which is in use, and free chunks in `xs`. */
  ghost predicate RunOf(h: T.Heads, starts: set<Addr>, a: Addr, e: Addr, p: Addr, xs: set<Addr>) {
    && a in starts && a <= p < e && p in starts && T.InUse(h, p)
    && forall b :: b in starts && a <= b < e && b != p ==> !T.InUse(h, b) && b in xs
  }

  lemma JoinStep(h: T.Heads, f: map<Addr, nat>, starts: set<Addr>, base: Addr, top: Addr, end: Addr, a: Addr,
      s: nat, p: Addr, xs: set<Addr>,
                 h': T.Heads, f': map<Addr, nat>, starts': set<Addr>)
    requires T.HeapOk(h, f, starts, base, top, end) && RunOf(h, starts, a, a + s, p, xs) && a + s in starts
    requires T.PrevInUse(h, a) && T.InUse(h, a + s)
    requires T.Rewritten(h, h', map[a := T.Head(s, false, true)], a + s, false) && T.FootOnly(f, f', a + s, s)
    requires starts' == T.Outside(starts, a, a + s)
    ensures T.HeapOk(h', f', starts', base, top, end) && T.SizeAt(h', top) == T.SizeAt(h, top)
    ensures FreeAt(h', starts', top, Chunk(a, s))
    ensures forall c: Chunk {:trigger FreeAt(h', starts', top, c)} ::
      c.addr != a && c.addr !in xs ==> (FreeAt(h', starts', top, c) <==> FreeAt(h, starts, top, c))
    ensures forall c: Chunk {:trigger FreeAt(h', starts', top, c)} ::
        FreeAt(h', starts', top, c) && c.addr != a ==> FreeAt(h, starts, top, c)
    ensures LiveMinus(h, starts, h', starts', p)
  {
    assert T.ChunkOk(h, starts, a + s, base, top);
    T.Join(h, h', f, f', starts, base, top, end, a, s);
    assert T.ChunkOk(h', starts', a, base, top);
  }

  lemma JoinTopStep(h: T.Heads, f: map<Addr, nat>, starts: set<Addr>, base: Addr, top: Addr, end: Addr, a: Addr,
      p: Addr, xs: set<Addr>,
                    h': T.Heads, starts': set<Addr>)
    requires T.HeapOk(h, f, starts, base, top, end) && a <= end && RunOf(h, starts, a, top, p, xs) && T.PrevInUse(h, a)
    requires h' == h[a := T.Head(end - a, false, true)] && starts' == T.Outside(starts, a, end)
    ensures T.HeapOk(h', f, starts', base, a, end)
    ensures forall c: Chunk {:trigger FreeAt(h', starts', a, c)} ::
        FreeAt(h', starts', a, c) <==> FreeAt(h, starts, top, c) && c.addr < a
    ensures forall c: Chunk {:trigger FreeAt(h, starts, top, c)} ::
        FreeAt(h, starts, top, c) && c.addr >= a ==> c.addr in xs
    ensures LiveMinus(h, starts, h', starts', p)
  {
    T.JoinTop(h, h', f, starts, base, top, end, a);
    forall b | b in starts ensures b <= top { assert T.ChunkOk(h, starts, b, base, top); }
    forall b | b in starts' ensures b <= a { assert T.ChunkOk(h', starts', b, base, a); }
  }

  /** The two ways of writing the tags of a new free chunk, by whether the next chunk has to be told. */
  lemma FreeTags(h: T.Heads, f: map<Addr, nat>, a: Addr, s: nat)
    requires s > 0 && a + s in h
    ensures T.FootOnly(f, f[a + s := s], a + s, s)
    ensures T.Rewritten(h, T.SetPrev(h, a + s, false)[a := T.Head(s, false, true)],
        map[a := T.Head(s, false, true)], a + s, false)
    ensures !T.PrevInUse(h, a + s) ==>
        T.Rewritten(h, h[a := T.Head(s, false, true)], map[a := T.Head(s, false, true)], a + s, false)
  {
    T.SetPrevIs(h, a + s, false);
  }

  /** Which chunks the run around the used chunk `p` consists of. */
  lemma RunIs(h: T.Heads, starts: set<Addr>, base: Addr, top: Addr, end: Addr, a: Addr, e: Addr, p: Addr, xs: set<Addr>)
    requires T.Tiled(h, starts, base, top, end) && p in starts && T.InUse(h, p) && p != top
    requires a == p || (a in starts && a + T.SizeAt(h, a) == p && !T.InUse(h, a) && a in xs)
    requires var n := p + T.SizeAt(h, p);
      e == n || (n in starts && e == n + T.SizeAt(h, n) && !T.InUse(h, n) && n in xs)
    ensures RunOf(h, starts, a, e, p, xs)
  {
    var n := p + T.SizeAt(h, p);
    assert T.ChunkOk(h, starts, p, base, top) && T.ChunkOk(h, starts, a, base, top);
    forall b | b in starts && a <= b < e && b != p ensures !T.InUse(h, b) && b in xs {
      assert T.Apart(h, a, b) && T.Apart(h, p, b) && T.Apart(h, b, p) && T.Apart(h, n, b);
    }
  }

  /** A used chunk is split into two used ones. */
  lemma SplitUsedStep(h: T.Heads, f: map<Addr, nat>, starts: set<Addr>, base: Addr, top: Addr, end: Addr, p: Addr,
      s: nat, nb: nat,
                      h': T.Heads, starts': set<Addr>)
    requires T.HeapOk(h, f, starts, base, top, end) && Live(h, starts, p, s)
    requires nb % 8 == 0 && nb >= MIN_CHUNK_SIZE && s >= nb + MIN_CHUNK_SIZE
    requires h' == h[p := T.Head(nb, true, T.PrevInUse(h, p))][p + nb := T.Head(s - nb, true, true)]
        && starts' == starts + {p + nb}
    ensures T.HeapOk(h', f, starts', base, top, end) && T.SizeAt(h', top) == T.SizeAt(h, top)
    ensures forall c: Chunk {:trigger FreeAt(h', starts', top, c)} ::
        FreeAt(h', starts', top, c) <==> FreeAt(h, starts, top, c)
    ensures forall a, n {:trigger Live(h', starts', a, n)} ::
      Live(h', starts', a, n) <==>
          (Live(h, starts, a, n) && a != p) || (a == p && n == nb) || (a == p + nb && n == s - nb)
  {
    assert T.ChunkOk(h, starts, p, base, top) && T.TagsOk(h, f, p, top);
    Inside(h, starts, base, top, end, p, p + nb);
    T.Split(h, h', f, f, starts, base, top, end, p, nb, s);
  }

  /** The used chunk before top takes `nb` bytes of the two. */
  lemma MoveTopStep(h: T.Heads, f: map<Addr, nat>, starts: set<Addr>, base: Addr, top: Addr, end: Addr, p: Addr,
      nb: nat,
                    h': T.Heads, starts': set<Addr>)
    requires T.HeapOk(h, f, starts, base, top, end) && p in starts && T.InUse(h, p) && p + T.SizeAt(h, p) == top
    requires nb % 8 == 0 && T.SizeAt(h, p) <= nb && p + nb < end
    requires h' == h[p := T.Head(nb, true, T.PrevInUse(h, p))][p + nb := T.Head(end - (p + nb), false, true)]
    requires starts' == starts - {top} + {p + nb}
    ensures T.HeapOk(h', f, starts', base, p + nb, end)
    ensures forall c: Chunk {:trigger FreeAt(h', starts', p + nb, c)} ::
        FreeAt(h', starts', p + nb, c) <==> FreeAt(h, starts, top, c)
    ensures forall a, n {:trigger Live(h', starts', a, n)} ::
      Live(h', starts', a, n) <==> (Live(h, starts, a, n) && a != p) || (a == p && n == nb)
  {
    assert T.ChunkOk(h, starts, p, base, top);
    if p + nb != top { Inside(h, starts, base, top, end, top, p + nb); }
    T.MoveTop(h, h', f, starts, base, top, end, p, nb);
  }

  // ---------- the same with the store ----------

  lemma SplitStored(small: seq<seq<Addr>>, trees: seq<Trie>, h: T.Heads, f: map<Addr, nat>, starts: set<Addr>,
      base: Addr, top: Addr, end: Addr,
                    p: Addr, s: nat, nb: nat, xs: set<Addr>, h': T.Heads, f': map<Addr, nat>, starts': set<Addr>)
    requires |small| == NSMALLBINS && |trees| == NTREEBINS && Stored(small, trees, h, starts, top, xs)
    requires T.HeapOk(h, f, starts, base, top, end) && FreeAt(h, starts, top, Chunk(p, s)) && p in xs
    requires nb % 8 == 0 && nb >= MIN_CHUNK_SIZE && s >= nb + MIN_CHUNK_SIZE
    requires h' == SplitHeads(h, p, nb, s - nb) && f' == f[p + s := s - nb] && starts' == starts + {p + nb}
    ensures T.HeapOk(h', f', starts', base, top, end) && T.SizeAt(h', top) == T.SizeAt(h, top)
    ensures Stored(small, trees, h', starts', top, xs - {p} + {p + nb})
        && FreeAt(h', starts', top, Chunk(p + nb, s - nb))
    ensures LivePlus(h, starts, h', starts', p, nb) && p + nb !in starts
    ensures forall c: Chunk {:trigger FreeAt(h', starts', top, c)} ::
        FreeAt(h', starts', top, c) <==> (FreeAt(h, starts, top, c) && c.addr != p) || c == Chunk(p + nb, s - nb)
  {
    Inside(h, starts, base, top, end, p, p + nb);
    SplitStep(h, f, starts, base, top, end, p, s, nb, h', f', starts');
    StillStored(small, trees, h, starts, top, xs, h', starts', top, xs - {p} + {p + nb});
  }

  /**
   `ys` are the exceptions that remain of `xs` when the run from `a` to `e` became one free chunk outside of all
   bins.
   */
  ghost predicate Kept(xs: set<Addr>, ys: set<Addr>, a: Addr, e: Addr) {
    forall x :: x in ys <==> x == a || (x in xs && !(a < x < e))
  }

  /** The heads after the run from `a` on, of `s` bytes, became one free chunk. */
  function JoinHeads(h: T.Heads, a: Addr, s: nat, tell: bool): T.Heads {
    (if tell then T.SetPrev(h, a + s, false) else h)[a := T.Head(s, false, true)]
  }

  lemma JoinStored(small: seq<seq<Addr>>, trees: seq<Trie>, h: T.Heads, f: map<Addr, nat>, starts: set<Addr>,
      base: Addr, top: Addr, end: Addr,
                   a: Addr, e: Addr, tell: bool, p: Addr, xs: set<Addr>, ys: set<Addr>)
    requires |small| == NSMALLBINS && |trees| == NTREEBINS && Stored(small, trees, h, starts, top, xs)
    requires T.HeapOk(h, f, starts, base, top, end) && RunOf(h, starts, a, e, p, xs) && e in starts
    requires T.PrevInUse(h, a) && T.InUse(h, e) && (tell || !T.PrevInUse(h, e)) && Kept(xs, ys, a, e)
    ensures a < e
    ensures var h', f', starts' := JoinHeads(h, a, e - a, tell), f[e := e - a], T.Outside(starts, a, e);
      && T.HeapOk(h', f', starts', base, top, end) && T.SizeAt(h', top) == T.SizeAt(h, top)
      && Stored(small, trees, h', starts', top, ys) && FreeAt(h', starts', top, Chunk(a, e - a))
      && LiveMinus(h, starts, h', starts', p)
      && forall c: Chunk {:trigger FreeAt(h', starts', top, c)} ::
           (c.addr < a || c.addr >= e) && FreeAt(h, starts, top, c) ==> FreeAt(h', starts', top, c)
  {
    var s := e - a;
    var h', f', starts' := JoinHeads(h, a, s, tell), f[e := s], T.Outside(starts, a, e);
    assert T.ChunkOk(h, starts, e, base, top);
    FreeTags(h, f, a, s);
    JoinStep(h, f, starts, base, top, end, a, s, p, xs, h', f', starts');
    StillStored(small, trees, h, starts, top, xs, h', starts', top, ys);
  }
}
