/**
 LuaJIT's allocator, part 6: the operations on the allocator's state.
 */
module Allocator {
  import opened AllocChunk
  import opened AllocTrie
  import opened AllocBins
  import opened AllocStore
  import opened AllocHeap
  import T = AllocTiles

  class State {
    const base: Addr
    const end: Addr
    var heads: T.Heads
    var foots: map<Addr, nat>
    var smallbins: seq<seq<Addr>>
    var smallmap: set<nat>
    var treebins: seq<Trie>
    var treemap: set<nat>
    var dv: Addr
    var dvsize: nat
    var top: Addr
    var topsize: nat
    ghost var starts: set<Addr>

    /** A segment whose first chunk of `msize` bytes holds the allocator's own state. */
    constructor (base: Addr, msize: nat, end: Addr)
      requires 0 < base && base % 8 == 0 && msize % 8 == 0 && msize >= MIN_CHUNK_SIZE && end % 8 == 0
      requires base + msize < end < base + INDEXED
      ensures Valid() && this.base == base && this.end == end
    {
      this.base := base;
      this.end := end;
      heads := map[base := T.Head(msize, true, true), base + msize := T.Head(end - (base + msize), false, true)];
      foots := map[];
      smallbins := seq(NSMALLBINS, i => []);
      smallmap := {};
      treebins := seq(NTREEBINS, i => Nil);
      treemap := {};
      dv := 0;
      dvsize := 0;
      top := base + msize;
      topsize := end - (base + msize);
      starts := {base, base + msize};
      new;
      FreshHeap(heads, foots, starts, base, top, end);
      FreshStore(smallbins, treebins, heads, starts, top);
    }

    /** Everything but the designated victim, the free chunks `xs` being outside of all bins. */
    ghost predicate Core(xs: set<Addr>)
      reads this
    {
      && 0 < base && end < base + INDEXED
      && T.HeapOk(heads, foots, starts, base, top, end) && topsize == T.SizeAt(heads, top)
      && BinsOk(smallbins, smallmap, treebins, treemap)
      && Stored(smallbins, treebins, heads, starts, top, xs)
    }

    ghost predicate DvOk()
      reads this
    {
      if dv == 0 then dvsize == 0 else FreeAt(heads, starts, top, Chunk(dv, dvsize))
    }

    /**
     The chunks tile the segment, the tags are right, no two neighbours are free, and every free chunk is
     exactly one of the top chunk, the designated victim, or a member of its own bin.
     */
    ghost predicate Valid()
      reads this
    {
      Core({dv}) && DvOk()
    }

    ghost predicate IsFree(c: Chunk) reads this { FreeAt(heads, starts, top, c) }

    ghost predicate IsLive(a: Addr, s: nat) reads this { Live(heads, starts, a, s) }

    // ---------- bins ----------

    method UnlinkChunk(p: Addr, s: nat, ghost xs: set<Addr>)
      requires Core(xs) && IsFree(Chunk(p, s)) && p !in xs
      modifies this`smallbins, this`smallmap, this`treebins, this`treemap
      ensures Core(xs + {p})
    {
      FreeFacts(heads, foots, starts, base, top, end, Chunk(p, s));
      assert Count(smallbins, treebins, Chunk(p, s)) == 1;
      if s / 8 < NSMALLBINS {
        var i := s / 8;
        OnlySmall(smallbins, treebins, treemap, Chunk(p, s));
        DropOnce(smallbins[i], p);
        var l := Drop(smallbins[i], p);
        RemoveSmall(smallbins, treebins, i, p, l);
        SmallLess(smallbins, smallmap, i, l);
        smallbins := smallbins[i := l];
        if l == [] { smallmap := smallmap - {i}; }
      } else {
        var i := TreeIndex(s);
        IndexBelow(s);
        var t := WithoutLarge(treebins, p, s);
        RemoveLarge(smallbins, treebins, treemap, p, s, i, t);
        treebins := treebins[i := t];
        if t.Nil? { treemap := treemap - {i}; }
      }
      StoredLess(old(smallbins), old(treebins), smallbins, treebins, heads, starts, top, xs, Chunk(p, s));
    }

    method InsertChunk(p: Addr, s: nat, ghost xs: set<Addr>)
      requires Core(xs) && IsFree(Chunk(p, s)) && p in xs
      modifies this`smallbins, this`smallmap, this`treebins, this`treemap
      ensures Core(xs - {p})
    {
      if s / 8 < NSMALLBINS {
        InsertSmall(p, s, xs);
      } else {
        InsertLarge(p, s, xs);
      }
    }

    method InsertSmall(p: Addr, s: nat, ghost xs: set<Addr>)
      requires Core(xs) && IsFree(Chunk(p, s)) && p in xs && IsSmall(s)
      modifies this`smallbins, this`smallmap
      ensures Core(xs - {p})
    {
      FreeFacts(heads, foots, starts, base, top, end, Chunk(p, s));
      var i := s / 8;
      var l := [p] + smallbins[i];
      AddSmall(smallbins, treebins, i, p, l);
      SmallMore(smallbins, smallmap, i, l);
      StoredMore(smallbins, treebins, smallbins[i := l], treebins, heads, starts, top, xs, Chunk(p, s));
      smallbins := smallbins[i := l];
      smallmap := smallmap + {i};
    }

    method InsertLarge(p: Addr, s: nat, ghost xs: set<Addr>)
      requires Core(xs) && IsFree(Chunk(p, s)) && p in xs && !IsSmall(s)
      modifies this`treebins, this`treemap
      ensures Core(xs - {p})
    {
      FreeFacts(heads, foots, starts, base, top, end, Chunk(p, s));
      var i := TreeIndex(s);
      IndexBelow(s);
      var t := WithLarge(treebins, p, s);
      AddLarge(smallbins, treebins, treemap, p, s, i, t);
      StoredMore(smallbins, treebins, smallbins, treebins[i := t], heads, starts, top, xs, Chunk(p, s));
      treebins := treebins[i := t];
      treemap := treemap + {i};
    }

    /** Take the first chunk of small bin `i`. */
    method UnlinkFirst(i: nat, ghost xs: set<Addr>) returns (p: Addr)
      requires Core(xs) && i in smallmap
      modifies this`smallbins, this`smallmap
      ensures IsFree(Chunk(p, 8 * i)) && p !in xs && Core(xs + {p})
    {
      p := smallbins[i][0];
      var l := smallbins[i][1..];
      FirstStored(smallbins, treebins, i, p, l);
      SmallLess(smallbins, smallmap, i, l);
      assert Count(smallbins, treebins, Chunk(p, 8 * i)) == 1;
      StoredLess(smallbins, treebins, smallbins[i := l], treebins, heads, starts, top, xs, Chunk(p, 8 * i));
      smallbins := smallbins[i := l];
      if l == [] { smallmap := smallmap - {i}; }
    }

    // ---------- turning free chunks into used ones ----------

    method UseWhole(p: Addr, s: nat, ghost xs: set<Addr>)
      requires Core(xs) && IsFree(Chunk(p, s)) && p in xs
      modifies this`heads
      ensures Core(xs - {p}) && LivePlus(old(heads), starts, heads, starts, p, s)
      ensures forall c: Chunk {:trigger FreeAt(heads, starts, top, c)} ::
        FreeAt(heads, starts, top, c) <==> FreeAt(old(heads), starts, top, c) && c.addr != p
    {
      FreeFacts(heads, foots, starts, base, top, end, Chunk(p, s));
      UseStep(heads, foots, starts, base, top, end, p, s, T.Used(heads, p, s));
      StillStored(smallbins, treebins, heads, starts, top, xs, T.Used(heads, p, s), starts, top, xs - {p});
      heads := heads[p := T.Head(s, true, true)];
      heads := T.SetPrev(heads, p + s, true);
    }

    method UseSplit(p: Addr, s: nat, nb: nat, ghost xs: set<Addr>)
      requires Core(xs) && IsFree(Chunk(p, s)) && p in xs
      requires nb % 8 == 0 && nb >= MIN_CHUNK_SIZE && s >= nb + MIN_CHUNK_SIZE
      modifies this`heads, this`foots, this`starts
      ensures Core(xs - {p} + {p + nb}) && LivePlus(old(heads), old(starts), heads, starts, p, nb)
      ensures IsFree(Chunk(p + nb, s - nb)) && p + nb !in old(starts)
      ensures forall c: Chunk {:trigger FreeAt(heads, starts, top, c)} :: FreeAt(heads, starts, top, c) <==>
        (FreeAt(old(heads), old(starts), top, c) && c.addr != p) || c == Chunk(p + nb, s - nb)
    {
      ghost var h', f', starts' := SplitHeads(heads, p, nb, s - nb), foots[p + s := s - nb], starts + {p + nb};
      SplitStored(smallbins, treebins, heads, foots, starts, base, top, end, p, s, nb, xs, h', f', starts');
      heads := heads[p := T.Head(nb, true, true)];
      heads := heads[p + nb := T.Head(s - nb, false, true)];
      foots := foots[p + s := s - nb];
      starts := starts';
      assert heads == h' && foots == f';
    }

    /** The free chunk `r` becomes the designated victim; the old one is small and goes to a small bin. */
    method ReplaceDv(r: Addr, s: nat)
      requires Core({dv, r}) && DvOk() && IsFree(Chunk(r, s)) && r != dv && dvsize < MIN_LARGE_SIZE
      modifies this`smallbins, this`smallmap, this`dv, this`dvsize
      ensures Valid() && dv == r
    {
      NoZero(heads, starts, base, top, end);
      if dv != 0 { FreeFacts(heads, foots, starts, base, top, end, Chunk(dv, dvsize)); }
      if dvsize != 0 {
        InsertSmall(dv, dvsize, {dv, r});
        assert {dv, r} - {dv} == {r};
      } else {
        StillStored(smallbins, treebins, heads, starts, top, {dv, r}, heads, starts, top, {r});
      }
      assert Core({r});
      dvsize := s;
      dv := r;
    }

    // ---------- allocation ----------

    /** Everything that is stored in a bin is smaller than `nb`. */
    ghost predicate NothingStored(nb: nat)
      reads this
      requires |smallbins| == NSMALLBINS
    {
      forall c :: Count(smallbins, treebins, c) > 0 ==> c.size < nb
    }

    /** No free chunk, nor the top chunk, can serve a chunk of `nb` bytes. */
    ghost predicate Exhausted(nb: nat)
      reads this
    {
      (forall c :: IsFree(c) ==> c.size < nb) && topsize <= nb
    }

    /** Use the loose free chunk `p`: all of it, or `nb` bytes if the rest is large enough to be a chunk. */
    method Cut(p: Addr, size: nat, nb: nat, ghost xs: set<Addr>) returns (rest: nat, ghost s: nat)
      requires Core(xs) && IsFree(Chunk(p, size)) && p in xs && nb % 8 == 0 && nb >= MIN_CHUNK_SIZE && nb <= size
      modifies this`heads, this`foots, this`starts
      ensures Granted(old(heads), old(starts), heads, starts, p, s, nb)
      ensures Carved(old(heads), old(starts), top, heads, starts, top, p, s, nb)
      ensures rest == 0 ==> Core(xs - {p}) && s == size
      ensures rest != 0 ==>
          Core(xs - {p} + {p + nb}) && IsFree(Chunk(p + nb, rest)) && s == nb && p + nb !in old(starts)
    {
      FreeFacts(heads, foots, starts, base, top, end, Chunk(p, size));
      if size - nb < MIN_CHUNK_SIZE {
        UseWhole(p, size, xs);
        rest, s := 0, size;
      } else {
        UseSplit(p, size, nb, xs);
        rest, s := size - nb, nb;
      }
    }

    /** A chunk for `nb` bytes from the designated victim. */
    method FromDv(nb: nat) returns (p: Addr, ghost s: nat)
      requires Valid() && nb >= MIN_CHUNK_SIZE && nb % 8 == 0 && nb <= dvsize
      modifies this`heads, this`foots, this`starts, this`dv, this`dvsize
      ensures p == old(dv)
      ensures Valid() && Granted(old(heads), old(starts), heads, starts, p, s, nb)
      ensures Carved(old(heads), old(starts), old(top), heads, starts, top, p, s, nb)
    {
      p := dv;
      NoZero(heads, starts, base, top, end);
      var rest;
      rest, s := Cut(p, dvsize, nb, {dv});
      if rest != 0 {
        assert {dv} - {p} + {p + nb} == {p + nb};
        dv := p + nb;
        dvsize := rest;
      } else {
        NoZero(heads, starts, base, top, end);
        StillStored(smallbins, treebins, heads, starts, top, {dv} - {p}, heads, starts, top, {0});
        dvsize := 0;
        dv := 0;
      }
    }

    /** A chunk for `nb` bytes from the top chunk. */
    method FromTop(nb: nat) returns (p: Addr, ghost s: nat)
      requires Valid() && nb >= MIN_CHUNK_SIZE && nb % 8 == 0 && nb < topsize
      modifies this`heads, this`starts, this`top, this`topsize
      ensures p == old(top)
      ensures Valid() && Granted(old(heads), old(starts), heads, starts, p, s, nb)
      ensures Carved(old(heads), old(starts), old(top), heads, starts, top, p, s, nb)
    {
      TopFacts(heads, foots, starts, base, top, end);
      p, s := top, nb;
      ghost var h', starts', top' := SplitHeads(heads, top, nb, topsize - nb), starts + {top + nb}, top + nb;
      TopSplit(heads, foots, starts, base, top, end, smallbins, treebins, nb, {dv}, h', starts', top');
      topsize := topsize - nb;
      top := top + nb;
      heads := heads[p := T.Head(nb, true, true)];
      heads := heads[top := T.Head(topsize, false, true)];
      starts := starts';
      assert heads == h' && top == top';
    }

    /** A chunk from the designated victim or the top chunk. */
    method FromDvOrTop(nb: nat) returns (p: Addr, ghost s: nat)
      requires Valid() && nb >= MIN_CHUNK_SIZE && (nb % 8 == 0 || nb == WORD - 1)
      modifies this`heads, this`foots, this`starts, this`dv, this`dvsize, this`top, this`topsize
      ensures Valid()
      ensures p != 0 ==> Granted(old(heads), old(starts), heads, starts, p, s, nb)
      ensures p != 0 ==> Carved(old(heads), old(starts), old(top), heads, starts, top, p, s, nb)
      ensures p == 0 ==> heads == old(heads) && starts == old(starts) && top == old(top) && dv == old(dv)
      ensures p == 0 ==> topsize == old(topsize) && dvsize == old(dvsize)
      ensures p == 0 ==> dvsize < nb && topsize <= nb
      ensures nb == WORD - 1 ==> p == 0
      ensures p != 0 ==> if nb <= old(dvsize) then p == old(dv) else p == old(top)
    {
      if dv != 0 { FreeFacts(heads, foots, starts, base, top, end, Chunk(dv, dvsize)); }
      TopFacts(heads, foots, starts, base, top, end);
      if nb <= dvsize {
        p, s := FromDv(nb);
      } else if nb < topsize {
        p, s := FromTop(nb);
      } else {
        p, s := 0, 0;
      }
    }

    /** Take the binned chunk `p` of `size` bytes for `nb` bytes; the rest goes to its bin. */
    method TakeLarge(p: Addr, size: nat, nb: nat) returns (ghost s: nat)
      requires Valid() && IsFree(Chunk(p, size)) && p != dv && nb % 8 == 0 && nb >= MIN_CHUNK_SIZE && nb <= size
      modifies this`heads, this`foots, this`starts, this`smallbins, this`smallmap, this`treebins, this`treemap
      ensures Valid() && Granted(old(heads), old(starts), heads, starts, p, s, nb)
      ensures Carved(old(heads), old(starts), old(top), heads, starts, top, p, s, nb)
    {
      UnlinkChunk(p, size, {dv});
      assert {dv} + {p} == {dv, p};
      var rest;
      rest, s := Cut(p, size, nb, {dv, p});
      assert {dv, p} - {p} == {dv};
      if rest != 0 {
        assert {dv, p} - {p} + {p + nb} == {dv, p + nb};
        InsertChunk(p + nb, rest, {dv, p + nb});
        assert {dv, p + nb} - {p + nb} == {dv};
      }
    }

    /** Take the loose chunk `p` of `size` bytes for `nb` bytes; the rest becomes the designated victim. */
    method TakeToDv(p: Addr, size: nat, nb: nat) returns (ghost s: nat)
      requires Core({dv, p}) && DvOk() && IsFree(Chunk(p, size)) && p != dv && dvsize < MIN_LARGE_SIZE
      requires nb % 8 == 0 && nb >= MIN_CHUNK_SIZE && nb <= size
      modifies this`heads, this`foots, this`starts, this`smallbins, this`smallmap, this`treebins, this`treemap,
          this`dv, this`dvsize
      ensures Valid() && Granted(old(heads), old(starts), heads, starts, p, s, nb)
      ensures Carved(old(heads), old(starts), old(top), heads, starts, top, p, s, nb)
    {
      var rest;
      rest, s := Cut(p, size, nb, {dv, p});
      assert {dv, p} - {p} == {dv};
      if rest != 0 {
        assert {dv, p} - {p} + {p + nb} == {dv, p + nb};
        ReplaceDv(p + nb, rest);
      }
    }

    /** A large request: the best fitting chunk of the trees, unless the designated victim fits better. */
    method TmallocLarge(nb: nat) returns (p: Addr, ghost s: nat, ghost n: nat)
      requires Valid() && nb % 8 == 0 && MIN_LARGE_SIZE <= nb < WORD
      modifies this`heads, this`foots, this`starts, this`smallbins, this`smallmap, this`treebins, this`treemap
      ensures Valid()
      ensures p != 0 ==> Granted(old(heads), old(starts), heads, starts, p, s, nb)
      ensures p != 0 ==> Carved(old(heads), old(starts), old(top), heads, starts, top, p, s, nb)
      ensures p != 0 ==> old(IsFree(Chunk(p, n))) && forall c: Chunk :: old(IsFree(c)) && c.size >= nb ==> n <= c.size
      ensures p == 0 ==> heads == old(heads) && starts == old(starts) && (nb <= dvsize || NothingStored(nb))
      ensures p == 0 ==> forall c: Chunk :: IsFree(c) && c.size >= nb ==> nb <= dvsize <= c.size
    {
      var v, rsize;
      ghost var i;
      v, rsize, i := FindLarge(treebins, treemap, nb);
      if dv != 0 { FreeFacts(heads, foots, starts, base, top, end, Chunk(dv, dvsize)); }
      NoZero(heads, starts, base, top, end);
      if v.Node? && rsize < Remainder(dvsize, nb) {
        p, n := v.chunk, v.size;
        BestIsFree(smallbins, treebins, treemap, heads, starts, top, v, nb, i, dv);
        BestOfAll(smallbins, treebins, treemap, heads, starts, top, {dv}, v, nb, i, dv, dvsize);
        s := TakeLarge(p, v.size, nb);
      } else {
        p, s, n := 0, 0, 0;
        if v.Nil? { NothingLarge(smallbins, treebins, treemap, nb); }
        RemainderOfDv(v, rsize, nb, dvsize);
        DvIsBest(smallbins, treebins, treemap, heads, starts, top, v, nb, i, dv, dvsize);
      }
    }

    /** A small request served by the smallest chunk of the trees. */
    method TmallocSmall(nb: nat) returns (p: Addr, ghost s: nat, ghost n: nat)
      requires Valid() && treemap != {} && nb % 8 == 0 && MIN_CHUNK_SIZE <= nb < MIN_LARGE_SIZE && dvsize < nb
      requires forall k :: nb / 8 <= k < NSMALLBINS ==> k !in smallmap
      modifies this`heads, this`foots, this`starts, this`smallbins, this`smallmap, this`treebins, this`treemap,
          this`dv, this`dvsize
      ensures Valid() && Granted(old(heads), old(starts), heads, starts, p, s, nb)
      ensures Carved(old(heads), old(starts), old(top), heads, starts, top, p, s, nb)
      ensures p != old(dv) && n >= MIN_LARGE_SIZE && old(IsFree(Chunk(p, n)))
      ensures forall c: Chunk :: old(IsFree(c)) && c.addr != old(dv) && c.size >= MIN_LARGE_SIZE ==> n <= c.size
      ensures Chosen(old(heads), old(starts), old(top), old(dv), p, nb)
    {
      var v, rsize;
      ghost var i;
      v, rsize, i := FindSmallest(treebins, treemap, nb);
      BestIsFree(smallbins, treebins, treemap, heads, starts, top, v, nb, i, dv);
      SmallestOfAll(smallbins, treebins, treemap, heads, starts, top, v, nb, i, dv);
      p, n := v.chunk, v.size;
      SmallChoice(smallbins, smallmap, treebins, treemap, heads, starts, top, dv, NSMALLBINS, nb);
      BinnedChosen(heads, starts, top, dv, p, n, nb);
      UnlinkChunk(p, v.size, {dv});
      assert {dv} + {p} == {dv, p};
      s := TakeToDv(p, v.size, nb);
    }

    /** A small request. */
    method MallocSmall(nb: nat) returns (p: Addr, ghost s: nat)
      requires Valid() && nb % 8 == 0 && MIN_CHUNK_SIZE <= nb < MIN_LARGE_SIZE
      modifies this
      ensures Valid()
      ensures p != 0 ==> Granted(old(heads), old(starts), heads, starts, p, s, nb)
      ensures p != 0 ==> Carved(old(heads), old(starts), old(top), heads, starts, top, p, s, nb)
      ensures p != 0 ==> Chosen(old(heads), old(starts), old(top), old(dv), p, nb)
      ensures p == 0 ==> heads == old(heads) && starts == old(starts) && Exhausted(nb)
    {
      var idx := nb / 8;
      if idx in smallmap || idx + 1 in smallmap {
        if idx !in smallmap { idx := idx + 1; }
        p, s := FromBin(idx, nb);
      } else if nb > dvsize {
        p, s := FromLater(nb);
      } else {
        SmallLate(nb);
        p, s := FromDvOrTop(nb);
      }
    }

    /** A small request for which neither the bins of its size nor the designated victim have a chunk. */
    method FromLater(nb: nat) returns (p: Addr, ghost s: nat)
      requires Valid() && nb % 8 == 0 && MIN_CHUNK_SIZE <= nb < MIN_LARGE_SIZE && nb > dvsize
      requires nb / 8 !in smallmap && nb / 8 + 1 !in smallmap
      modifies this
      ensures Valid()
      ensures p != 0 ==> Granted(old(heads), old(starts), heads, starts, p, s, nb)
      ensures p != 0 ==> Carved(old(heads), old(starts), old(top), heads, starts, top, p, s, nb)
      ensures p != 0 ==> Chosen(old(heads), old(starts), old(top), old(dv), p, nb)
      ensures p == 0 ==> heads == old(heads) && starts == old(starts) && Exhausted(nb)
    {
      var i := NextMark(smallmap, nb / 8);
      if i < NSMALLBINS {
        p, s := FromLaterBin(i, nb);
      } else if treemap != {} {
        ghost var n;
        p, s, n := TmallocSmall(nb);
      } else {
        NothingSmall(smallbins, smallmap, treebins, treemap, nb);
        SmallLate(nb);
        p, s := FromDvOrTop(nb);
        if p == 0 { NoneLeft(nb); }
      }
    }

    /** Use a whole chunk of small bin `idx`. */
    method FromBin(idx: nat, nb: nat) returns (p: Addr, ghost s: nat)
      requires Valid() && idx in smallmap && nb <= 8 * idx <= nb + 8 && nb < MIN_LARGE_SIZE
      requires forall k :: nb / 8 <= k < idx ==> k !in smallmap
      modifies this`heads, this`smallbins, this`smallmap
      ensures Chosen(old(heads), old(starts), old(top), old(dv), p, nb)
      ensures Valid() && Granted(old(heads), starts, heads, starts, p, s, nb)
      ensures Carved(old(heads), old(starts), old(top), heads, starts, top, p, s, nb)
    {
      assert idx < NSMALLBINS;
      SmallChoice(smallbins, smallmap, treebins, treemap, heads, starts, top, dv, idx, nb);
      p := UnlinkFirst(idx, {dv});
      BinnedChosen(heads, starts, top, dv, p, 8 * idx, nb);
      s := 8 * idx;
      FreeFacts(heads, foots, starts, base, top, end, Chunk(p, s));
      UseWhole(p, 8 * idx, {dv} + {p});
      assert {dv} + {p} - {p} == {dv};
    }

    /** Use a chunk of a later small bin; what is left of it becomes the designated victim. */
    method FromLaterBin(i: nat, nb: nat) returns (p: Addr, ghost s: nat)
      requires Valid() && i in smallmap && nb % 8 == 0 && MIN_CHUNK_SIZE <= nb <= 8 * i && dvsize < nb < MIN_LARGE_SIZE
      requires forall k :: nb / 8 <= k < i ==> k !in smallmap
      modifies this`heads, this`foots, this`starts, this`smallbins, this`smallmap, this`dv, this`dvsize,
          this`treebins, this`treemap
      ensures Chosen(old(heads), old(starts), old(top), old(dv), p, nb)
      ensures Valid() && Granted(old(heads), old(starts), heads, starts, p, s, nb)
      ensures Carved(old(heads), old(starts), old(top), heads, starts, top, p, s, nb)
    {
      assert i < NSMALLBINS;
      SmallChoice(smallbins, smallmap, treebins, treemap, heads, starts, top, dv, i, nb);
      p := UnlinkFirst(i, {dv});
      BinnedChosen(heads, starts, top, dv, p, 8 * i, nb);
      assert {dv} + {p} == {dv, p};
      s := TakeToDv(p, 8 * i, nb);
    }

    /**
     Neither bin of a fitting size has a chunk: the designated victim, or else the top chunk if the bins are of no
     use.
     */
    lemma SmallLate(nb: nat)
      requires Valid() && nb % 8 == 0 && 0 < nb < MIN_LARGE_SIZE
      requires nb / 8 !in smallmap && nb / 8 + 1 !in smallmap && (nb <= dvsize || NothingStored(nb))
      ensures Chosen(heads, starts, top, dv, if nb <= dvsize then dv else top, nb)
    {
      NoZero(heads, starts, base, top, end);
      SmallChoice(smallbins, smallmap, treebins, treemap, heads, starts, top, dv, nb / 8 + 2, nb);
      forall c: Chunk | FreeAt(heads, starts, top, c) && c.size >= nb
        ensures nb <= dvsize && (c.addr != dv && IsSmall(c.size) ==> c.size > nb + 8)
      {
        if c.addr != dv { assert Count(smallbins, treebins, c) == 1; }
      }
      LateChosen(heads, starts, top, dv, dvsize, if nb <= dvsize then dv else top, nb);
    }

    lemma LargeLate(nb: nat)
      requires Valid() && nb >= MIN_LARGE_SIZE
      requires (forall c: Chunk :: IsFree(c) && c.size >= nb ==> nb <= dvsize <= c.size) || NothingStored(nb)
      ensures Chosen(heads, starts, top, dv, if nb <= dvsize then dv else top, nb)
    {
      NoZero(heads, starts, base, top, end);
      forall c: Chunk | FreeAt(heads, starts, top, c) && c.size >= nb
        ensures nb <= dvsize <= c.size && (c.addr != dv && IsSmall(c.size) ==> c.size > nb + 8)
      {
        assert IsFree(c);
        if c.addr != dv { assert Count(smallbins, treebins, c) == 1; }
      }
      LateChosen(heads, starts, top, dv, dvsize, if nb <= dvsize then dv else top, nb);
    }

    /** Nothing in the bins, the designated victim or the top chunk. */
    lemma NoneLeft(nb: nat)
      requires Valid() && NothingStored(nb) && dvsize < nb && topsize <= nb
      ensures Exhausted(nb)
    {
      NoZero(heads, starts, base, top, end);
      forall c | IsFree(c) ensures c.size < nb {
        if c.addr != dv { assert Count(smallbins, treebins, c) == 1; }
      }
    }

    /**
     Allocate: a pointer to a new chunk with room for `nsize` bytes, disjoint from everything in use, or
     null only if no free chunk and not the top chunk could serve the request.
     */
    method Malloc(nsize: nat) returns (mem: Addr, ghost s: nat)
      requires Valid() && nsize < WORD
      modifies this
      ensures Valid()
      ensures mem != 0 ==>
          mem >= 16 && mem % 8 == 0 && Granted(old(heads), old(starts), heads, starts, mem - 16, s, nsize + 8)
      ensures mem != 0 ==>
          Carved(old(heads), old(starts), old(top), heads, starts, top, mem - 16, s, RequestSize(nsize))
      ensures mem != 0 ==> Chosen(old(heads), old(starts), old(top), old(dv), mem - 16, RequestSize(nsize))
      ensures mem == 0 ==>
          heads == old(heads) && starts == old(starts) && (nsize >= MAX_REQUEST || Exhausted(RequestSize(nsize)))
    {
      var p;
      PadFacts(nsize);
      if nsize <= MAX_SMALL_REQUEST {
        p, s := MallocSmall(RequestSize(nsize));
      } else if nsize >= MAX_REQUEST {
        p, s := FromDvOrTop(WORD - 1);
      } else {
        p, s := MallocLarge(PadRequest(nsize));
      }
      mem := if p == 0 then 0 else p + 16;
      Offset16(p);
    }

    method MallocLarge(nb: nat) returns (p: Addr, ghost s: nat)
      requires Valid() && nb % 8 == 0 && MIN_LARGE_SIZE <= nb < WORD
      modifies this
      ensures Valid()
      ensures p != 0 ==> Granted(old(heads), old(starts), heads, starts, p, s, nb)
      ensures p != 0 ==> Carved(old(heads), old(starts), old(top), heads, starts, top, p, s, nb)
      ensures p != 0 ==> Chosen(old(heads), old(starts), old(top), old(dv), p, nb)
      ensures p == 0 ==> heads == old(heads) && starts == old(starts) && Exhausted(nb)
    {
      if treemap != {} {
        ghost var n;
        p, s, n := TmallocLarge(nb);
        if p != 0 { return; }
      } else {
        NothingLarge(smallbins, treebins, treemap, nb);
      }
      LargeLate(nb);
      p, s := FromDvOrTop(nb);
      if p == 0 { NoneLeft(nb); }
    }

    // ---------- release ----------

    /** Write the tags of the free chunk from `a` to `e`; `tell` the next chunk if it does not know yet. */
    method SetFree(a: Addr, e: Addr, tell: bool, ghost p: Addr, ghost xs: set<Addr>, ghost ys: set<Addr>)
      requires Core(xs) && RunOf(heads, starts, a, e, p, xs) && e in starts && Kept(xs, ys, a, e)
      requires T.PrevInUse(heads, a) && T.InUse(heads, e) && (tell || !T.PrevInUse(heads, e))
      modifies this`heads, this`foots, this`starts
      ensures Core(ys) && IsFree(Chunk(a, e - a)) && LiveMinus(old(heads), old(starts), heads, starts, p)
      ensures forall c: Chunk :: (c.addr < a || c.addr >= e) && old(IsFree(c)) ==> IsFree(c)
    {
      var s := e - a;
      ghost var h', f', starts' := JoinHeads(heads, a, s, tell), foots[e := s], T.Outside(starts, a, e);
      JoinStored(smallbins, treebins, heads, foots, starts, base, top, end, a, e, tell, p, xs, ys);
      if tell { heads := T.SetPrev(heads, e, false); }
      heads := heads[a := T.Head(s, false, true)];
      foots := foots[e := s];
      starts := starts';
      assert heads == h' && foots == f';
    }

    /**
     Chunk `p` is being released: with the free chunk `a` before it, if there is one, it has `psize` bytes,
     and that chunk has been taken out of its bin.
     */
    ghost predicate Releasing(p: Addr, a: Addr, psize: nat)
      reads this
    {
      && Core({dv, a}) && DvOk()
      && p in starts && T.InUse(heads, p) && p != top && a + psize == p + T.SizeAt(heads, p) && T.PrevInUse(heads, a)
      && (a == p || (a in starts && a + T.SizeAt(heads, a) == p && !T.InUse(heads, a)))
    }

    lemma ReleaseFacts(p: Addr, a: Addr, psize: nat)
      requires Releasing(p, a, psize)
      ensures a in starts && a + psize in starts && base <= a < a + psize <= top && 0 !in starts
          && T.PrevInUse(heads, a + psize)
      ensures (dv <= a || dv >= a + psize) && dv < top && a > 0 && (dv == a ==> a != p)
    {
      var next := a + psize;
      assert T.ChunkOk(heads, starts, p, base, top) && T.ChunkOk(heads, starts, a, base, top)
          && T.TagsOk(heads, foots, p, top);
      if dv != 0 { assert T.Apart(heads, a, dv) && T.Apart(heads, p, dv) && T.ChunkOk(heads, starts, dv, base, top); }
      NoZero(heads, starts, base, top, end);
      assert T.ChunkOk(heads, starts, next, base, top);
    }

    /** A free chunk that follows is followed in turn by one in use. */
    lemma NextFacts(p: Addr, a: Addr, psize: nat, next: Addr, e: Addr)
      requires Releasing(p, a, psize) && next == a + psize && !T.InUse(heads, next) && next != top && next in starts
      requires e == next + T.SizeAt(heads, next)
      ensures IsFree(Chunk(next, e - next)) && next < e
      ensures e in starts && T.InUse(heads, e) && !T.PrevInUse(heads, e) && (dv <= next || dv >= e)
    {
      assert T.ChunkOk(heads, starts, next, base, top) && T.TagsOk(heads, foots, next, top);
      T.NeverBothFree(heads, foots, starts, base, top, end, next);
      if dv != 0 { assert T.Apart(heads, next, dv); }
    }

    /** The free run from `a` up to the top chunk becomes part of it. */
    method FreeToTop(p: Addr, a: Addr, psize: nat)
      requires Releasing(p, a, psize) && a + psize == top
      modifies this`heads, this`starts, this`top, this`topsize, this`dv, this`dvsize
      ensures Valid() && LiveMinus(old(heads), old(starts), heads, starts, p)
    {
      ghost var d := if a == dv then 0 else dv;
      ghost var h' := heads[a := T.Head(topsize + psize, false, true)];
      TopGrown(p, a, psize, h', T.Outside(starts, a, end), d);
      SetTop(a, topsize + psize, h', T.Outside(starts, a, end), d);
      if a == dv {
        dv := 0;
        dvsize := 0;
      }
    }

    method SetTop(a: Addr, size: nat, ghost h': T.Heads, ghost starts': set<Addr>, ghost d: Addr)
      requires 0 < base && end < base + INDEXED && BinsOk(smallbins, smallmap, treebins, treemap)
      requires h' == heads[a := T.Head(size, false, true)] && T.HeapOk(h', foots, starts', base, a, end)
      requires Stored(smallbins, treebins, h', starts', a, {d})
      modifies this`heads, this`starts, this`top, this`topsize
      ensures Core({d}) && heads == h' && starts == starts' && top == a
    {
      topsize := size;
      top := a;
      heads := heads[a := T.Head(size, false, true)];
      starts := starts';
    }

    lemma TopRun(p: Addr, a: Addr, psize: nat)
      requires Releasing(p, a, psize) && a + psize == top
      ensures RunOf(heads, starts, a, top, p, {dv, a}) && dv <= a && 0 !in starts && topsize + psize == end - a
    {
      ReleaseFacts(p, a, psize);
      RunIs(heads, starts, base, top, end, a, top, p, {dv, a});
    }

    lemma TopGrown(p: Addr, a: Addr, psize: nat, h': T.Heads, starts': set<Addr>, dv': Addr)
      requires Releasing(p, a, psize) && a + psize == top
      requires h' == heads[a := T.Head(topsize + psize, false, true)] && starts' == T.Outside(starts, a, end)
      requires dv' == if a == dv then 0 else dv
      ensures T.HeapOk(h', foots, starts', base, a, end) && Stored(smallbins, treebins, h', starts', a, {dv'})
      ensures LiveMinus(heads, starts, h', starts', p) && (dv' != 0 ==> FreeAt(h', starts', a, Chunk(dv, dvsize)))
    {
      TopRun(p, a, psize);
      TopTaken(heads, foots, starts, base, top, end, smallbins, treebins, a, p, dv, dvsize, h', starts', dv');
    }

    lemma AloneRun(p: Addr, a: Addr, psize: nat)
      requires Releasing(p, a, psize) && T.InUse(heads, a + psize)
      ensures RunOf(heads, starts, a, a + psize, p, {dv, a}) && a + psize in starts && a > 0
      ensures Kept({dv, a}, {dv, a}, a, a + psize) && (dv < a || dv >= a + psize || dv == a)
    {
      ReleaseFacts(p, a, psize);
      RunIs(heads, starts, base, top, end, a, a + psize, p, {dv, a});
    }

    lemma DvRun(p: Addr, a: Addr, psize: nat)
      requires Releasing(p, a, psize) && a + psize == dv
      ensures RunOf(heads, starts, a, dv + dvsize, p, {dv, a}) && dv + dvsize in starts && a > 0
      ensures Kept({dv, a}, {a}, a, dv + dvsize)
      ensures T.InUse(heads, dv + dvsize) && !T.PrevInUse(heads, dv + dvsize)
    {
      ReleaseFacts(p, a, psize);
      NextFacts(p, a, psize, dv, dv + dvsize);
      RunIs(heads, starts, base, top, end, a, dv + dvsize, p, {dv, a});
    }

    /** The next chunk is in use. */
    method FreeAlone(p: Addr, a: Addr, psize: nat)
      requires Releasing(p, a, psize) && T.InUse(heads, a + psize)
      modifies this
      ensures Valid() && LiveMinus(old(heads), old(starts), heads, starts, p)
    {
      AloneRun(p, a, psize);
      SetFree(a, a + psize, true, p, {dv, a}, {dv, a});
      Bin(a, psize);
    }

    /** The designated victim follows: it now begins at `a`. */
    method FreeToDv(p: Addr, a: Addr, psize: nat)
      requires Releasing(p, a, psize) && a + psize == dv
      modifies this`heads, this`foots, this`starts, this`dv, this`dvsize
      ensures Valid() && LiveMinus(old(heads), old(starts), heads, starts, p)
    {
      DvRun(p, a, psize);
      SetFree(a, dv + dvsize, false, p, {dv, a}, {a});
      dvsize := dvsize + psize;
      dv := a;
    }

    /** The merged free chunk becomes the designated victim if it began with it, and else goes to its bin. */
    method Bin(a: Addr, size: nat)
      requires Core({dv, a}) && a > 0 && IsFree(Chunk(a, size)) && (a != dv ==> DvOk())
      modifies this`dvsize, this`smallbins, this`smallmap, this`treebins, this`treemap
      ensures Valid()
    {
      if a == dv {
        assert {dv, a} == {dv};
        dvsize := size;
      } else {
        InsertChunk(a, size, {dv, a});
        assert {dv, a} - {a} == {dv};
      }
    }

    lemma NextRun(p: Addr, a: Addr, next: Addr, e: Addr)
      requires a <= next && Releasing(p, a, next - a) && !T.InUse(heads, next) && next != top && next != dv
      requires e == next + T.SizeAt(heads, next)
      ensures RunOf(heads, starts, a, e, p, {dv, a} + {next}) && Kept({dv, a} + {next}, {dv, a}, a, e)
      ensures IsFree(Chunk(next, e - next)) && next != a && a > 0 && (dv <= a || dv >= e)
      ensures e in starts && T.PrevInUse(heads, a) && T.InUse(heads, e) && !T.PrevInUse(heads, e)
    {
      ReleaseFacts(p, a, next - a);
      NextFacts(p, a, next - a, next, e);
      RunIs(heads, starts, base, top, end, a, e, p, {dv, a} + {next});
    }

    /** A binned chunk follows: it is taken out of its bin and merged. */
    method FreeWithNext(p: Addr, a: Addr, psize: nat, next: Addr)
      requires Releasing(p, a, psize) && next == a + psize && !T.InUse(heads, next) && next != top && next != dv
      modifies this
      ensures Valid() && LiveMinus(old(heads), old(starts), heads, starts, p)
    {
      var nsize := T.SizeAt(heads, next);
      var e := next + nsize;
      NextRun(p, a, next, e);
      UnlinkChunk(next, nsize, {dv, a});
      Merge(p, a, e, {dv, a} + {next});
    }

    /** The run around chunk `p`, from `a` to `e`, becomes one free chunk, all its free chunks being outside of bins. */
    method Merge(p: Addr, a: Addr, e: Addr, ghost xs: set<Addr>)
      requires Core(xs) && DvOk() && RunOf(heads, starts, a, e, p, xs) && e in starts && Kept(xs, {dv, a}, a, e)
      requires T.PrevInUse(heads, a) && T.InUse(heads, e) && !T.PrevInUse(heads, e) && a > 0 && (dv <= a || dv >= e)
      modifies this
      ensures Valid() && LiveMinus(old(heads), old(starts), heads, starts, p)
    {
      SetFree(a, e, false, p, xs, {dv, a});
      Bin(a, e - a);
    }

    /** The rest of a release: merge with what follows and put the chunk where it belongs. */
    method FreeForward(p: Addr, a: Addr, psize: nat)
      requires Releasing(p, a, psize)
      modifies this
      ensures Valid() && LiveMinus(old(heads), old(starts), heads, starts, p)
    {
      var next := a + psize;
      if T.InUse(heads, next) {
        FreeAlone(p, a, psize);
      } else if next == top {
        FreeToTop(p, a, psize);
      } else if next == dv {
        FreeToDv(p, a, psize);
      } else {
        FreeWithNext(p, a, psize, next);
      }
    }

    /** Release the chunk `p`. */
    method FreeChunk(p: Addr)
      requires Valid() && p in starts && T.InUse(heads, p)
      modifies this
      ensures Valid() && LiveMinus(old(heads), old(starts), heads, starts, p)
    {
      var psize := T.SizeAt(heads, p);
      if !T.PrevInUse(heads, p) {
        var prevsize := T.Foot(foots, p);
        T.BackwardLink(heads, foots, starts, base, top, end, p);
        FreeBackward(p, p - prevsize, prevsize, psize);
      } else {
        StillStored(smallbins, treebins, heads, starts, top, {dv}, heads, starts, top, {dv, p});
        FreeForward(p, p, psize);
      }
    }

    /** Release `p` together with the free chunk `a` before it. */
    method FreeBackward(p: Addr, a: Addr, prevsize: nat, psize: nat)
      requires Valid() && p in starts && T.InUse(heads, p) && psize == T.SizeAt(heads, p)
      requires IsFree(Chunk(a, prevsize)) && a + prevsize == p
      modifies this
      ensures Valid() && LiveMinus(old(heads), old(starts), heads, starts, p)
    {
      FreeFacts(heads, foots, starts, base, top, end, Chunk(a, prevsize));
      if a != dv {
        UnlinkChunk(a, prevsize, {dv});
        assert {dv} + {a} == {dv, a};
      } else {
        assert {dv, a} == {dv};
      }
      FreeForward(p, a, psize + prevsize);
    }

    /** Release what `Malloc` gave; null is ignored. */
    method Free(mem: Addr)
      requires Valid() && (mem != 0 ==> mem >= 16 && mem - 16 in starts && T.InUse(heads, mem - 16))
      modifies this
      ensures Valid()
      ensures if mem == 0 then heads == old(heads) && starts == old(starts)
          else LiveMinus(old(heads), old(starts), heads, starts, mem - 16)
    {
      if mem != 0 { FreeChunk(mem - 16); }
    }

    // ---------- resizing ----------

    /** Split the used chunk `p`: the part from `nb` bytes on becomes a used chunk of its own. */
    method SplitUsed(p: Addr, nb: nat)
      requires Valid() && p in starts && T.InUse(heads, p) && nb % 8 == 0 && nb >= MIN_CHUNK_SIZE
          && T.SizeAt(heads, p) >= nb + MIN_CHUNK_SIZE
      modifies this`heads, this`starts
      ensures Valid() && p + nb in starts && T.InUse(heads, p + nb)
      ensures forall a, n {:trigger Live(heads, starts, a, n)} :: Live(heads, starts, a, n) <==>
        (Live(old(heads), old(starts), a, n) && a != p) || (a == p && n == nb)
            || (a == p + nb && n == T.SizeAt(old(heads), p) - nb)
      ensures p + nb !in old(starts)
    {
      var s := T.SizeAt(heads, p);
      ghost var h' := heads[p := T.Head(nb, true, T.PrevInUse(heads, p))][p + nb := T.Head(s - nb, true, true)];
      Inside(heads, starts, base, top, end, p, p + nb);
      SplitUsedStep(heads, foots, starts, base, top, end, p, s, nb, h', starts + {p + nb});
      StillStored(smallbins, treebins, heads, starts, top, {dv}, h', starts + {p + nb}, top, {dv});
      heads := heads[p := T.Head(nb, true, T.PrevInUse(heads, p))];
      heads := heads[p + nb := T.Head(s - nb, true, true)];
      starts := starts + {p + nb};
    }

    /** Shrink the used chunk `p` in place; a rest that is large enough is released. */
    method Shrink(p: Addr, nb: nat) returns (ghost s: nat)
      requires Valid() && p in starts && T.InUse(heads, p) && nb % 8 == 0 && nb >= MIN_CHUNK_SIZE
          && T.SizeAt(heads, p) >= nb
      modifies this
      ensures Valid() && nb <= s < nb + MIN_CHUNK_SIZE && LiveMoved(old(heads), old(starts), heads, starts, p, p, s)
    {
      var rsize := T.SizeAt(heads, p) - nb;
      if rsize >= MIN_CHUNK_SIZE {
        SplitUsed(p, nb);
        FreeChunk(p + nb);
        s := nb;
      } else {
        s := T.SizeAt(heads, p);
      }
    }

    /** Extend the used chunk `p` into the top chunk that follows it. */
    method GrowIntoTop(p: Addr, nb: nat)
      requires Valid() && p in starts && T.InUse(heads, p) && nb % 8 == 0 && T.SizeAt(heads, p) < nb
      requires p + T.SizeAt(heads, p) == top && T.SizeAt(heads, p) + topsize > nb
      modifies this`heads, this`starts, this`top, this`topsize
      ensures Valid() && LiveMoved(old(heads), old(starts), heads, starts, p, p, nb)
    {
      var newtop := p + nb;
      var newtopsize := T.SizeAt(heads, p) + topsize - nb;
      ghost var h' := heads[p := T.Head(nb, true, T.PrevInUse(heads, p))][newtop := T.Head(newtopsize, false, true)];
      ghost var starts' := starts - {top} + {newtop};
      MoveTopStep(heads, foots, starts, base, top, end, p, nb, h', starts');
      StillStored(smallbins, treebins, heads, starts, top, {dv}, h', starts', newtop, {dv});
      heads := heads[p := T.Head(nb, true, T.PrevInUse(heads, p))];
      heads := heads[newtop := T.Head(newtopsize, false, true)];
      top := newtop;
      topsize := newtopsize;
      starts := starts';
    }

    /** What a chunk in use offers begins at a multiple of the alignment. */
    lemma LiveAligned(a: Addr, n: nat)
      requires Valid() && IsLive(a, n)
      ensures (a + 16) % 8 == 0
    {
      assert T.EvenAt(heads, a);
      Offset16(a);
    }

    /** Resize chunk `p` to `nb` bytes where it is: by giving back its end, or by taking from the top chunk. */
    method ResizeInPlace(p: Addr, nb: nat) returns (ok: bool, ghost s: nat)
      requires Valid() && p in starts && T.InUse(heads, p) && nb % 8 == 0 && nb >= MIN_CHUNK_SIZE
      modifies this
      ensures Valid()
      ensures ok ==> nb <= s < nb + MIN_CHUNK_SIZE && LiveMoved(old(heads), old(starts), heads, starts, p, p, s)
      ensures !ok ==> heads == old(heads) && starts == old(starts) && dv == old(dv) && top == old(top)
      ensures !ok ==> T.SizeAt(heads, p) < nb
    {
      ok, s := true, nb;
      if T.SizeAt(heads, p) >= nb {
        s := Shrink(p, nb);
      } else if p + T.SizeAt(heads, p) == top && T.SizeAt(heads, p) + topsize > nb {
        GrowIntoTop(p, nb);
      } else {
        ok := false;
      }
    }
  }

  /** The chunks in use are those before, with `q` of size `s` in the place of `p`. */
  ghost predicate LiveMoved(h: T.Heads, starts: set<Addr>, h': T.Heads, starts': set<Addr>, p: Addr, q: Addr, s: nat) {
    forall a, n {:trigger Live(h', starts', a, n)} ::
        Live(h', starts', a, n) <==> (Live(h, starts, a, n) && a != p) || (a == q && n == s)
  }

  /** The bytes that different chunks in use offer to their owners do not overlap. */
  lemma Disjoint(m: State, a: Addr, n: nat, b: Addr, k: nat)
    requires m.Valid() && m.IsLive(a, n) && m.IsLive(b, k) && a < b
    ensures (a + 16) + (n - 8) <= b + 16 && n >= MIN_CHUNK_SIZE
  {
    assert T.Apart(m.heads, a, b) && T.ChunkOk(m.heads, m.starts, a, m.base, m.top)
        && T.ChunkOk(m.heads, m.starts, b, m.base, m.top);
  }

  lemma TopTaken(h: T.Heads, f: map<Addr, nat>, starts: set<Addr>, base: Addr, top: Addr, end: Addr,
      small: seq<seq<Addr>>, trees: seq<Trie>,
                 a: Addr, p: Addr, dv: Addr, dvsize: nat, h': T.Heads, starts': set<Addr>, dv': Addr)
    requires T.HeapOk(h, f, starts, base, top, end) && RunOf(h, starts, a, top, p, {dv, a}) && T.PrevInUse(h, a)
        && a <= end
    requires |small| == NSMALLBINS && |trees| == NTREEBINS && Stored(small, trees, h, starts, top, {dv, a})
        && 0 !in starts
    requires dv <= a && (dv != 0 ==> FreeAt(h, starts, top, Chunk(dv, dvsize)))
    requires h' == h[a := T.Head(end - a, false, true)] && starts' == T.Outside(starts, a, end)
    requires dv' == if a == dv then 0 else dv
    ensures T.HeapOk(h', f, starts', base, a, end) && Stored(small, trees, h', starts', a, {dv'})
    ensures LiveMinus(h, starts, h', starts', p) && (dv' != 0 ==> FreeAt(h', starts', a, Chunk(dv, dvsize)))
  {
    JoinTopStep(h, f, starts, base, top, end, a, p, {dv, a}, h', starts');
    StillStored(small, trees, h, starts, top, {dv, a}, h', starts', a, {dv'});
  }

  lemma TopSplit(h: T.Heads, f: map<Addr, nat>, starts: set<Addr>, base: Addr, top: Addr, end: Addr,
      small: seq<seq<Addr>>, trees: seq<Trie>,
                 nb: nat, xs: set<Addr>, h': T.Heads, starts': set<Addr>, top': Addr)
    requires T.HeapOk(h, f, starts, base, top, end) && nb % 8 == 0 && MIN_CHUNK_SIZE <= nb < T.SizeAt(h, top)
        && 0 < base
    requires |small| == NSMALLBINS && |trees| == NTREEBINS && Stored(small, trees, h, starts, top, xs)
    requires h' == SplitHeads(h, top, nb, T.SizeAt(h, top) - nb) && starts' == starts + {top'} && top' == top + nb
    ensures T.HeapOk(h', f, starts', base, top', end) && Stored(small, trees, h', starts', top', xs)
    ensures forall c: Chunk {:trigger FreeAt(h', starts', top', c)} ::
        FreeAt(h', starts', top', c) <==> FreeAt(h, starts, top, c)
    ensures Granted(h, starts, h', starts', top, nb, nb) && T.SizeAt(h', top') == T.SizeAt(h, top) - nb
    ensures Carved(h, starts, top, h', starts', top', top, nb, nb)
  {
    TopFacts(h, f, starts, base, top, end);
    SplitTopStep(h, f, starts, base, top, end, nb, h', starts');
    StillStored(small, trees, h, starts, top, xs, h', starts', top', xs);
  }

  ghost predicate IsBinned(h: T.Heads, starts: set<Addr>, top: Addr, dv: Addr, p: Addr, s: nat) {
    FreeAt(h, starts, top, Chunk(p, s)) && p != dv
  }

  /**
   Where a request for `nb` bytes is served from: the top chunk if nothing free is large enough; the designated victim
   if no small bin fits, or if it fits best; and else the smallest free chunk that is large enough.
   */
  ghost predicate Chosen(h: T.Heads, starts: set<Addr>, top: Addr, dv: Addr, p: Addr, nb: nat) {
    forall c: Chunk {:trigger FreeAt(h, starts, top, c)} :: FreeAt(h, starts, top, c) && c.size >= nb ==>
      && p != top
      && (p != dv && c.addr != dv ==> T.SizeAt(h, p) <= c.size)
      && (nb >= MIN_LARGE_SIZE ==> T.SizeAt(h, p) <= c.size)
      && (p == dv && c.addr != dv && IsSmall(c.size) ==> c.size > nb + 8)
  }

  /** What the marks of the small bins say about free chunks that are large enough. */
  lemma SmallChoice(small: seq<seq<Addr>>, smallmap: set<nat>, trees: seq<Trie>, treemap: set<nat>, h: T.Heads,
                    starts: set<Addr>, top: Addr, dv: Addr, i: nat, nb: nat)
    requires BinsOk(small, smallmap, trees, treemap) && Stored(small, trees, h, starts, top, {dv})
    requires forall k :: nb / 8 <= k < i ==> k !in smallmap
    ensures forall c: Chunk {:trigger FreeAt(h, starts, top, c)} ::
      FreeAt(h, starts, top, c) && c.addr != dv && c.size >= nb && IsSmall(c.size) ==> c.size >= 8 * i
  {
    forall c: Chunk | FreeAt(h, starts, top, c) && c.addr != dv && c.size >= nb && IsSmall(c.size)
      ensures c.size >= 8 * i
    {
      assert Count(small, trees, c) == 1;
      OnlySmall(small, trees, treemap, c);
      assert c.size / 8 in smallmap;
    }
  }

  /** If the trees have nothing smaller than the designated victim that fits, it fits best of all. */
  lemma DvIsBest(small: seq<seq<Addr>>, trees: seq<Trie>, treemap: set<nat>, h: T.Heads, starts: set<Addr>, top: Addr,
                 v: Trie, nb: nat, i: nat, dv: Addr, dvsize: nat)
    requires |small| == NSMALLBINS && TreesOk(trees, treemap) && Stored(small, trees, h, starts, top, {dv})
    requires MIN_LARGE_SIZE <= nb < WORD && dvsize < INDEXED && 0 !in starts
    requires v.Node? ==> BestFit(trees, v, nb, i) && v.size < INDEXED && !(v.size - nb < Remainder(dvsize, nb))
    requires v.Nil? ==> NothingFits(trees, nb)
    requires if dv == 0 then dvsize == 0 else FreeAt(h, starts, top, Chunk(dv, dvsize))
    ensures forall c: Chunk {:trigger FreeAt(h, starts, top, c)} ::
      FreeAt(h, starts, top, c) && c.size >= nb ==> nb <= dvsize <= c.size
  {
    if v.Node? { DvRemainder(v.size, nb, dvsize); }
    forall c: Chunk | FreeAt(h, starts, top, c) && c.size >= nb
      ensures nb <= dvsize <= c.size
    {
      if c.addr != dv {
        assert Count(small, trees, c) == 1;
        StoredNode(small, trees, treemap, c);
      }
    }
  }

  lemma DvRemainder(size: nat, nb: nat, dvsize: nat)
    requires 0 < nb < WORD && dvsize < INDEXED && nb <= size < INDEXED && !(size - nb < Remainder(dvsize, nb))
    ensures nb <= dvsize <= size
  {
    ModOnce(dvsize, nb);
  }

  /** The unsigned difference, by whether it is negative. */
  lemma ModOnce(a: nat, nb: nat)
    requires 0 < nb < WORD && a < WORD
    ensures Remainder(a, nb) == if a >= nb then a - nb else WORD + a - nb
  {
  }

  /** The smallest free chunk that is large enough is the right choice, the designated victim apart. */
  lemma BinnedChosen(h: T.Heads, starts: set<Addr>, top: Addr, dv: Addr, p: Addr, n: nat, nb: nat)
    requires IsBinned(h, starts, top, dv, p, n) && nb < MIN_LARGE_SIZE
    requires forall c: Chunk {:trigger FreeAt(h, starts, top, c)} ::
      FreeAt(h, starts, top, c) && c.addr != dv && c.size >= nb ==> n <= c.size
    ensures Chosen(h, starts, top, dv, p, nb)
  {
  }

  /** With nothing better in the bins, the designated victim or the top chunk is. */
  lemma LateChosen(h: T.Heads, starts: set<Addr>, top: Addr, dv: Addr, dvsize: nat, p: Addr, nb: nat)
    requires if dv == 0 then dvsize == 0 else FreeAt(h, starts, top, Chunk(dv, dvsize))
    requires 0 < nb && p == if nb <= dvsize then dv else top
    requires forall c: Chunk {:trigger FreeAt(h, starts, top, c)} ::
      FreeAt(h, starts, top, c) && c.size >= nb ==>
        && nb <= dvsize
        && (nb >= MIN_LARGE_SIZE ==> dvsize <= c.size)
        && (c.addr != dv && IsSmall(c.size) ==> c.size > nb + 8)
    ensures Chosen(h, starts, top, dv, p, nb)
  {
  }

  /**
   The `s` bytes from `p` on are what the request for `nb` bytes has cost: hardly more than asked for, taken from the
   top chunk or from a free one, and what that one had beyond them is free again.  Nothing else changes hands.
   */
  ghost predicate Carved(h: T.Heads, starts: set<Addr>, top: Addr, h': T.Heads, starts': set<Addr>, top': Addr,
                         p: Addr, s: nat, nb: nat) {
    && s < nb + MIN_CHUNK_SIZE && top' == (if p == top then top + s else top)
    && (p != top ==> FreeAt(h, starts, top, Chunk(p, T.SizeAt(h, p))))
    && (forall c: Chunk {:trigger FreeAt(h', starts', top', c)} :: FreeAt(h', starts', top', c) <==>
          || (FreeAt(h, starts, top, c) && c.addr != p)
          || (p != top && T.SizeAt(h, p) > s && c == Chunk(p + s, T.SizeAt(h, p) - s)))
  }

  /** Chunk `p` has newly come into use, with at least `nb` bytes; the other chunks in use are as before. */
  ghost predicate Granted(h: T.Heads, starts: set<Addr>, h': T.Heads, starts': set<Addr>, p: Addr, s: nat, nb: nat) {
    p > 0 && p % 8 == 0 && s >= nb && LivePlus(h, starts, h', starts', p, s) && forall n :: !Live(h, starts, p, n)
  }

  lemma Offset16(p: Addr)
    ensures (p + 16) % 8 == p % 8
  {
  }

  lemma PadFacts(nsize: nat)
    ensures nsize <= MAX_SMALL_REQUEST ==> RequestSize(nsize) < MIN_LARGE_SIZE
    ensures MAX_SMALL_REQUEST < nsize < MAX_REQUEST ==>
      var nb := PadRequest(nsize);
      nb == RequestSize(nsize) && MIN_LARGE_SIZE <= nb < WORD && nb % 8 == 0 && nb >= nsize + 8
  {
  }

  lemma BestIsFree(small: seq<seq<Addr>>, trees: seq<Trie>, treemap: set<nat>, h: T.Heads, starts: set<Addr>,
      top: Addr, v: Trie, nb: nat, i: nat, dv: Addr)
    requires |small| == NSMALLBINS && TreesOk(trees, treemap) && Stored(small, trees, h, starts, top, {dv})
        && BestFit(trees, v, nb, i)
    ensures FreeAt(h, starts, top, Chunk(v.chunk, v.size)) && v.chunk != dv
  {
    SubtreeSizes(v, trees[i]);
    NodeStored(small, trees, treemap, i, Chunk(v.chunk, v.size));
  }

  lemma TopFacts(h: T.Heads, f: map<Addr, nat>, starts: set<Addr>, base: Addr, top: Addr, end: Addr)
    requires T.HeapOk(h, f, starts, base, top, end) && base > 0
    ensures top % 8 == 0 && top > 0 && !T.InUse(h, top) && T.SizeAt(h, top) <= end - base
  {
    assert T.EvenAt(h, top) && T.ChunkOk(h, starts, top, base, top);
  }

  /** The remainder of a too small designated victim wraps around to more than that of any candidate. */
  lemma RemainderOfDv(v: Trie, rsize: nat, nb: nat, dvsize: nat)
    requires 0 < nb < WORD && dvsize < INDEXED && (v.Node? ==> v.size < INDEXED && v.size >= nb && rsize == v.size - nb)
    ensures v.Node? && !(rsize < Remainder(dvsize, nb)) ==> nb <= dvsize
    ensures v.Node? && rsize < Remainder(dvsize, nb) && dvsize >= nb ==> v.size < dvsize
  {
    if dvsize >= nb {
      assert dvsize + (WORD - nb) == (dvsize - nb) + WORD;
      ModAway(1, dvsize - nb);
    } else {
      ModAway(0, dvsize + (WORD - nb));
    }
  }

  /** Nothing in the trees fits and small chunks are too small anyway. */
  lemma NothingLarge(small: seq<seq<Addr>>, trees: seq<Trie>, treemap: set<nat>, nb: nat)
    requires |small| == NSMALLBINS && TreesOk(trees, treemap) && nb >= MIN_LARGE_SIZE && NothingFits(trees, nb)
    ensures forall c :: Count(small, trees, c) > 0 ==> c.size < nb
  {
    forall c | Count(small, trees, c) > 0 ensures c.size < nb {
      if !IsSmall(c.size) { StoredNode(small, trees, treemap, c); }
    }
  }

  /** Neither small chunks of sufficient size nor any large chunk is stored. */
  lemma NothingSmall(small: seq<seq<Addr>>, smallmap: set<nat>, trees: seq<Trie>, treemap: set<nat>, nb: nat)
    requires SmallOk(small, smallmap) && TreesOk(trees, treemap) && treemap == {} && nb % 8 == 0
    requires forall i :: nb / 8 <= i < NSMALLBINS ==> i !in smallmap
    ensures forall c :: Count(small, trees, c) > 0 ==> c.size < nb
  {
    forall c | Count(small, trees, c) > 0 ensures c.size < nb {
      if IsSmall(c.size) {
        OnlySmall(small, trees, treemap, c);
      } else {
        StoredNode(small, trees, treemap, c);
      }
    }
  }

  /** The best fit of the trees that also beats the designated victim is the best of all free chunks. */
  /** The smallest chunk of the trees is the smallest large free chunk but perhaps the designated victim. */
  lemma SmallestOfAll(small: seq<seq<Addr>>, trees: seq<Trie>, treemap: set<nat>, h: T.Heads, starts: set<Addr>,
                      top: Addr, v: Trie, nb: nat, i: nat, dv: Addr)
    requires |small| == NSMALLBINS && TreesOk(trees, treemap) && Stored(small, trees, h, starts, top, {dv})
    requires BestFit(trees, v, nb, i)
    requires forall j, x :: 0 <= j < |trees| && x in Sizes(trees[j]) ==> v.size <= x
    ensures v.size >= MIN_LARGE_SIZE
    ensures forall c: Chunk {:trigger FreeAt(h, starts, top, c)} ::
      FreeAt(h, starts, top, c) && c.addr != dv && c.size >= MIN_LARGE_SIZE ==> v.size <= c.size
  {
    SubtreeSizes(v, trees[i]);
    NodeStored(small, trees, treemap, i, Chunk(v.chunk, v.size));
    forall c: Chunk | FreeAt(h, starts, top, c) && c.addr != dv && c.size >= MIN_LARGE_SIZE
      ensures v.size <= c.size
    {
      assert Count(small, trees, c) == 1;
      StoredNode(small, trees, treemap, c);
    }
  }

  lemma BestOfAll(small: seq<seq<Addr>>, trees: seq<Trie>, treemap: set<nat>, h: T.Heads, starts: set<Addr>,
      top: Addr, xs: set<Addr>,
                  v: Trie, nb: nat, i: nat, dv: Addr, dvsize: nat)
    requires |small| == NSMALLBINS && TreesOk(trees, treemap) && Stored(small, trees, h, starts, top, xs) && xs == {dv}
    requires MIN_LARGE_SIZE <= nb < WORD && BestFit(trees, v, nb, i) && v.size < INDEXED && dvsize < INDEXED
    requires v.size - nb < Remainder(dvsize, nb) && (dv == 0 || FreeAt(h, starts, top, Chunk(dv, dvsize)))
        && 0 !in starts
    ensures forall c :: FreeAt(h, starts, top, c) && c.size >= nb ==> v.size <= c.size
  {
    RemainderOfDv(v, v.size - nb, nb, dvsize);
    forall c | FreeAt(h, starts, top, c) && c.size >= nb ensures v.size <= c.size {
      if c.addr != dv {
        assert Count(small, trees, c) == 1;
        StoredNode(small, trees, treemap, c);
      }
    }
  }

  lemma FreshHeap(h: T.Heads, f: map<Addr, nat>, starts: set<Addr>, base: Addr, top: Addr, end: Addr)
    requires 0 < base && base % 8 == 0 && top % 8 == 0 && base + MIN_CHUNK_SIZE <= top < end && end % 8 == 0
    requires h == map[base := T.Head(top - base, true, true), top := T.Head(end - top, false, true)]
        && starts == {base, top}
    ensures T.HeapOk(h, f, starts, base, top, end)
  {
    assert T.ChunkOk(h, starts, base, base, top) && T.ChunkOk(h, starts, top, base, top);
    assert T.Apart(h, base, top) && T.TagsOk(h, f, base, top) && T.TagsOk(h, f, top, top);
    assert T.EvenAt(h, base) && T.EvenAt(h, top);
  }

  lemma FreshStore(small: seq<seq<Addr>>, trees: seq<Trie>, h: T.Heads, starts: set<Addr>, top: Addr)
    requires |small| == NSMALLBINS && |trees| == NTREEBINS
    requires (forall i :: 0 <= i < NSMALLBINS ==> small[i] == []) && (forall i :: 0 <= i < NTREEBINS ==> trees[i].Nil?)
    requires forall a :: a in starts && a != top ==> T.InUse(h, a)
    ensures Stored(small, trees, h, starts, top, {0}) && BinsOk(small, {}, trees, {})
  {
    forall c ensures Count(small, trees, c) == 0 { NilTrees(trees, c); }
  }

  lemma {:induction false} NilTrees(trees: seq<Trie>, c: Chunk)
    requires forall i :: 0 <= i < |trees| ==> trees[i].Nil?
    ensures InTrees(trees, c) == 0
  {
    if trees != [] { NilTrees(trees[1..], c); }
  }

  /** A stored small chunk is in its small bin. */
  lemma OnlySmall(small: seq<seq<Addr>>, trees: seq<Trie>, treemap: set<nat>, c: Chunk)
    requires |small| == NSMALLBINS && TreesOk(trees, treemap) && IsSmall(c.size) && Count(small, trees, c) > 0
    ensures c.size % 8 == 0 && c.addr in small[c.size / 8]
  {
    if InTrees(trees, c) > 0 {
      var i := InTreesAt(trees, c);
      HasBag(trees[i], c);
      NodeStored(small, trees, treemap, i, c);
    }
  }

  lemma FirstStored(small: seq<seq<Addr>>, trees: seq<Trie>, i: nat, p: Addr, l: seq<Addr>)
    requires |small| == NSMALLBINS && |trees| == NTREEBINS && i < NSMALLBINS && small[i] == [p] + l
    ensures Count(small, trees, Chunk(p, 8 * i)) > 0 && Added(small[i := l], trees, small, trees, Chunk(p, 8 * i))
  {
    RemoveSmall(small, trees, i, p, l);
  }

  lemma SmallMore(small: seq<seq<Addr>>, marks: set<nat>, i: nat, l: seq<Addr>)
    requires SmallOk(small, marks) && i < NSMALLBINS && l != []
    ensures SmallOk(small[i := l], marks + {i})
  {
  }

  lemma SmallLess(small: seq<seq<Addr>>, marks: set<nat>, i: nat, l: seq<Addr>)
    requires SmallOk(small, marks) && i < NSMALLBINS && small[i] != []
    ensures SmallOk(small[i := l], if l == [] then marks - {i} else marks)
  {
  }

  lemma NoZero(h: T.Heads, starts: set<Addr>, base: Addr, top: Addr, end: Addr)
    requires T.Tiled(h, starts, base, top, end) && base > 0
    ensures 0 !in starts
  {
    assert 0 in starts ==> T.ChunkOk(h, starts, 0, base, top);
  }
}
