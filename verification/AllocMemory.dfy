/**
 LuaJIT's allocator, part 8: resizing a chunk, with what the program keeps in it.
 */
module AllocMemory {
  import opened AllocChunk
  import opened AllocTrie
  import opened AllocHeap
  import opened Allocator
  import T = AllocTiles

  /** What the program has written, byte by byte. */
  type Bytes = map<Addr, int>

  function ByteAt(bytes: Bytes, a: Addr): int { if a in bytes then bytes[a] else 0 }

  /** The `n` bytes from `a` on. */
  function Span(bytes: Bytes, a: Addr, n: nat): (s: seq<int>)
    ensures |s| == n
  {
    seq(n, k requires 0 <= k < n => ByteAt(bytes, a + k))
  }

  /** The two maps agree outside of the `n` bytes from `a` on. */
  ghost predicate SameOutside(bytes: Bytes, bytes': Bytes, a: Addr, n: nat) {
    forall x: Addr {:trigger ByteAt(bytes', x)} :: x < a || x >= a + n ==> ByteAt(bytes', x) == ByteAt(bytes, x)
  }

  lemma SpanKept(bytes: Bytes, bytes': Bytes, a: Addr, n: nat, b: Addr, m: nat)
    requires SameOutside(bytes, bytes', a, n) && (b + m <= a || a + n <= b)
    ensures Span(bytes', b, m) == Span(bytes, b, m)
  {
    forall k | 0 <= k < m
      ensures Span(bytes', b, m)[k] == Span(bytes, b, m)[k]
    {
    }
  }

  lemma SpanPrefix(bytes: Bytes, bytes': Bytes, a: Addr, b: Addr, n: nat, m: nat)
    requires Span(bytes', a, n) == Span(bytes, b, n) && m <= n
    ensures Span(bytes', a, m) == Span(bytes, b, m)
  {
    assert Span(bytes', a, m) == Span(bytes', a, n)[..m];
    assert Span(bytes, b, m) == Span(bytes, b, n)[..m];
  }

  lemma SpanNext(bytes: Bytes, a: Addr, n: nat)
    ensures Span(bytes, a, n + 1) == Span(bytes, a, n) + [ByteAt(bytes, a + n)]
  {
  }

  /** How much of a chunk of `s` bytes is the program's: all but the field of its size. */
  function Room(s: nat): (n: nat) { if s < 8 then 0 else s - 8 }

  function Min(a: nat, b: nat): (r: nat) { if a < b then a else b }

  /** The payload of every other chunk that was in use is what it was. */
  ghost predicate OthersKept(h: T.Heads, starts: set<Addr>, p: Addr, bytes: Bytes, bytes': Bytes) {
    forall a: Addr, n: nat {:trigger Live(h, starts, a, n)} ::
      Live(h, starts, a, n) && a != p ==> Span(bytes', a + 16, Room(n)) == Span(bytes, a + 16, Room(n))
  }

  class Memory {
    const m: State
    var bytes: Bytes

    constructor (m: State)
      ensures this.m == m && bytes == map[]
    {
      this.m := m;
      bytes := map[];
    }

    /** Copy `n` bytes between places that do not overlap. */
    method Copy(dst: Addr, src: Addr, n: nat)
      requires dst + n <= src || src + n <= dst
      modifies this`bytes
      ensures Span(bytes, dst, n) == Span(old(bytes), src, n) && SameOutside(old(bytes), bytes, dst, n)
    {
      for i := 0 to n
        invariant Span(bytes, dst, i) == Span(old(bytes), src, i) && SameOutside(old(bytes), bytes, dst, i)
      {
        ghost var before := bytes;
        bytes := bytes[dst + i := ByteAt(bytes, src + i)];
        SpanKept(before, bytes, dst + i, 1, dst, i);
        SpanNext(bytes, dst, i);
        SpanNext(old(bytes), src, i);
      }
    }

    /**
     Resize: in place if possible, else by moving to a new chunk.  The program finds there what it had, as far as
     there is room; no other payload changes, and on failure nothing at all.
     */
    method Realloc(mem: Addr, nsize: nat) returns (newmem: Addr, ghost s: nat)
      requires m.Valid() && nsize < WORD && mem >= 16 && mem - 16 in m.starts && T.InUse(m.heads, mem - 16)
      modifies m, this`bytes
      ensures m.Valid()
      ensures newmem == 0 ==> m.heads == old(m.heads) && m.starts == old(m.starts) && bytes == old(bytes)
      ensures newmem == 0 ==> nsize >= MAX_REQUEST || m.Exhausted(RequestSize(nsize))
      ensures newmem != 0 ==> newmem >= 16 && newmem % 8 == 0 && nsize + 8 <= s < RequestSize(nsize) + MIN_CHUNK_SIZE
      ensures newmem != 0 ==> LiveMoved(old(m.heads), old(m.starts), m.heads, m.starts, mem - 16, newmem - 16, s)
      ensures newmem != 0 ==> var n := Min(Room(T.SizeAt(old(m.heads), mem - 16)), nsize);
        Span(bytes, newmem, n) == Span(old(bytes), mem, n)
      ensures OthersKept(old(m.heads), old(m.starts), mem - 16, old(bytes), bytes)
    {
      s := 0;
      if nsize >= MAX_REQUEST { return 0, 0; }
      var ok;
      ok, s := Stay(mem, nsize);
      if ok { return mem, s; }
      newmem, s := Move(mem, nsize);
    }

    /** Resize in place, if that is possible. */
    method Stay(mem: Addr, nsize: nat) returns (ok: bool, ghost s: nat)
      requires m.Valid() && mem >= 16 && mem - 16 in m.starts && T.InUse(m.heads, mem - 16)
      modifies m
      ensures m.Valid()
      ensures ok ==> mem % 8 == 0 && nsize + 8 <= s < RequestSize(nsize) + MIN_CHUNK_SIZE
      ensures ok ==> LiveMoved(old(m.heads), old(m.starts), m.heads, m.starts, mem - 16, mem - 16, s)
      ensures !ok ==> m.heads == old(m.heads) && m.starts == old(m.starts)
    {
      ok, s := m.ResizeInPlace(mem - 16, RequestSize(nsize));
      if ok { m.LiveAligned(mem - 16, s); }
    }

    /** Take a new chunk, copy what fits and release the old one. */
    method Move(mem: Addr, nsize: nat) returns (newmem: Addr, ghost s: nat)
      requires m.Valid() && nsize < WORD && mem >= 16 && mem - 16 in m.starts && T.InUse(m.heads, mem - 16)
      modifies m, this`bytes
      ensures m.Valid()
      ensures newmem == 0 ==> m.heads == old(m.heads) && m.starts == old(m.starts) && bytes == old(bytes)
      ensures newmem == 0 ==> nsize >= MAX_REQUEST || m.Exhausted(RequestSize(nsize))
      ensures newmem != 0 ==> newmem >= 16 && newmem % 8 == 0 && nsize + 8 <= s < RequestSize(nsize) + MIN_CHUNK_SIZE
      ensures newmem != 0 ==> LiveMoved(old(m.heads), old(m.starts), m.heads, m.starts, mem - 16, newmem - 16, s)
      ensures newmem != 0 ==> var n := Min(Room(T.SizeAt(old(m.heads), mem - 16)), nsize);
        Span(bytes, newmem, n) == Span(old(bytes), mem, n)
      ensures OthersKept(old(m.heads), old(m.starts), mem - 16, old(bytes), bytes)
    {
      newmem, s := TakeCopy(mem, nsize);
      if newmem == 0 { return; }
      Drop(mem, newmem, s, nsize + 8, old(m.heads), old(m.starts));
    }

    /** Release the chunk that has been copied from. */
    method Drop(mem: Addr, ghost newmem: Addr, ghost s: nat, ghost nb: nat, ghost h: T.Heads, ghost starts: set<Addr>)
      requires m.Valid() && mem >= 16 && mem - 16 in m.starts && T.InUse(m.heads, mem - 16)
      requires newmem >= 16 && newmem != mem && Granted(h, starts, m.heads, m.starts, newmem - 16, s, nb)
      modifies m
      ensures m.Valid() && LiveMoved(h, starts, m.heads, m.starts, mem - 16, newmem - 16, s)
    {
      ghost var h1, starts1 := m.heads, m.starts;
      m.Free(mem);
      NowMoved(h, starts, h1, starts1, m.heads, m.starts, mem - 16, newmem - 16, s, nb);
    }

    /** Take a new chunk. */
    method Take(nsize: nat) returns (newmem: Addr, ghost s: nat)
      requires m.Valid() && nsize < WORD
      modifies m
      ensures m.Valid()
      ensures newmem == 0 ==> m.heads == old(m.heads) && m.starts == old(m.starts)
      ensures newmem == 0 ==> nsize >= MAX_REQUEST || m.Exhausted(RequestSize(nsize))
      ensures newmem != 0 ==> newmem >= 16 && newmem % 8 == 0 && s < RequestSize(nsize) + MIN_CHUNK_SIZE
      ensures newmem != 0 ==> Granted(old(m.heads), old(m.starts), m.heads, m.starts, newmem - 16, s, nsize + 8)
    {
      newmem, s := m.Malloc(nsize);
    }

    /** Take a new chunk and copy what fits; the old one is still in use. */
    method TakeCopy(mem: Addr, nsize: nat) returns (newmem: Addr, ghost s: nat)
      requires m.Valid() && nsize < WORD && mem >= 16 && mem - 16 in m.starts && T.InUse(m.heads, mem - 16)
      modifies m, this`bytes
      ensures m.Valid() && mem - 16 in m.starts && T.InUse(m.heads, mem - 16)
      ensures newmem == 0 ==> m.heads == old(m.heads) && m.starts == old(m.starts) && bytes == old(bytes)
      ensures newmem == 0 ==> nsize >= MAX_REQUEST || m.Exhausted(RequestSize(nsize))
      ensures newmem != 0 ==>
          newmem >= 16 && newmem % 8 == 0 && newmem != mem && s < RequestSize(nsize) + MIN_CHUNK_SIZE
      ensures newmem != 0 ==> Granted(old(m.heads), old(m.starts), m.heads, m.starts, newmem - 16, s, nsize + 8)
      ensures newmem != 0 ==> var n := Min(Room(T.SizeAt(old(m.heads), mem - 16)), nsize);
        Span(bytes, newmem, n) == Span(old(bytes), mem, n)
      ensures OthersKept(old(m.heads), old(m.starts), mem - 16, old(bytes), bytes)
    {
      var oldsize := T.SizeAt(m.heads, mem - 16);
      newmem, s := Take(nsize);
      if newmem == 0 { return; }
      StillLive(old(m.heads), old(m.starts), m.heads, m.starts, newmem - 16, s, nsize + 8, mem - 16, oldsize);
      CopyInto(newmem, mem, oldsize, nsize, s, old(m.heads), old(m.starts));
    }

    /** Copy to the chunk that has just been taken. */
    method CopyInto(newmem: Addr, mem: Addr, oldsize: nat, nsize: nat, ghost s: nat, ghost h: T.Heads,
                    ghost starts: set<Addr>)
      requires m.Valid() && mem >= 16 && newmem >= 16 && Live(h, starts, mem - 16, oldsize)
      requires Granted(h, starts, m.heads, m.starts, newmem - 16, s, nsize + 8)
      modifies this`bytes
      ensures var n := Min(Room(oldsize), nsize); Span(bytes, newmem, n) == Span(old(bytes), mem, n)
      ensures OthersKept(h, starts, mem - 16, old(bytes), bytes)
    {
      var n := Min(Room(oldsize), nsize);
      Elsewhere(m, h, starts, newmem - 16, s, nsize + 8, mem - 16, oldsize);
      Copy(newmem, mem, n);
      forall a: Addr, k: nat | Live(h, starts, a, k) && a != mem - 16
        ensures Span(bytes, a + 16, Room(k)) == Span(old(bytes), a + 16, Room(k))
      {
        Elsewhere(m, h, starts, newmem - 16, s, nsize + 8, a, k);
        SpanKept(old(bytes), bytes, newmem, n, a + 16, Room(k));
      }
    }
  }

  /** What was in use still is after a chunk has been taken, and releasing it then amounts to moving it there. */
  lemma StillLive(h: T.Heads, starts: set<Addr>, h': T.Heads, starts': set<Addr>, p: Addr, s: nat, nb: nat,
                  a: Addr, k: nat)
    requires Granted(h, starts, h', starts', p, s, nb) && Live(h, starts, a, k)
    ensures a != p && a in starts' && T.InUse(h', a)
  {
    assert Live(h', starts', a, k);
  }

  lemma NowMoved(h: T.Heads, starts: set<Addr>, h1: T.Heads, starts1: set<Addr>, h2: T.Heads, starts2: set<Addr>,
                 p: Addr, q: Addr, s: nat, nb: nat)
    requires Granted(h, starts, h1, starts1, q, s, nb) && LiveMinus(h1, starts1, h2, starts2, p) && p != q
    ensures LiveMoved(h, starts, h2, starts2, p, q, s)
  {
  }

  /** A payload that was in use before does not overlap that of a chunk that has just been taken. */
  lemma Elsewhere(m: State, h: T.Heads, starts: set<Addr>, p: Addr, s: nat, nb: nat, a: Addr, k: nat)
    requires m.Valid() && Granted(h, starts, m.heads, m.starts, p, s, nb) && nb >= 8 && Live(h, starts, a, k)
    ensures s >= nb && (a + 16 + Room(k) <= p + 16 || p + 16 + (s - 8) <= a + 16)
  {
    assert Live(m.heads, m.starts, a, k) && Live(m.heads, m.starts, p, s);
    assert a != p;
    if a < p {
      Disjoint(m, a, k, p, s);
    } else {
      Disjoint(m, p, s, a, k);
    }
  }
}
