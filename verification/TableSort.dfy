/**
 The quicksort behind `table.sort` (core/luajit/src/lib_table.c). It works in place on the array part of a
 table, whose slot 0 holds the key 0 and is no part of the sort: slot k of the array is the element with key k.

 The order is the caller's function, and nothing makes it an order. So the results come in two layers. For every
 function the slots it reads lie between `l` and `u`, it comes to an end, and the table stays a rearrangement of
 what it was; for a strict weak order it also ends without the error and leaves the table sorted.
 */
module TableSort {
  type Compare<!T> = (T, T) -> bool

  /** What `table.sort` asks of its order function: what it leaves undecided is an equivalence. */
  ghost predicate StrictWeak<T(!new)>(lt: Compare<T>) {
    && (forall x :: !lt(x, x))
    && (forall x, y, z :: lt(x, y) && lt(y, z) ==> lt(x, z))
    && (forall x, y, z :: Tied(lt, x, y) && Tied(lt, y, z) ==> Tied(lt, x, z))
  }

  predicate Tied<T>(lt: Compare<T>, x: T, y: T) {
    !lt(x, y) && !lt(y, x)
  }

  predicate AtMost<T>(lt: Compare<T>, x: T, y: T) {
    !lt(y, x)
  }

  /** A strict weak order never says less both ways, and "not greater" can be chained. */
  lemma AtMostChains<T(!new)>(lt: Compare<T>, x: T, y: T, z: T)
    requires StrictWeak(lt) && AtMost(lt, x, y) && AtMost(lt, y, z)
    ensures AtMost(lt, x, z)
  {
    assert lt(z, x) && lt(x, y) ==> lt(z, y);
    assert lt(y, z) && lt(z, x) ==> lt(y, x);
    assert Tied(lt, x, y) && Tied(lt, y, z) ==> Tied(lt, x, z);
  }

  lemma LessIsAtMost<T(!new)>(lt: Compare<T>, x: T, y: T)
    requires StrictWeak(lt) && lt(x, y)
    ensures AtMost(lt, x, y)
  {
    assert lt(x, y) && lt(y, x) ==> lt(x, x);
  }

  // ---------- rearrangements ----------

  /**
   `t` holds in the slots `l` to `u` the elements that `s` held there, and agrees with `s` everywhere else.
   */
  ghost predicate Rearranged<T>(s: seq<T>, t: seq<T>, l: int, u: int) {
    && |s| == |t|
    && 0 <= l && u < |s|
    && (l <= u ==> multiset(s[l..u + 1]) == multiset(t[l..u + 1]))
    && (forall k :: 0 <= k < |s| && !(l <= k <= u) ==> s[k] == t[k])
  }

  function Swapped<T>(s: seq<T>, i: nat, j: nat): (t: seq<T>)
    requires i < |s| && j < |s|
    ensures |t| == |s| && t[i] == s[j] && t[j] == s[i]
    ensures forall k :: 0 <= k < |s| && k != i && k != j ==> t[k] == s[k]
  {
    s[i := s[j]][j := s[i]]
  }

  lemma SwapRearranges<T>(s: seq<T>, i: nat, j: nat, l: nat, u: nat)
    requires l <= i <= u && l <= j <= u && u < |s|
    ensures Rearranged(s, Swapped(s, i, j), l, u)
  {
    var m := s[l..u + 1];
    assert Swapped(s, i, j)[l..u + 1] == m[i - l := m[j - l]][j - l := m[i - l]];
  }

  lemma Widened<T>(s: seq<T>, t: seq<T>, l: int, u: int, l': int, u': int)
    requires Rearranged(s, t, l, u)
    requires 0 <= l' <= l && u <= u' < |s| && l <= u + 1
    ensures Rearranged(s, t, l', u')
  {
    assert s[l'..u' + 1] == s[l'..l] + s[l..u + 1] + s[u + 1..u' + 1];
    assert t[l'..u' + 1] == t[l'..l] + t[l..u + 1] + t[u + 1..u' + 1];
    assert s[l'..l] == t[l'..l];
    assert s[u + 1..u' + 1] == t[u + 1..u' + 1];
  }

  /** Where an element of the rearranged part came from. */
  lemma CameFrom<T>(s: seq<T>, t: seq<T>, l: int, u: int, k: int) returns (o: int)
    requires Rearranged(s, t, l, u) && l <= k <= u
    ensures l <= o <= u && s[o] == t[k]
  {
    assert t[l..u + 1][k - l] == t[k];
    assert t[k] in multiset(t[l..u + 1]);
    assert t[k] in s[l..u + 1];
    var p :| 0 <= p < |s[l..u + 1]| && s[l..u + 1][p] == t[k];
    o := l + p;
  }

  // ---------- what is in order ----------

  ghost predicate Sorted<T>(lt: Compare<T>, s: seq<T>, l: int, u: int) {
    0 <= l && u < |s| && forall p, q :: l <= p < q <= u ==> AtMost(lt, s[p], s[q])
  }

  /** From `l0` to `u0` every pair is in order but those that lie within `l` to `u`. */
  ghost predicate SortedAround<T>(lt: Compare<T>, s: seq<T>, l0: int, u0: int, l: int, u: int) {
    && 0 <= l0 <= l <= u + 1 <= u0 + 1 <= |s|
    && (forall p, q :: l0 <= p < q <= u0 && !(l <= p && q <= u) ==> AtMost(lt, s[p], s[q]))
  }

  ghost predicate AllAtMost<T>(lt: Compare<T>, s: seq<T>, l: int, u: int, p: T) {
    0 <= l && u < |s| && forall k :: l <= k <= u ==> AtMost(lt, s[k], p)
  }

  ghost predicate AllAtLeast<T>(lt: Compare<T>, s: seq<T>, l: int, u: int, p: T) {
    0 <= l && u < |s| && forall k :: l <= k <= u ==> AtMost(lt, p, s[k])
  }

  /** Slot `i` splits `l` to `u`: nothing before it is greater, nothing after it is less. */
  ghost predicate SplitAt<T>(lt: Compare<T>, s: seq<T>, l: int, u: int, i: int) {
    && 0 <= l <= i <= u < |s|
    && AllAtMost(lt, s, l, i - 1, s[i])
    && AllAtLeast(lt, s, i + 1, u, s[i])
  }

  /** Rearranging the part that is not yet in order keeps the pairs outside it in order. */
  lemma RearrangedAround<T>(lt: Compare<T>, s: seq<T>, t: seq<T>, l0: int, u0: int, l: int, u: int)
    requires SortedAround(lt, s, l0, u0, l, u) && Rearranged(s, t, l, u)
    ensures SortedAround(lt, t, l0, u0, l, u)
  {
    forall p, q | l0 <= p < q <= u0 && !(l <= p && q <= u)
      ensures AtMost(lt, t[p], t[q])
    {
      var p', q' := p, q;
      if l <= p <= u {
        p' := CameFrom(s, t, l, u, p);
      }
      if l <= q <= u {
        q' := CameFrom(s, t, l, u, q);
      }
      assert AtMost(lt, s[p'], s[q']);
    }
  }

  /** Rearranging the slots on one side of a splitting slot leaves it splitting. */
  lemma RearrangedSplit<T>(lt: Compare<T>, s: seq<T>, t: seq<T>, l: int, u: int, i: int, l': int, u': int)
    requires SplitAt(lt, s, l, u, i) && Rearranged(s, t, l', u')
    requires l <= l' && u' <= u && (u' < i || i < l')
    ensures SplitAt(lt, t, l, u, i)
  {
    forall k | l <= k <= u && k != i
      ensures if k < i then AtMost(lt, t[k], t[i]) else AtMost(lt, t[i], t[k])
    {
      var k' := k;
      if l' <= k <= u' {
        k' := CameFrom(s, t, l', u', k);
      }
      assert if k' < i then AtMost(lt, s[k'], s[i]) else AtMost(lt, s[i], s[k']);
    }
  }

  /** With one side of the splitting slot sorted, only the other side is left to do. */
  lemma OneSideDone<T(!new)>(lt: Compare<T>, s: seq<T>, l: int, u: int, i: int, l': int, u': int)
    requires StrictWeak(lt) && SplitAt(lt, s, l, u, i)
    requires || (l' == i + 1 && u' == u && Sorted(lt, s, l, i - 1))
             || (l' == l && u' == i - 1 && Sorted(lt, s, i + 1, u))
    ensures SortedAround(lt, s, l, u, l', u')
  {
    forall p, q | l <= p < q <= u && !(l' <= p && q <= u')
      ensures AtMost(lt, s[p], s[q])
    {
      if p < i < q {
        AtMostChains(lt, s[p], s[i], s[q]);
      }
    }
  }

  // ---------- the sort ----------

  method Set2<T>(a: array<T>, i: nat, j: nat)
    requires i < a.Length && j < a.Length
    modifies a
    ensures a[..] == Swapped(old(a[..]), i, j)
  {
    a[i], a[j] := a[j], a[i];
  }

  ghost predicate MedianOf<T>(lt: Compare<T>, s: seq<T>, l: nat, i: nat, u: nat)
    requires l < |s| && i < |s| && u < |s|
  {
    AtMost(lt, s[l], s[i]) && AtMost(lt, s[i], s[u]) && AtMost(lt, s[l], s[u])
  }

  /** Puts the median of the first, the middle and the last element in the middle. */
  method SortThree<T(!new)>(a: array<T>, lt: Compare<T>, l: nat, i: nat, u: nat)
    requires l < i < u < a.Length
    requires StrictWeak(lt) ==> AtMost(lt, a[l], a[u])
    modifies a
    ensures Rearranged(old(a[..]), a[..], l, u)
    ensures forall k :: 0 <= k < a.Length && k != l && k != i && k != u ==> a[k] == old(a[k])
    ensures StrictWeak(lt) ==> MedianOf(lt, a[..], l, i, u)
  {
    ghost var s := a[..];
    if lt(a[i], a[l]) {
      Set2(a, i, l);
      SwapRearranges(s, i, l, l, u);
      if StrictWeak(lt) {
        LessIsAtMost(lt, s[i], s[l]);
        AtMostChains(lt, s[i], s[l], s[u]);
      }
    } else if lt(a[u], a[i]) {
      Set2(a, i, u);
      SwapRearranges(s, i, u, l, u);
      if StrictWeak(lt) {
        LessIsAtMost(lt, s[u], s[i]);
        AtMostChains(lt, s[l], s[u], s[i]);
      }
    }
  }

  /**
   The upward scan from slot `i`: it stops at the first element that is not less than the pivot, and gives up
   at slot `u`.
   */
  method ScanUp<T>(a: array<T>, lt: Compare<T>, p: T, start: nat, u: nat) returns (ok: bool, i: nat)
    requires start < u < a.Length
    ensures start < i <= u
    ensures ok ==> !lt(a[i], p)
    ensures !ok ==> i == u && lt(a[u], p)
    ensures forall k :: start < k < i ==> lt(a[k], p)
  {
    ok, i := true, start + 1;
    while lt(a[i], p)
      invariant start < i <= u
      invariant forall k :: start < k < i ==> lt(a[k], p)
      decreases u - i
    {
      if i >= u {
        return false, i;
      }
      i := i + 1;
    }
  }

  /** The downward scan from slot `j`, with `l` as its end. */
  method ScanDown<T>(a: array<T>, lt: Compare<T>, p: T, start: nat, l: nat) returns (ok: bool, j: nat)
    requires l < start < a.Length
    ensures l <= j < start
    ensures ok ==> !lt(p, a[j])
    ensures !ok ==> j == l && lt(p, a[l])
    ensures forall k :: j < k < start ==> lt(p, a[k])
  {
    ok, j := true, start - 1;
    while lt(p, a[j])
      invariant l <= j < start
      invariant forall k :: j < k < start ==> lt(p, a[k])
      decreases j
    {
      if j <= l {
        return false, j;
      }
      j := j - 1;
    }
  }

  /**
   What holds between two rounds of the partition: up to `i` nothing is greater than the pivot, from `j` on
   nothing is less, and the two scans can only meet.
   */
  ghost predicate Partitioning<T>(lt: Compare<T>, s: seq<T>, p: T, l: int, u: int, i: int, j: int) {
    && 0 <= l <= i <= j < u < |s|
    && AllAtMost(lt, s, l, i, p)
    && AllAtLeast(lt, s, j, u, p)
    && s[u - 1] == p
  }

  lemma ScannedUp<T(!new)>(lt: Compare<T>, s: seq<T>, p: T, l: int, u: int, i: int, i': int)
    requires StrictWeak(lt) && 0 <= l <= i < i' <= u < |s|
    requires AllAtMost(lt, s, l, i, p)
    requires forall k :: i < k < i' ==> lt(s[k], p)
    ensures AllAtMost(lt, s, l, i' - 1, p)
  {
    forall k | i < k < i'
      ensures AtMost(lt, s[k], p)
    {
      LessIsAtMost(lt, s[k], p);
    }
  }

  lemma ScannedDown<T(!new)>(lt: Compare<T>, s: seq<T>, p: T, l: int, u: int, j: int, j': int)
    requires StrictWeak(lt) && 0 <= l <= j' < j <= u < |s|
    requires AllAtLeast(lt, s, j, u, p)
    requires forall k :: j' < k < j ==> lt(p, s[k])
    ensures AllAtLeast(lt, s, j' + 1, u, p)
  {
    forall k | j' < k < j
      ensures AtMost(lt, p, s[k])
    {
      LessIsAtMost(lt, p, s[k]);
    }
  }

  /**
   The partition loop, the pivot being in slot u - 1. The scans have no other guard than the error; for a
   strict weak order they never reach it.
   */
  method Partition<T(!new)>(a: array<T>, lt: Compare<T>, l: nat, u: nat) returns (ok: bool, i: nat)
    requires l + 3 <= u < a.Length
    requires StrictWeak(lt) ==> AtMost(lt, a[l], a[u - 1]) && AtMost(lt, a[u - 1], a[u])
    modifies a
    ensures l < i <= u
    ensures Rearranged(old(a[..]), a[..], l, u)
    ensures StrictWeak(lt) ==> ok && i < u
    ensures StrictWeak(lt) ==> AllAtMost(lt, a[..], l, i - 1, a[u - 1]) && AllAtLeast(lt, a[..], i, u, a[u - 1])
  {
    ghost var s := a[..];
    var p := a[u - 1];
    var j := u - 1;
    i := l;
    while true
      invariant l <= i <= j < u
      invariant i == l ==> j == u - 1
      invariant l < i ==> j < u - 1
      invariant Rearranged(s, a[..], l, u)
      invariant StrictWeak(lt) ==> Partitioning(lt, a[..], p, l, u, i, j)
      decreases u - i
    {
      ghost var i0, j0 := i, j;
      ok, i := ScanUp(a, lt, p, i, u);
      if StrictWeak(lt) {
        ScannedUp(lt, a[..], p, l, u, i0, i);
      }
      if !ok {
        return;
      }
      ok, j := ScanDown(a, lt, p, j, l);
      if StrictWeak(lt) {
        ScannedDown(lt, a[..], p, l, u, j0, j);
      }
      if !ok {
        return;
      }
      if j < i {
        return;
      }
      ghost var b := a[..];
      Set2(a, i, j);
      SwapRearranges(b, i, j, l, u);
    }
  }

  function Power2(n: nat): (r: nat) {
    if n == 0 then 1 else 2 * Power2(n - 1)
  }

  /** Calls nested `depth` deep are few for a range of n slots. */
  ghost predicate Shallow(depth: nat, n: int) {
    if n > 0 then Power2(depth) <= n else depth == 0
  }

  function Deeper(depth: nat, d: nat): (r: nat) {
    if depth < d + 1 then d + 1 else depth
  }

  /** A nested call gets less than half of the slots. */
  lemma NestedShallow(depth: nat, n: int, d: nat, k: int)
    requires Shallow(depth, n) && Shallow(d, k) && 2 * k < n && n > 3
    ensures Shallow(Deeper(depth, d), n)
  {
  }

  method SortEnds<T(!new)>(a: array<T>, lt: Compare<T>, l: nat, u: nat)
    requires l < u < a.Length
    modifies a
    ensures Rearranged(old(a[..]), a[..], l, u)
    ensures StrictWeak(lt) ==> AtMost(lt, a[l], a[u])
  {
    ghost var s := a[..];
    if lt(a[u], a[l]) {
      Set2(a, l, u);
      SwapRearranges(s, l, u, l, u);
      if StrictWeak(lt) {
        LessIsAtMost(lt, s[u], s[l]);
      }
    }
  }

  /** Swapping the pivot from slot u - 1 into slot `i` makes it split the range. */
  lemma PivotMoved<T>(lt: Compare<T>, b: seq<T>, t: seq<T>, l: nat, u: nat, i: nat)
    requires l < i < u < |b| && t == Swapped(b, u - 1, i)
    requires AllAtMost(lt, b, l, i - 1, b[u - 1]) && AllAtLeast(lt, b, i, u, b[u - 1])
    ensures SplitAt(lt, t, l, u, i)
  {
    var p := b[u - 1];
    forall k | l <= k <= i - 1
      ensures AtMost(lt, t[k], p)
    {
      assert t[k] == b[k];
    }
    forall k | i + 1 <= k <= u
      ensures AtMost(lt, p, t[k])
    {
      assert t[k] == if k == u - 1 then b[i] else b[k];
    }
  }

  /** Parks the median in slot u - 1, for the partition. */
  method ParkPivot<T(!new)>(a: array<T>, lt: Compare<T>, l: nat, m: nat, u: nat)
    requires l < m < u < a.Length && l + 3 <= u
    requires StrictWeak(lt) ==> MedianOf(lt, a[..], l, m, u)
    modifies a
    ensures Rearranged(old(a[..]), a[..], l, u)
    ensures StrictWeak(lt) ==> AtMost(lt, a[l], a[u - 1]) && AtMost(lt, a[u - 1], a[u])
  {
    SwapRearranges(a[..], m, u - 1, l, u);
    Set2(a, m, u - 1);
  }

  method PlacePivot<T(!new)>(a: array<T>, lt: Compare<T>, l: nat, u: nat, i: nat)
    requires l < i <= u < a.Length && l + 3 <= u
    requires StrictWeak(lt) ==> i < u
    requires StrictWeak(lt) ==> AllAtMost(lt, a[..], l, i - 1, a[u - 1]) && AllAtLeast(lt, a[..], i, u, a[u - 1])
    modifies a
    ensures Rearranged(old(a[..]), a[..], l, u)
    ensures StrictWeak(lt) ==> SplitAt(lt, a[..], l, u, i)
  {
    ghost var b := a[..];
    SwapRearranges(b, u - 1, i, l, u);
    Set2(a, u - 1, i);
    if StrictWeak(lt) {
      PivotMoved(lt, b, a[..], l, u, i);
    }
  }

  /** What one round does before it turns to the two sides. Up to three elements are sorted with that. */
  method SplitRange<T(!new)>(a: array<T>, lt: Compare<T>, l: nat, u: nat) returns (ok: bool, done: bool, i: nat)
    requires l < u < a.Length
    modifies a
    ensures done ==> ok
    ensures ok && !done ==> l < i <= u && l + 3 <= u
    ensures Rearranged(old(a[..]), a[..], l, u)
    ensures StrictWeak(lt) ==> ok && if done then Sorted(lt, a[..], l, u) else SplitAt(lt, a[..], l, u, i)
  {
    ok, done, i := true, true, l;
    SortEnds(a, lt, l, u);
    if u - l == 1 {
      return;
    }
    var m := (l + u) / 2;
    SortThree(a, lt, l, m, u);
    if u - l == 2 {
      return;
    }
    done := false;
    ParkPivot(a, lt, l, m, u);
    ok, i := Partition(a, lt, l, u);
    if ok {
      PlacePivot(a, lt, l, u, i);
    }
  }

  /** What one round leaves of the loop's range: everything around what is left is in order. */
  lemma RoundKeeps<T(!new)>(lt: Compare<T>, s: seq<T>, b: seq<T>, t: seq<T>, l0: int, u0: int, l: int, u: int,
                            l': int, u': int)
    requires Rearranged(s, b, l0, u0) && Rearranged(b, t, l, u) && l0 <= l <= u + 1 <= u0 + 1
    ensures Rearranged(s, t, l0, u0)
    ensures && StrictWeak(lt) && SortedAround(lt, b, l0, u0, l, u) && SortedAround(lt, t, l, u, l', u')
        ==> SortedAround(lt, t, l0, u0, l', u')
  {
    Widened(b, t, l, u, l0, u0);
    if SortedAround(lt, b, l0, u0, l, u) && SortedAround(lt, t, l, u, l', u') {
      RearrangedAround(lt, b, t, l0, u0, l, u);
    }
  }

  /** Sorting one side of the splitting slot leaves the other side. */
  lemma SideSorted<T(!new)>(lt: Compare<T>, b: seq<T>, t: seq<T>, l: int, u: int, i: int, l': int, u': int)
    requires Rearranged(b, t, l', u') && 0 <= l < i <= u < |b|
    requires (l' == l && u' == i - 1) || (l' == i + 1 && u' == u)
    ensures Rearranged(b, t, l, u)
    ensures StrictWeak(lt) && SplitAt(lt, b, l, u, i) && Sorted(lt, t, l', u')
        ==> if l' == l then SortedAround(lt, t, l, u, i + 1, u) else SortedAround(lt, t, l, u, l, i - 1)
  {
    Widened(b, t, l', u', l, u);
    if StrictWeak(lt) && SplitAt(lt, b, l, u, i) && Sorted(lt, t, l', u') {
      RearrangedSplit(lt, b, t, l, u, i, l', u');
      if l' == l {
        OneSideDone(lt, t, l, u, i, i + 1, u);
      } else {
        OneSideDone(lt, t, l, u, i, l, i - 1);
      }
    }
  }

  /** Sorts the smaller side of the pivot by a call and leaves the larger one, the slots l' to u'. */
  method SortSmaller<T(!new)>(a: array<T>, lt: Compare<T>, l: nat, u: nat, i: nat)
    returns (ok: bool, l': nat, u': nat, ghost d: nat)
    requires l < i <= u < a.Length && l + 3 <= u
    requires StrictWeak(lt) ==> SplitAt(lt, a[..], l, u, i)
    modifies a
    ensures l <= l' <= u' + 1 <= u + 1 && u' - l' < u - l
    ensures Rearranged(old(a[..]), a[..], l, u)
    ensures StrictWeak(lt) ==> ok && SortedAround(lt, a[..], l, u, l', u')
    ensures Shallow(d, (u - l) / 2)
    decreases u - l + 1, 0
  {
    ghost var b := a[..];
    if i - l < u - i {
      ok, d := AuxSort(a, lt, l, i - 1);
      l', u' := i + 1, u;
      SideSorted(lt, b, a[..], l, u, i, l, i - 1);
    } else {
      ok, d := AuxSort(a, lt, i + 1, u);
      l', u' := l, i - 1;
      SideSorted(lt, b, a[..], l, u, i, i + 1, u);
    }
  }

  /**
   Sorts the slots `l0` to `u0`. Only the smaller side of the pivot is sorted by a call, the larger one by the next
   round of the loop, so that `depth`, the deepest nesting of calls below this one, is at most the logarithm of the
   number of slots.
   */
  method AuxSort<T(!new)>(a: array<T>, lt: Compare<T>, l0: nat, u0: int) returns (ok: bool, ghost depth: nat)
    requires l0 <= u0 + 1 <= a.Length
    modifies a
    ensures Rearranged(old(a[..]), a[..], l0, u0)
    ensures StrictWeak(lt) ==> ok && Sorted(lt, a[..], l0, u0)
    ensures Shallow(depth, u0 - l0 + 1)
    decreases u0 - l0 + 1, 1
  {
    ghost var s := a[..];
    var l, u := l0, u0;
    ok, depth := true, 0;
    while l < u
      invariant l0 <= l <= u + 1 <= u0 + 1
      invariant ok
      invariant Rearranged(s, a[..], l0, u0)
      invariant StrictWeak(lt) ==> SortedAround(lt, a[..], l0, u0, l, u)
      invariant Shallow(depth, u0 - l0 + 1)
      decreases u - l
    {
      ghost var b := a[..];
      var done, i;
      ok, done, i := SplitRange(a, lt, l, u);
      RoundKeeps(lt, s, b, a[..], l0, u0, l, u, l, if done then l - 1 else u);
      if !ok || done {
        break;
      }
      b := a[..];
      ghost var d;
      var l', u';
      ok, l', u', d := SortSmaller(a, lt, l, u, i);
      RoundKeeps(lt, s, b, a[..], l0, u0, l, u, l', u');
      NestedShallow(depth, u0 - l0 + 1, d, (u - l) / 2);
      l, u, depth := l', u', Deeper(depth, d);
      if !ok {
        return;
      }
    }
  }

  /** `table.sort`: the slots 1 to n of a table with n elements. */
  method Sort<T(!new)>(a: array<T>, lt: Compare<T>) returns (ok: bool, ghost depth: nat)
    requires a.Length > 0
    modifies a
    ensures a[0] == old(a[0]) && multiset(a[1..]) == multiset(old(a[1..]))
    ensures StrictWeak(lt) ==> ok && Sorted(lt, a[..], 1, a.Length - 1)
    ensures a.Length > 1 ==> Power2(depth) <= a.Length - 1
  {
    ok, depth := AuxSort(a, lt, 1, a.Length - 1);
    assert a[..][1..a.Length] == a[1..];
    assert old(a[..])[1..a.Length] == old(a[1..]);
  }
}
