/**
 The binary heap of libuv, part 2: insertion and removal.
 */
module BinaryHeap {
  import opened HeapShape
  import RbShape

  type Less = (Id, Id) -> bool

  predicate Asymmetric(less: Less, a: Id, b: Id) { less(a, b) ==> !less(b, a) }
  predicate Carries(less: Less, a: Id, b: Id, c: Id) { !less(a, b) && !less(b, c) ==> !less(a, c) }

  /** A strict weak order. */
  ghost predicate Order(less: Less) {
    (forall a, b :: Asymmetric(less, a, b)) && (forall a, b, c :: Carries(less, a, b, c))
  }

  // ---------- the path to a position ----------

  function Shr(n: nat, k: nat): nat { if k == 0 then n else Shr(n, k - 1) / 2 }

  /** The low `k` bits of `n` in reverse. */
  function Reversed(n: nat, k: nat): nat { if k == 0 then 0 else 2 * Reversed(n, k - 1) + Shr(n, k - 1) % 2 }

  /** The bits of a position, read from the top, and their number. */
  method Path(n: nat) returns (path: nat, k: nat)
    requires n >= 1
    ensures Shr(n, k) == 1 && path == Reversed(n, k)
  {
    var m := n;
    path, k := 0, 0;
    while m >= 2
      invariant m == Shr(n, k) >= 1 && path == Reversed(n, k)
      decreases m
    {
      path := path * 2 + m % 2;
      k := k + 1;
      m := m / 2;
    }
  }

  lemma {:induction false} ShrBelow(n: nat, k: nat)
    ensures Shr(n, k) <= n && (k > 0 && n > 0 ==> Shr(n, k) < n)
  {
    if k > 0 { ShrBelow(n, k - 1); }
  }

  // ---------- heap order ----------

  /** The node at `i` is not below its parent. */
  predicate Edge(less: Less, h: seq<Id>, i: nat) { !less(At(h, i), At(h, i / 2)) }

  ghost predicate Ordered(less: Less, h: seq<Id>) {
    forall i: nat {:trigger Edge(less, h, i)} :: 2 <= i <= |h| ==> Edge(less, h, i)
  }

  /** In order except that the node at `i` may be below its parent; its children are not below that parent. */
  ghost predicate OrderedUp(less: Less, h: seq<Id>, i: nat) {
    && (forall j: nat {:trigger Edge(less, h, j)} :: 2 <= j <= |h| && j != i ==> Edge(less, h, j))
    && (forall j: nat {:trigger Skips(less, h, j)} :: 2 <= j <= |h| && j / 2 == i && i >= 2 ==> Skips(less, h, j))
  }

  /** The node at `i` is not below its grandparent. */
  predicate Skips(less: Less, h: seq<Id>, i: nat) { !less(At(h, i), At(h, i / 4)) }

  /** In order except around the node at `i`; its children are not below its parent. */
  ghost predicate OrderedDown(less: Less, h: seq<Id>, i: nat) {
    && (forall j: nat {:trigger Edge(less, h, j)} :: 2 <= j <= |h| && j != i && j / 2 != i ==> Edge(less, h, j))
    && (forall j: nat {:trigger Skips(less, h, j)} :: 2 <= j <= |h| && j / 2 == i && i >= 2 ==> Skips(less, h, j))
  }

  /** A node below its parent changes places with it. */
  lemma UpStep(less: Less, h: seq<Id>, i: nat)
    requires Order(less) && OrderedUp(less, h, i) && 2 <= i <= |h| && less(At(h, i), At(h, i / 2))
    ensures OrderedUp(less, Swapped(h, i), i / 2)
  {
    var h', q := Swapped(h, i), i / 2;
    SwappedAt(h, i, i);
    forall j: nat | 2 <= j <= |h'| && j != q ensures Edge(less, h', j) {
      SwappedAt(h, i, j);
      SwappedAt(h, i, j / 2);
      if j == i {
        assert Asymmetric(less, At(h, i), At(h, q));
      } else if j / 2 == i {
        assert Skips(less, h, j) && j / 4 == q;
      } else if j / 2 == q {
        assert Edge(less, h, j);
        assert Asymmetric(less, At(h, i), At(h, q));
        assert Carries(less, At(h, j), At(h, q), At(h, i));
      } else {
        assert Edge(less, h, j);
      }
    }
    forall j: nat | 2 <= j <= |h'| && j / 2 == q && q >= 2 ensures Skips(less, h', j) {
      SwappedAt(h, i, j);
      SwappedAt(h, i, j / 4);
      assert Edge(less, h, q) && j / 4 == q / 2;
      if j != i {
        assert Edge(less, h, j);
        assert Carries(less, At(h, j), At(h, q), At(h, q / 2));
      }
    }
  }

  /** A node above its smallest child `c` changes places with it. */
  lemma DownStep(less: Less, h: seq<Id>, c: nat)
    requires Order(less) && 2 <= c <= |h| && OrderedDown(less, h, c / 2) && less(At(h, c), At(h, c / 2))
    requires forall j: nat {:trigger At(h, j)} :: 2 <= j <= |h| && j / 2 == c / 2 ==> !less(At(h, j), At(h, c))
    ensures OrderedDown(less, Swapped(h, c), c)
  {
    var h', i := Swapped(h, c), c / 2;
    forall j: nat | 2 <= j <= |h'| && j != c && j / 2 != c ensures Edge(less, h', j) {
      SwappedAt(h, c, j);
      SwappedAt(h, c, j / 2);
      if j == i {
        assert Skips(less, h, c) && c / 4 == i / 2;
      } else if j / 2 == i {
        assert !less(At(h, j), At(h, c));
      } else {
        assert Edge(less, h, j);
      }
    }
    forall j: nat | 2 <= j <= |h'| && j / 2 == c && c >= 2 ensures Skips(less, h', j) {
      SwappedAt(h, c, j);
      SwappedAt(h, c, j / 4);
      assert Edge(less, h, j) && j / 4 == i;
    }
  }

  /** A node that is not above its children: only its parent is left to compare with. */
  lemma DownDone(less: Less, h: seq<Id>, i: nat)
    requires OrderedDown(less, h, i) && 1 <= i <= |h|
    requires 2 * i <= |h| ==> !less(At(h, 2 * i), At(h, i))
    requires 2 * i + 1 <= |h| ==> !less(At(h, 2 * i + 1), At(h, i))
    ensures OrderedUp(less, h, i)
  {
    forall j: nat | 2 <= j <= |h| && j != i ensures Edge(less, h, j) {
      if j / 2 == i { assert j == 2 * i || j == 2 * i + 1; }
    }
  }

  /** In a heap the first node is below no other. */
  lemma {:induction false} MinimumFirst(less: Less, h: seq<Id>, i: nat)
    requires Order(less) && Ordered(less, h) && 1 <= i <= |h|
    ensures !less(At(h, i), At(h, 1))
  {
    if i == 1 {
      assert Asymmetric(less, At(h, 1), At(h, 1));
    } else {
      MinimumFirst(less, h, i / 2);
      assert Edge(less, h, i);
      assert Carries(less, At(h, i), At(h, i / 2), At(h, 1));
    }
  }

  // ---------- swapping ----------

  /** The two nodes exchange their fields. */
  function Exchange(m: Links, p: Id, c: Id): Links {
    var m1 := SetParent(SetChild(SetChild(m, p, L, Child(m, c, L)), p, R, Child(m, c, R)), p, Parent(m, c));
    var m2 := SetParent(SetChild(SetChild(m1, c, L, Child(m, p, L)), c, R, Child(m, p, R)), c, Parent(m, p));
    var m3 := SetParent(m2, p, c);
    SetChild(m3, c, if Child(m3, c, L) == c then L else R, p)
  }

  function Adopt(m: Links, n: Id, p: Id): Links { if n != 0 then SetParent(m, n, p) else m }

  /** The pointer to `p` in its former parent `g` is redirected. */
  function Redirect(m: Links, g: Id, p: Id, c: Id): Links {
    if g == 0 then m.(min := c) else if Child(m, g, L) == p then SetChild(m, g, L, c) else SetChild(m, g, R, c)
  }

  function SwapLinks(m: Links, p: Id, c: Id): Links {
    var s := if Child(m, p, L) == c then L else R;
    var m4 := Exchange(m, p, c);
    var m5 := Adopt(m4, Child(m4, c, Other(s)), c);
    var m7 := Adopt(Adopt(m5, Child(m5, p, L), p), Child(m5, p, R), p);
    Redirect(m7, Parent(m7, c), p, c)
  }

  lemma SwapEffects(m: Links, h: seq<Id>, i: nat)
    requires Rep(m, h) && 2 <= i <= |h|
    ensures SwappedLinks(m, SwapLinks(m, At(h, i / 2), At(h, i)), At(h, i / 2), At(h, i), SideOf(i), At(h, i / 4))
  {
    var q := i / 2;
    var p, c, g, s := At(h, q), At(h, i), At(h, i / 4), SideOf(i);
    assert LinksAt(m, h, q) && LinksAt(m, h, i) && q / 2 == i / 4;
    if g != 0 { assert LinksAt(m, h, i / 4); }
    assert Child(m, p, s) == c && Child(m, p, Other(s)) != c;
    Neighbours(h, i);
    SwapDone(m, p, c, s, g);
  }

  lemma OneIsChild(m: Links, h: seq<Id>, i: nat)
    requires Rep(m, h) && 2 <= i <= |h|
    ensures var p, c := At(h, i / 2), At(h, i); p != c && (Child(m, p, L) == c) != (Child(m, p, R) == c)
  {
    assert LinksAt(m, h, i / 2) && LinksAt(m, h, i);
  }

  lemma Neighbours(h: seq<Id>, i: nat)
    requires Distinct(h) && 2 <= i <= |h| && At(h, i) != 0 && At(h, i / 2) != 0
    ensures var p, c, g := At(h, i / 2), At(h, i), At(h, i / 4);
      var o := if i % 2 == 0 then i + 1 else i - 1;
      && p != c && g != p && g != c && At(h, o) != p && At(h, o) != c && (g != 0 ==> At(h, o) != g)
      && At(h, 2 * i) != p && At(h, 2 * i) != c && At(h, 2 * i + 1) != p && At(h, 2 * i + 1) != c
      && (At(h, o) != 0 ==> At(h, o) != At(h, 2 * i) && At(h, o) != At(h, 2 * i + 1))
      && (At(h, 2 * i) != 0 ==> At(h, 2 * i) != At(h, 2 * i + 1))
      && (g != 0 ==>
            && (At(h, 2 * (i / 4)) == p <==> (i / 2) % 2 == 0)
            && (At(h, 2 * (i / 4) + 1) == p <==> (i / 2) % 2 == 1))
  {
  }

  /** The distances between the nodes that a swap touches. */
  predicate Near(m: Links, p: Id, c: Id, s: Side, g: Id) {
    var sib, cl, cr := Child(m, p, Other(s)), Child(m, c, L), Child(m, c, R);
    && p != 0 && c != 0 && p != c && g != p && g != c && Child(m, p, s) == c && Parent(m, p) == g && Parent(m, c) == p
    && sib != p && sib != c && cl != p && cl != c && cr != p && cr != c
    && (sib != 0 ==> sib != cl && sib != cr)
    && (g != 0 ==> (Child(m, g, L) == p) != (Child(m, g, R) == p))
  }

  lemma Exchanged(m: Links, p: Id, c: Id, s: Side, g: Id)
    requires Near(m, p, c, s, g)
    ensures var m' := Exchange(m, p, c);
      && m'.min == m.min && Parent(m', p) == c && Parent(m', c) == g
      && Child(m', p, L) == Child(m, c, L) && Child(m', p, R) == Child(m, c, R)
      && Child(m', c, s) == p && Child(m', c, Other(s)) == Child(m, p, Other(s))
      && (forall n :: n != p && n != c ==> Parent(m', n) == Parent(m, n))
      && (forall n, k :: n != p && n != c ==> Child(m', n, k) == Child(m, n, k))
  {
  }

  lemma SwapDone(m: Links, p: Id, c: Id, s: Side, g: Id)
    requires Near(m, p, c, s, g) && (s.L? <==> Child(m, p, L) == c)
    ensures SwappedLinks(m, SwapLinks(m, p, c), p, c, s, g)
  {
    Exchanged(m, p, c, s, g);
    var m4 := Exchange(m, p, c);
    var sib, cl, cr := Child(m, p, Other(s)), Child(m, c, L), Child(m, c, R);
    var m5 := Adopt(m4, sib, c);
    var m7 := Adopt(Adopt(m5, cl, p), cr, p);
    Adopted(m4, m7, p, c, sib, cl, cr);
    Redirected(m7, g, p, c);
    assert SwapLinks(m, p, c) == Redirect(m7, g, p, c);
  }

  lemma Adopted(m4: Links, m7: Links, p: Id, c: Id, sib: Id, cl: Id, cr: Id)
    requires m7 == Adopt(Adopt(Adopt(m4, sib, c), cl, p), cr, p) && (sib != 0 ==> sib != cl && sib != cr)
    ensures m7.min == m4.min && m7.child == m4.child
    ensures forall n ::
        n != 0 ==> Parent(m7, n) == if n == sib then c else if n == cl || n == cr then p else Parent(m4, n)
  {
  }

  lemma Redirected(m: Links, g: Id, p: Id, c: Id)
    requires g != 0 ==> (Child(m, g, L) == p) != (Child(m, g, R) == p)
    ensures var m' := Redirect(m, g, p, c);
      && m'.parent == m.parent && m'.min == (if g == 0 then c else m.min)
      && forall n, k :: n != 0 ==> Child(m', n, k) == if n == g && Child(m, n, k) == p then c else Child(m, n, k)
  {
    var m' := Redirect(m, g, p, c);
    forall n: Id, k: Side | n != 0 ensures Child(m', n, k) == if n == g && Child(m, n, k) == p then c
        else Child(m, n, k) {
      assert k == L || k == R;
    }
  }

  // ---------- linking in and out ----------

  /** A new node linked in behind the last position. */
  lemma AppendRep(m: Links, m': Links, h: seq<Id>, n: Id)
    requires Rep(m, h) && n != 0 && n !in h
    requires var N := |h| + 1;
      var p := At(h, N / 2);
      && Parent(m', n) == p && Child(m', n, L) == 0 && Child(m', n, R) == 0
      && m'.min == (if p == 0 then n else m.min) && (p != 0 ==> Child(m', p, SideOf(N)) == n)
      && (forall x :: x != n ==> Parent(m', x) == Parent(m, x))
      && (forall x, k :: x != n && !(x == p && k == SideOf(N)) && x != 0 ==> Child(m', x, k) == Child(m, x, k))
    ensures Rep(m', h + [n])
  {
    var N, h' := |h| + 1, h + [n];
    var p := At(h, N / 2);
    if |h| > 0 { assert LinksAt(m, h, N / 2); }
    forall j: nat | 1 <= j <= |h'| ensures LinksAt(m', h', j) {
      if j <= |h| {
        assert LinksAt(m, h, j) && At(h', j) == At(h, j) && At(h', j / 2) == At(h, j / 2);
        assert At(h', 2 * j) == if 2 * j == N then n else At(h, 2 * j);
        assert At(h', 2 * j + 1) == if 2 * j + 1 == N then n else At(h, 2 * j + 1);
        assert At(h, j) == p ==> j == N / 2;
      }
    }
  }

  /** The last node is unlinked. */
  lemma ChopRep(m: Links, m': Links, h: seq<Id>)
    requires Rep(m, h) && h != []
    requires var N := |h|;
      var p := At(h, N / 2);
      && m'.parent == m.parent && m'.min == (if N == 1 then 0 else m.min) && (N > 1 ==> Child(m', p, SideOf(N)) == 0)
      && (forall x, k :: !(x == p && k == SideOf(N)) && x != 0 ==> Child(m', x, k) == Child(m, x, k))
    ensures Rep(m', h[..|h|-1])
  {
    var N, h' := |h|, h[..|h|-1];
    var p := At(h, N / 2);
    forall j: nat | 1 <= j <= |h'| ensures LinksAt(m', h', j) {
      assert LinksAt(m, h, j) && At(h', j) == At(h, j) && At(h', j / 2) == At(h, j / 2);
      assert At(h', 2 * j) == if 2 * j == N then 0 else At(h, 2 * j);
      assert At(h', 2 * j + 1) == if 2 * j + 1 == N then 0 else At(h, 2 * j + 1);
      assert At(h, j) == p ==> j == N / 2;
    }
  }

  /** The assignments that put `x` in the place of `n`. */
  function ReplaceLinks(m: Links, n: Id, x: Id): Links {
    var m1 := SetParent(SetChild(SetChild(m, x, L, Child(m, n, L)), x, R, Child(m, n, R)), x, Parent(m, n));
    var m2 := Adopt(Adopt(m1, Child(m1, x, L), x), Child(m1, x, R), x);
    Redirect(m2, Parent(m2, n), n, x)
  }

  lemma ReplaceRep(m: Links, h: seq<Id>, i: nat, x: Id)
    requires Rep(m, h) && 1 <= i <= |h| && x != 0 && x !in h
    ensures Rep(ReplaceLinks(m, At(h, i), x), h[i-1 := x])
  {
    var n, g, m', h' := At(h, i), At(h, i / 2), ReplaceLinks(m, At(h, i), x), h[i-1 := x];
    assert LinksAt(m, h, i);
    if i > 1 { assert LinksAt(m, h, i / 2); }
    ReplaceEffects(m, n, x, g);
    forall j: nat | 1 <= j <= |h'| ensures LinksAt(m', h', j) { ReplaceAt(m, m', h, i, x, j); }
  }

  ghost predicate ReplacedLinks(m: Links, m': Links, n: Id, x: Id, g: Id) {
    && m'.min == (if g == 0 then x else m.min)
    && Child(m', x, L) == Child(m, n, L) && Child(m', x, R) == Child(m, n, R) && Parent(m', x) == g
    && (forall y :: y != 0 && y != x ==>
        Parent(m', y) == if y == Child(m, n, L) || y == Child(m, n, R) then x else Parent(m, y))
    && (forall y, k ::
        y != 0 && y != x ==> Child(m', y, k) == if y == g && Child(m, y, k) == n then x else Child(m, y, k))
  }

  lemma ReplaceEffects(m: Links, n: Id, x: Id, g: Id)
    requires n != 0 && x != 0 && n != x && g != x && g != n && Parent(m, n) == g && Child(m, n, L) != x
        && Child(m, n, R) != x
    requires Child(m, n, L) != n && Child(m, n, R) != n
    requires g != 0 ==> (Child(m, g, L) == n) != (Child(m, g, R) == n)
    ensures ReplacedLinks(m, ReplaceLinks(m, n, x), n, x, g)
  {
    var m1 := SetParent(SetChild(SetChild(m, x, L, Child(m, n, L)), x, R, Child(m, n, R)), x, Parent(m, n));
    Copied(m, n, x);
    var m2 := Adopt(Adopt(m1, Child(m, n, L), x), Child(m, n, R), x);
    Adopted(m1, m2, x, x, 0, Child(m, n, L), Child(m, n, R));
    Redirected(m2, g, n, x);
  }

  lemma Copied(m: Links, n: Id, x: Id)
    ensures var m1 := SetParent(SetChild(SetChild(m, x, L, Child(m, n, L)), x, R, Child(m, n, R)), x, Parent(m, n));
      && m1.min == m.min && Child(m1, x, L) == Child(m, n, L) && Child(m1, x, R) == Child(m, n, R)
          && Parent(m1, x) == Parent(m, n)
      && (forall y :: y != x ==> Parent(m1, y) == Parent(m, y))
      && (forall y, k :: y != x ==> Child(m1, y, k) == Child(m, y, k))
  {
  }

  lemma ReplaceAt(m: Links, m': Links, h: seq<Id>, i: nat, x: Id, j: nat)
    requires Rep(m, h) && 1 <= i <= |h| && x != 0 && x !in h && 1 <= j <= |h|
    requires ReplacedLinks(m, m', At(h, i), x, At(h, i / 2))
    ensures LinksAt(m', h[i-1 := x], j)
  {
    var h' := h[i-1 := x];
    assert LinksAt(m, h, j) && LinksAt(m, h, i);
    assert At(h', j / 2) == if j / 2 == i then x else At(h, j / 2);
    assert At(h', 2 * j) == if 2 * j == i then x else At(h, 2 * j);
    assert At(h', 2 * j + 1) == if 2 * j + 1 == i then x else At(h, 2 * j + 1);
    if j != i {
      var y := At(h, j);
      assert At(h', j) == y && y != x;
      assert y == At(h, 2 * i) <==> j == 2 * i;
      assert y == At(h, 2 * i + 1) <==> j == 2 * i + 1;
      assert At(h, 2 * j) == At(h, i) <==> 2 * j == i;
      assert At(h, 2 * j + 1) == At(h, i) <==> 2 * j + 1 == i;
      assert y == At(h, i / 2) <==> j == i / 2;
    }
  }

  class Heap {
    const less: Less
    var min: Id
    var nelts: nat
    var child: map<Slot, Id>
    var parent: map<Id, Id>
    ghost var h: seq<Id>

    constructor (less: Less)
      requires Order(less)
      ensures Valid() && h == [] && this.less == less
    {
      this.less := less;
      min, nelts := 0, 0;
      child, parent := map[], map[];
      h := [];
    }

    ghost function Now(): Links reads this { Links(min, child, parent) }

    /** A complete tree of `nelts` linked nodes in level order `h`, no node below its parent. */
    ghost predicate Valid()
      reads this
    {
      Order(less) && Shape() && Ordered(less, h)
    }

    ghost predicate Shape()
      reads this
    {
      Rep(Now(), h) && nelts == |h|
    }

    function Kid(n: Id, s: Side): Id reads this { RbShape.Get(child, RbShape.Slot(n, s)) }
    function Up(n: Id): Id reads this { RbShape.Get(parent, n) }

    method SetKid(n: Id, s: Side, x: Id)
      modifies this`child
      ensures Now() == SetChild(old(Now()), n, s, x)
    {
      child := child[RbShape.Slot(n, s) := x];
    }

    method AdoptBy(n: Id, p: Id)
      modifies this`parent
      ensures Now() == Adopt(old(Now()), n, p)
    {
      if n != 0 { parent := parent[n := p]; }
    }

    method RedirectTo(g: Id, p: Id, c: Id)
      modifies this`min, this`child
      ensures Now() == Redirect(old(Now()), g, p, c)
    {
      if g == 0 { min := c; }
      else if Kid(g, L) == p { SetKid(g, L, c); }
      else { SetKid(g, R, c); }
    }

    /** Swap parent with child. */
    method Swap(p: Id, c: Id, ghost i: nat)
      requires Rep(Now(), h) && 2 <= i <= |h| && p == At(h, i / 2) && c == At(h, i)
      modifies this`min, this`child, this`parent, this`h
      ensures Rep(Now(), h) && h == Swapped(old(h), i)
    {
      ghost var m := Now();
      SwapEffects(m, h, i);
      SwapRep(m, SwapLinks(m, p, c), h, i);
      OneIsChild(m, h, i);
      Relink(p, c);
      h := Swapped(h, i);
    }

    /** What a swap does to the links. */
    method Relink(p: Id, c: Id)
      requires p != c && (Kid(p, L) == c) != (Kid(p, R) == c)
      modifies this`min, this`child, this`parent
      ensures Now() == SwapLinks(old(Now()), p, c)
    {
      var sibling := ExchangeFields(p, c);
      AdoptBy(sibling, c);
      AdoptBy(Kid(p, L), p);
      AdoptBy(Kid(p, R), p);
      RedirectTo(Up(c), p, c);
    }

    /** The two nodes exchange their fields; the answer is the other child of `c`. */
    method ExchangeFields(p: Id, c: Id) returns (sibling: Id)
      requires p != c && (Kid(p, L) == c) != (Kid(p, R) == c)
      modifies this`child, this`parent
      ensures Now() == Exchange(old(Now()), p, c)
      ensures sibling == Child(Now(), c, if old(Kid(p, L)) == c then R else L)
    {
      var pl, pr, pp := Kid(p, L), Kid(p, R), Up(p);
      var cl, cr, cp := Kid(c, L), Kid(c, R), Up(c);
      child := child[RbShape.Slot(p, L) := cl][RbShape.Slot(p, R) := cr];
      parent := parent[p := cp];
      child := child[RbShape.Slot(c, L) := pl][RbShape.Slot(c, R) := pr];
      parent := parent[c := pp];
      parent := parent[p := c];
      if Kid(c, L) == c {
        SetKid(c, L, p);
        sibling := Kid(c, R);
      } else {
        SetKid(c, R, p);
        sibling := Kid(c, L);
      }
    }

    /** Walk up from position `i` until the node is not below its parent. */
    method SiftUp(n: Id, ghost i0: nat)
      requires Order(less) && Shape() && 1 <= i0 <= |h| && n == At(h, i0) && OrderedUp(less, h, i0)
      modifies this`min, this`child, this`parent, this`h
      ensures Valid() && multiset(h) == multiset(old(h))
    {
      ghost var i := i0;
      while true
        invariant Shape() && 1 <= i <= |h| && n == At(h, i) && OrderedUp(less, h, i) && multiset(h) == multiset(old(h))
        decreases i
      {
        assert LinksAt(Now(), h, i);
        if Up(n) == 0 || !less(n, Up(n)) { break; }
        assert i >= 2;
        UpStep(less, h, i);
        SwappedAt(h, i, i / 2);
        Swap(Up(n), n, i);
        i := i / 2;
      }
      if i >= 2 {
        assert LinksAt(Now(), h, i / 2);
        assert Edge(less, h, i);
      }
    }

    /** Walk down from position `i` until the node is not above a child. */
    method SiftDown(n: Id, ghost i0: nat) returns (ghost i: nat)
      requires Order(less) && Shape() && 1 <= i0 <= |h| && n == At(h, i0) && OrderedDown(less, h, i0)
      modifies this`min, this`child, this`parent, this`h
      ensures Shape() && 1 <= i <= |h| && n == At(h, i) && OrderedUp(less, h, i) && multiset(h) == multiset(old(h))
    {
      i := i0;
      while true
        invariant Shape() && 1 <= i <= |h| && n == At(h, i) && OrderedDown(less, h, i)
            && multiset(h) == multiset(old(h))
        decreases |h| - i
      {
        assert LinksAt(Now(), h, i);
        var smallest := n;
        if Kid(n, L) != 0 && less(Kid(n, L), smallest) { smallest := Kid(n, L); }
        if Kid(n, R) != 0 && less(Kid(n, R), smallest) { smallest := Kid(n, R); }
        Positive(h, i, Now());
        if smallest == n {
          DownDone(less, h, i);
          break;
        }
        ghost var c := if smallest == At(h, 2 * i) then 2 * i else 2 * i + 1;
        Chosen(less, At(h, 2 * i), At(h, 2 * i + 1), n);
        Smallest(less, h, i, c);
        DownStep(less, h, c);
        SwappedAt(h, c, c);
        Swap(n, smallest, c);
        i := c;
      }
    }

    /** The node at position `n` and, if there is one, its parent. */
    method Locate(n: nat) returns (node: Id, p: Id)
      requires Shape() && 1 <= n <= |h| + 1
      ensures p == At(h, n / 2) && (n <= |h| ==> node == At(h, n))
    {
      var path, k := Path(n);
      ShrBelow(n, k);
      node, p := min, 0;
      while k > 0
        invariant path == Reversed(n, k) && 1 <= Shr(n, k) <= n && (Shr(n, k) <= |h| ==> node == At(h, Shr(n, k)))
            && p == At(h, Shr(n, k) / 2)
        invariant k > 0 ==> Shr(n, k) < n
      {
        ghost var i := Shr(n, k);
        assert LinksAt(Now(), h, i);
        p := node;
        node := if path % 2 == 1 then Kid(node, R) else Kid(node, L);
        path := path / 2;
        k := k - 1;
        assert Shr(n, k) == 2 * i || Shr(n, k) == 2 * i + 1;
        ShrBelow(n, k);
      }
    }

    /** Insert a node behind the last position and let it rise. */
    method Insert(n: Id)
      requires Valid() && n != 0 && n !in h
      modifies this
      ensures Valid() && multiset(h) == multiset(old(h)) + multiset{n}
    {
      ghost var m := Now();
      var N := nelts + 1;
      var node, p := Locate(N);
      child := child[RbShape.Slot(n, L) := 0][RbShape.Slot(n, R) := 0];
      parent := parent[n := p];
      assert p != n;
      if p != 0 { SetKid(p, if N % 2 == 0 then L else R, n); } else { min := n; }
      AppendRep(m, Now(), h, n);
      AppendOrder(less, h, n);
      nelts := nelts + 1;
      h := h + [n];
      SiftUp(n, |h|);
    }

    /** Unlink the node at the last position. */
    method UnlinkLast() returns (last: Id)
      requires Shape() && h != []
      modifies this`min, this`child, this`nelts, this`h
      ensures Shape() && h == old(h)[..|old(h)|-1] && last == old(h)[|old(h)|-1] && last != 0 && last !in h
    {
      ghost var m := Now();
      var N := nelts;
      var p;
      last, p := Locate(N);
      assert LinksAt(m, h, N);
      if N > 1 { assert LinksAt(m, h, N / 2); }
      if p != 0 { SetKid(p, if N % 2 == 0 then L else R, 0); } else { min := 0; }
      ChopRep(m, Now(), h);
      h := h[..N-1];
      nelts := nelts - 1;
    }

    /** Remove the node at position `i`. */
    method Remove(node: Id, ghost i: nat)
      requires Valid() && 1 <= i <= |h| && node == At(h, i)
      modifies this
      ensures Valid() && multiset(h) + multiset{node} == multiset(old(h))
    {
      ghost var h0 := h;
      var last := UnlinkLast();
      if last == node {
        assert h0 == h + [last];
        ChopOrder(less, h0);
        return;
      }
      assert At(h, i) == node;
      ReplaceNode(node, last, i);
      ReplaceOrder(less, h0, i);
      ghost var j := SiftDown(last, i);
      SiftUp(last, j);
    }

    /** Put the unlinked node `x` in the place of the node at position `i`. */
    method ReplaceNode(node: Id, x: Id, ghost i: nat)
      requires Rep(Now(), h) && 1 <= i <= |h| && node == At(h, i) && x != 0 && x !in h
      modifies this`min, this`child, this`parent, this`h
      ensures Rep(Now(), h) && h == old(h)[i-1 := x]
    {
      ghost var m := Now();
      ReplaceRep(m, h, i, x);
      child := child[RbShape.Slot(x, L) := Kid(node, L)][RbShape.Slot(x, R) := Kid(node, R)];
      parent := parent[x := Up(node)];
      AdoptBy(Kid(x, L), x);
      AdoptBy(Kid(x, R), x);
      RedirectTo(Up(node), node, x);
      h := h[i-1 := x];
    }

    /** The minimum, or null. */
    method Min() returns (r: Id)
      requires Valid()
      ensures if h == [] then r == 0 else r in h && forall x :: x in h ==> !less(x, r)
    {
      r := min;
      forall x | x in h ensures !less(x, r) {
        var k :| 0 <= k < |h| && h[k] == x;
        assert At(h, k + 1) == x;
        MinimumFirst(less, h, k + 1);
      }
    }

    /** Remove the minimum; nothing happens to an empty heap. */
    method Dequeue()
      requires Valid()
      modifies this
      ensures Valid()
      ensures if old(h) == [] then h == [] else multiset(h) + multiset{old(h)[0]} == multiset(old(h))
    {
      if nelts == 0 { return; }
      Remove(min, 1);
    }
  }

  lemma Positive(h: seq<Id>, i: nat, m: Links)
    requires Rep(m, h)
    ensures 1 <= i <= |h| ==> At(h, i) != 0
    ensures (At(h, 2 * i) != 0 <==> 1 <= 2 * i <= |h|) && (At(h, 2 * i + 1) != 0 <==> 2 * i + 1 <= |h|)
  {
    if 1 <= i <= |h| { assert LinksAt(m, h, i); }
    if 1 <= 2 * i <= |h| { assert LinksAt(m, h, 2 * i); }
    if 2 * i + 1 <= |h| { assert LinksAt(m, h, 2 * i + 1); }
  }

  /** Comparing one after the other finds the smaller child. */
  lemma Chosen(less: Less, a: Id, b: Id, n: Id)
    requires Order(less)
    ensures less(a, n) && less(b, a) ==> less(b, n) && !less(a, b)
    ensures !less(a, n) && less(b, n) ==> !less(a, b)
  {
    assert Asymmetric(less, b, a) && Asymmetric(less, b, n) && Asymmetric(less, a, n);
    assert Carries(less, b, n, a) && Carries(less, a, n, b);
  }

  lemma Smallest(less: Less, h: seq<Id>, i: nat, c: nat)
    requires Order(less) && i >= 1 && (c == 2 * i || c == 2 * i + 1) && c <= |h| && less(At(h, c), At(h, i))
    requires var o := if c == 2 * i then 2 * i + 1 else 2 * i; o <= |h| ==> !less(At(h, o), At(h, c))
    ensures forall j: nat {:trigger At(h, j)} :: 2 <= j <= |h| && j / 2 == c / 2 ==> !less(At(h, j), At(h, c))
  {
    assert Asymmetric(less, At(h, c), At(h, c));
    forall j: nat | 2 <= j <= |h| && j / 2 == c / 2 ensures !less(At(h, j), At(h, c)) {
      assert j == 2 * i || j == 2 * i + 1;
    }
  }

  lemma AppendOrder(less: Less, h: seq<Id>, n: Id)
    requires Ordered(less, h)
    ensures OrderedUp(less, h + [n], |h| + 1)
  {
    var h' := h + [n];
    forall j: nat | 2 <= j <= |h'| && j != |h| + 1 ensures Edge(less, h', j) {
      assert Edge(less, h, j) && At(h', j) == At(h, j) && At(h', j / 2) == At(h, j / 2);
    }
  }

  lemma ChopOrder(less: Less, h: seq<Id>)
    requires Ordered(less, h) && h != []
    ensures Ordered(less, h[..|h|-1])
  {
    var h' := h[..|h|-1];
    forall j: nat | 2 <= j <= |h'| ensures Edge(less, h', j) {
      assert Edge(less, h, j) && At(h', j) == At(h, j) && At(h', j / 2) == At(h, j / 2);
    }
  }

  lemma ReplaceOrder(less: Less, h: seq<Id>, i: nat)
    requires Order(less) && Ordered(less, h) && 1 <= i < |h|
    ensures OrderedDown(less, h[..|h|-1][i-1 := h[|h|-1]], i)
    ensures multiset(h[..|h|-1][i-1 := h[|h|-1]]) + multiset{At(h, i)} == multiset(h)
  {
    var N := |h| - 1;
    var h' := h[..N][i-1 := h[N]];
    forall j: nat | 2 <= j <= |h'| && j != i && j / 2 != i ensures Edge(less, h', j) {
      assert Edge(less, h, j) && At(h', j) == At(h, j) && At(h', j / 2) == At(h, j / 2);
    }
    forall j: nat | 2 <= j <= |h'| && j / 2 == i && i >= 2 ensures Skips(less, h', j) {
      assert Edge(less, h, j) && Edge(less, h, i) && j / 4 == i / 2;
      assert Carries(less, At(h, j), At(h, i), At(h, i / 2));
      assert At(h', j) == At(h, j) && At(h', j / 4) == At(h, j / 4);
    }
    assert h == h[..N] + [h[N]];
  }
}
