/**
 The binary heap of libuv, part 1: linked nodes and the level order they represent.
 */
module HeapShape {
  import RbShape

  type Id = nat
  type Side = RbShape.Side
  type Slot = RbShape.Slot

  const L: Side := RbShape.L
  const R: Side := RbShape.R

  function Other(s: Side): Side { RbShape.Other(s) }

  /** The minimum, the two child pointers and the parent pointer of all nodes; 0 is null. */
  datatype Links = Links(min: Id, child: map<Slot, Id>, parent: map<Id, Id>)

  function Child(m: Links, n: Id, s: Side): Id { RbShape.Get(m.child, RbShape.Slot(n, s)) }
  function Parent(m: Links, n: Id): Id { RbShape.Get(m.parent, n) }
  function SetChild(m: Links, n: Id, s: Side, x: Id): Links { m.(child := m.child[RbShape.Slot(n, s) := x]) }
  function SetParent(m: Links, n: Id, x: Id): Links { m.(parent := m.parent[n := x]) }

  /** The node at level-order position `i`, counted from 1. */
  function At(h: seq<Id>, i: nat): Id { if 1 <= i <= |h| then h[i-1] else 0 }

  /** The position of the child of `i` on side `s`. */
  function Below(i: nat, s: Side): nat { if s.L? then 2 * i else 2 * i + 1 }
  function SideOf(i: nat): Side { if i % 2 == 0 then L else R }

  predicate LinksAt(m: Links, h: seq<Id>, i: nat) {
    && At(h, i) != 0
    && Child(m, At(h, i), L) == At(h, 2 * i) && Child(m, At(h, i), R) == At(h, 2 * i + 1)
    && Parent(m, At(h, i)) == At(h, i / 2)
  }

  predicate Distinct(h: seq<Id>) { forall i, j :: 0 <= i < j < |h| ==> h[i] != h[j] }

  /** The links are those of a complete tree with the nodes of `h` in level order. */
  ghost predicate Rep(m: Links, h: seq<Id>) {
    && m.min == At(h, 1) && Distinct(h)
    && forall i: nat {:trigger LinksAt(m, h, i)} :: 1 <= i <= |h| ==> LinksAt(m, h, i)
  }

  // ---------- swapping a node with its parent ----------

  /** What the assignments of a swap do: parent `p`, its child `c` on side `s`, grandparent `g`. */
  ghost predicate SwappedLinks(m: Links, m': Links, p: Id, c: Id, s: Side, g: Id) {
    var sib, cl, cr := Child(m, p, Other(s)), Child(m, c, L), Child(m, c, R);
    && m'.min == (if g == 0 then c else m.min)
    && Child(m', p, L) == cl && Child(m', p, R) == cr && Parent(m', p) == c
    && Child(m', c, s) == p && Child(m', c, Other(s)) == sib && Parent(m', c) == g
    && (forall n :: n != 0 && n != p && n != c ==>
        Parent(m', n) == if n == sib then c else if n == cl || n == cr then p else Parent(m, n))
    && (forall n, k ::
        n != 0 && n != p && n != c ==> Child(m', n, k) == if n == g && Child(m, n, k) == p then c else Child(m, n, k))
  }

  function Swapped(h: seq<Id>, i: nat): seq<Id>
    requires 2 <= i <= |h|
  {
    h[i-1 := At(h, i / 2)][i/2-1 := At(h, i)]
  }

  lemma SwappedAt(h: seq<Id>, i: nat, j: nat)
    requires 2 <= i <= |h|
    ensures At(Swapped(h, i), j) == if j == i then At(h, i / 2) else if j == i / 2 then At(h, i) else At(h, j)
    ensures |Swapped(h, i)| == |h| && multiset(Swapped(h, i)) == multiset(h)
  {
  }

  lemma SwapRep(m: Links, m': Links, h: seq<Id>, i: nat)
    requires Rep(m, h) && 2 <= i <= |h| && SwappedLinks(m, m', At(h, i / 2), At(h, i), SideOf(i), At(h, i / 4))
    ensures Rep(m', Swapped(h, i))
  {
    var h', q := Swapped(h, i), i / 2;
    assert LinksAt(m, h, q) && LinksAt(m, h, i);
    forall j: nat | 1 <= j <= |h'| ensures LinksAt(m', h', j) {
      SwapAt(m, m', h, i, j);
    }
    SwappedAt(h, i, 1);
    DistinctSwap(h, i);
    if q == 1 { assert i / 4 == 0; } else { assert i / 4 >= 1; assert LinksAt(m, h, i / 4); }
  }

  lemma DistinctSwap(h: seq<Id>, i: nat)
    requires 2 <= i <= |h| && Distinct(h)
    ensures Distinct(Swapped(h, i))
  {
  }

  lemma SwapAt(m: Links, m': Links, h: seq<Id>, i: nat, j: nat)
    requires Rep(m, h) && 2 <= i <= |h| && 1 <= j <= |h|
    requires SwappedLinks(m, m', At(h, i / 2), At(h, i), SideOf(i), At(h, i / 4))
    ensures LinksAt(m', Swapped(h, i), j)
  {
    var q := i / 2;
    assert LinksAt(m, h, j) && LinksAt(m, h, q) && LinksAt(m, h, i);
    SwappedAt(h, i, j);
    SwappedAt(h, i, 2 * j);
    SwappedAt(h, i, 2 * j + 1);
    SwappedAt(h, i, j / 2);
    assert q / 2 == i / 4;
    if j == q || j == i {
      SwapEnds(m, m', h, i, j);
    } else {
      SwapElsewhere(m, m', h, i, j);
    }
  }

  lemma SwapEnds(m: Links, m': Links, h: seq<Id>, i: nat, j: nat)
    requires Rep(m, h) && 2 <= i <= |h| && (j == i / 2 || j == i)
    requires SwappedLinks(m, m', At(h, i / 2), At(h, i), SideOf(i), At(h, i / 4))
    ensures LinksAt(m', Swapped(h, i), j)
  {
    var q := i / 2;
    assert LinksAt(m, h, q) && LinksAt(m, h, i);
    SwappedAt(h, i, j);
    SwappedAt(h, i, 2 * j);
    SwappedAt(h, i, 2 * j + 1);
    SwappedAt(h, i, j / 2);
    assert q / 2 == i / 4 && (if i % 2 == 0 then i == 2 * q else i == 2 * q + 1);
  }

  lemma SwapElsewhere(m: Links, m': Links, h: seq<Id>, i: nat, j: nat)
    requires Rep(m, h) && 2 <= i <= |h| && 1 <= j <= |h| && j != i / 2 && j != i
    requires SwappedLinks(m, m', At(h, i / 2), At(h, i), SideOf(i), At(h, i / 4))
    ensures LinksAt(m', Swapped(h, i), j)
  {
    var q, n := i / 2, At(h, j);
    assert LinksAt(m, h, j) && LinksAt(m, h, q) && LinksAt(m, h, i);
    SwappedAt(h, i, j);
    SwappedAt(h, i, 2 * j);
    SwappedAt(h, i, 2 * j + 1);
    SwappedAt(h, i, j / 2);
    assert q / 2 == i / 4;
    assert n != At(h, q) && n != At(h, i);
    // its parent
    var o := if i % 2 == 0 then i + 1 else i - 1;
    assert Child(m, At(h, q), Other(SideOf(i))) == At(h, o);
    assert n == At(h, o) <==> j == o;
    assert n == At(h, 2 * i) <==> j == 2 * i;
    assert n == At(h, 2 * i + 1) <==> j == 2 * i + 1;
    // its children
    assert At(h, 2 * j) == At(h, q) ==> 2 * j == q;
    assert At(h, 2 * j + 1) == At(h, q) ==> 2 * j + 1 == q;
    assert At(h, i / 4) == n ==> j == i / 4;
  }
}
