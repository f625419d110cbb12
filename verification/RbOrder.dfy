/**
 Red-black trees of libuv, part 4: search order, and what insertion and removal do to it.
 */
module RbOrder {
  import opened RbShape
  import opened RbLinks
  import opened RbBalance

  type Compare = (Id, Id) -> int

  predicate Opposite(cmp: Compare, a: Id, b: Id) { cmp(a, b) < 0 <==> cmp(b, a) > 0 }

  predicate Chained(cmp: Compare, a: Id, b: Id, c: Id) { cmp(a, b) <= 0 && cmp(b, c) <= 0 ==> cmp(a, c) <= 0 }

  /** The comparison is a total preorder: signs are opposite and "not above" is transitive. */
  ghost predicate Order(cmp: Compare) {
    (forall a, b :: Opposite(cmp, a, b)) && (forall a, b, c :: Chained(cmp, a, b, c))
  }

  ghost predicate Sorted(cmp: Compare, s: seq<Id>) {
    forall i, j :: 0 <= i < j < |s| ==> cmp(s[i], s[j]) < 0
  }

  lemma Transitive(cmp: Compare, a: Id, b: Id, c: Id)
    requires Order(cmp) && cmp(a, b) <= 0 && cmp(b, c) <= 0 && (cmp(a, b) < 0 || cmp(b, c) < 0)
    ensures cmp(a, c) < 0
  {
    assert Opposite(cmp, a, c) && Opposite(cmp, c, a) && Opposite(cmp, a, b) && Opposite(cmp, b, c);
    assert Chained(cmp, a, b, c) && Chained(cmp, c, a, b) && Chained(cmp, b, c, a);
  }

  /** The key of `e` belongs at the focus: above what precedes it, below what follows. */
  ghost predicate Belongs(cmp: Compare, e: Id, c: Ctx) {
    && (forall x :: x in Pre(c) ==> cmp(e, x) > 0)
    && (forall x :: x in Post(c) ==> cmp(e, x) < 0)
  }

  lemma SortedAround(cmp: Compare, a: seq<Id>, n: Id, b: seq<Id>, x: Id)
    requires Sorted(cmp, a + [n] + b)
    ensures x in a ==> cmp(x, n) < 0
    ensures x in b ==> cmp(n, x) < 0
  {
    var s := a + [n] + b;
    assert s[|a|] == n;
    if x in a {
      var i :| 0 <= i < |a| && a[i] == x;
      assert s[i] == x;
    }
    if x in b {
      var i :| 0 <= i < |b| && b[i] == x;
      assert s[|a| + 1 + i] == x;
    }
  }

  lemma WholeAround(t: Tree, c: Ctx)
    requires t.Node?
    ensures Whole(t, c) == (Pre(c) + Inorder(t.l)) + [t.n] + (Inorder(t.r) + Post(c))
  {
    Regroup5(Pre(c), Inorder(t.l), t.n, Inorder(t.r), Post(c));
  }

  lemma Regroup5(a: seq<Id>, b: seq<Id>, x: Id, d: seq<Id>, e: seq<Id>)
    ensures a + (b + [x] + d) + e == (a + b) + [x] + (d + e)
  {
  }

  /** Following the comparison keeps the focus where `e` belongs. */
  lemma Descend(cmp: Compare, e: Id, t: Tree, c: Ctx, s: Side)
    requires Order(cmp) && Sorted(cmp, Whole(t, c)) && Belongs(cmp, e, c) && t.Node?
    requires if s.L? then cmp(e, t.n) < 0 else cmp(e, t.n) > 0
    ensures Belongs(cmp, e, Below(t, c, s))
  {
    WholeAround(t, c);
    var a, b := Pre(c) + Inorder(t.l), Inorder(t.r) + Post(c);
    forall x | x in Post(Below(t, c, s)) ensures cmp(e, x) < 0 {
      if s.L? && x != t.n && x !in Post(c) {
        SortedAround(cmp, a, t.n, b, x);
        Transitive(cmp, e, t.n, x);
      }
    }
    forall x | x in Pre(Below(t, c, s)) ensures cmp(e, x) > 0 {
      if s.R? && x != t.n && x !in Pre(c) {
        SortedAround(cmp, a, t.n, b, x);
        assert Opposite(cmp, e, t.n) && Opposite(cmp, t.n, e) && Opposite(cmp, x, e);
        Transitive(cmp, x, t.n, e);
      }
    }
  }

  /** A new element put where it belongs keeps the order. */
  lemma SortedInsert(cmp: Compare, a: seq<Id>, e: Id, b: seq<Id>)
    requires Order(cmp) && Sorted(cmp, a + b) && (forall x :: x in a ==> cmp(e, x) > 0)
        && (forall x :: x in b ==> cmp(e, x) < 0)
    ensures Sorted(cmp, a + [e] + b)
  {
    var s, o := a + [e] + b, a + b;
    forall i, j | 0 <= i < j < |s| ensures cmp(s[i], s[j]) < 0 {
      if i == |a| {
        assert s[j] == b[j - |a| - 1];
      } else if j == |a| {
        assert s[i] == a[i] && Opposite(cmp, a[i], e);
      } else {
        assert s[i] == o[if i < |a| then i else i - 1] && s[j] == o[if j < |a| then j else j - 1];
      }
    }
  }

  lemma SortedRemove(cmp: Compare, s: seq<Id>, i: nat)
    requires Sorted(cmp, s) && i < |s|
    ensures Sorted(cmp, s[..i] + s[i+1..])
  {
  }

  /** A new red node linked in at an empty focus. */
  lemma LinkNew(m: Links, m': Links, c: Ctx, e: Id)
    requires Holds(m, Leaf, c) && e != 0 && e !in CtxIds(c)
    requires m'.red == m.red + {e} && m'.parent == m.parent[e := CtxId(c)]
    requires m'.root == (if c.Top? then e else m.root)
    requires Child(m', e, L) == 0 && Child(m', e, R) == 0
    requires c.In? ==> Child(m', c.n, c.s) == e && Child(m', c.n, Other(c.s)) == Child(m, c.n, Other(c.s))
    requires forall n, k :: n != e && n != CtxId(c) ==> Child(m', n, k) == Child(m, n, k)
    ensures Holds(m', Node(Leaf, e, true, Leaf), c)
  {
    assert c.In? ==> c.n in CtxIds(c);
    MovedCtx(m, m', c, 0, e);
  }

  /** With a context around the focus the root is a node of the context. */
  lemma {:induction false} RootInCtx(m: Links, c: Ctx, f: Id)
    requires RepCtx(m, c, f) && c.In?
    ensures m.root in CtxIds(c)
  {
    if c.up.In? { RootInCtx(m, c.up, c.n); }
  }

  // ---------- the leftmost node below a right child ----------

  /** `d` leads from `base` to the left only. */
  predicate LeftOf(d: Ctx, base: Ctx) { d == base || (d.In? && d.s.L? && LeftOf(d.up, base)) }

  lemma {:induction false} LeftOfSame(d: Ctx, base: Ctx)
    requires LeftOf(d, base)
    ensures Pre(d) == Pre(base) && CtxIds(base) <= CtxIds(d)
  {
    if d != base { LeftOfSame(d.up, base); }
  }

  lemma {:induction false} LeftOfRep(m: Links, d: Ctx, base: Ctx, f: Id)
    requires LeftOf(d, base) && RepCtx(m, d, f) && base.In?
    ensures KidIs(m, base.n, Other(base.s), base.sib)
  {
    if d != base { LeftOfRep(m, d.up, base, d.n); }
  }

  // ---------- putting the successor in the place of a node ----------

  lemma {:induction false} RenameBalanced(t: Tree, a: Id, y: Id)
    ensures BlackHeight(RenameTree(t, a, y)) == BlackHeight(t) && (Balanced(RenameTree(t, a, y)) <==> Balanced(t))
    ensures IsRed(RenameTree(t, a, y)) == IsRed(t)
  {
    if t.Node? {
      RenameBalanced(t.l, a, y);
      RenameBalanced(t.r, a, y);
    }
  }

  lemma {:induction false} RenameCtxBalanced(c: Ctx, a: Id, y: Id, h: nat)
    ensures CtxBalanced(RenameCtx(c, a, y), h) <==> CtxBalanced(c, h)
    ensures RootBlack(RenameCtx(c, a, y)) <==> RootBlack(c)
  {
    if c.In? {
      RenameBalanced(c.sib, a, y);
      RenameCtxBalanced(c.up, a, y, h + Weight(c.red));
    }
  }

  function Subst(s: seq<Id>, a: Id, y: Id): seq<Id> { seq(|s|, i requires 0 <= i < |s| => Sub(s[i], a, y)) }

  lemma SubstConcat(s: seq<Id>, t: seq<Id>, a: Id, y: Id)
    ensures Subst(s + t, a, y) == Subst(s, a, y) + Subst(t, a, y)
  {
  }

  lemma SubstNothing(s: seq<Id>, a: Id, y: Id)
    requires a !in s
    ensures Subst(s, a, y) == s
  {
  }

  lemma {:induction false} RenameOrder(t: Tree, a: Id, y: Id)
    ensures Inorder(RenameTree(t, a, y)) == Subst(Inorder(t), a, y)
  {
    if t.Node? {
      RenameOrder(t.l, a, y);
      RenameOrder(t.r, a, y);
      SubstConcat(Inorder(t.l), [t.n], a, y);
      SubstConcat(Inorder(t.l) + [t.n], Inorder(t.r), a, y);
      assert Subst([t.n], a, y) == [Sub(t.n, a, y)];
    }
  }

  lemma {:induction false} RenameCtxOrder(c: Ctx, a: Id, y: Id)
    ensures Pre(RenameCtx(c, a, y)) == Subst(Pre(c), a, y)
    ensures Post(RenameCtx(c, a, y)) == Subst(Post(c), a, y)
  {
    if c.In? {
      RenameCtxOrder(c.up, a, y);
      RenameOrder(c.sib, a, y);
      assert Subst([c.n], a, y) == [Sub(c.n, a, y)];
      if c.s.L? {
        SubstConcat([c.n], Inorder(c.sib), a, y);
        SubstConcat([c.n] + Inorder(c.sib), Post(c.up), a, y);
      } else {
        SubstConcat(Pre(c.up), Inorder(c.sib), a, y);
        SubstConcat(Pre(c.up) + Inorder(c.sib), [c.n], a, y);
      }
    }
  }

  predicate NoDup(s: seq<Id>) { forall i, j :: 0 <= i < j < |s| ==> s[i] != s[j] }

  lemma SortedNoDup(cmp: Compare, s: seq<Id>)
    requires Order(cmp) && Sorted(cmp, s)
    ensures NoDup(s)
  {
    assert forall i :: 0 <= i < |s| ==> Opposite(cmp, s[i], s[i]);
  }

  /** Taking out the successor `y` of `a` and putting it in the place of `a` removes `a`. */
  lemma SuccessorOrder(d: Ctx, base: Ctx, u: Tree, a: Id, y: Id)
    requires LeftOf(d, base) && base.In? && base.s.R? && base.n == a && u.Node? && u.l.Leaf? && u.n == y
    requires NoDup(Whole(u, d))
    ensures var i := |Pre(d)| - 1;
      && i >= 0 && i < |Whole(u, d)| && Whole(u, d)[i] == a
      && Whole(u.r, RenameCtx(d, a, y)) == Whole(u, d)[..i] + Whole(u, d)[i+1..]
  {
    LeftOfSame(d, base);
    RenameCtxOrder(d, a, y);
    assert Inorder(u) == [y] + Inorder(u.r);
    SubstDrops(Pre(base.up) + Inorder(base.sib), a, y, Inorder(u.r), Post(d));
  }

  lemma SubstDrops(x: seq<Id>, a: Id, y: Id, r: seq<Id>, p: seq<Id>)
    requires NoDup((x + [a]) + ([y] + r) + p)
    ensures var w := (x + [a]) + ([y] + r) + p;
      w[|x|] == a && Subst(x + [a], a, y) + r + Subst(p, a, y) == w[..|x|] + w[|x|+1..]
  {
    var w := (x + [a]) + ([y] + r) + p;
    assert w[|x|] == a;
    forall k | 0 <= k < |x| ensures x[k] != a { assert w[k] == x[k]; }
    forall k | 0 <= k < |p| ensures p[k] != a { assert w[|x| + 2 + |r| + k] == p[k]; }
    SubstConcat(x, [a], a, y);
    SubstNothing(x, a, y);
    SubstNothing(p, a, y);
    assert Subst([a], a, y) == [y];
    assert w[|x|+1..] == [y] + r + p;
    assert w[..|x|] == x;
  }

  lemma {:induction false} PlugIds(t: Tree, c: Ctx)
    ensures Ids(Plug(t, c)) == Ids(t) + CtxIds(c)
    decreases c
  {
    if c.In? { PlugIds(Make(c.s, t, c.n, c.red, c.sib), c.up); }
  }
}
