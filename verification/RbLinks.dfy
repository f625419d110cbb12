/**
 Red-black trees of libuv, part 2: what each rewiring of the links does to the tree they represent.
 */
module RbLinks {
  import opened RbShape

  // ---------- colours ----------

  lemma Recolour(m: Links, t: Tree, c: Ctx, b: bool)
    requires Holds(m, t, c) && t.Node?
    ensures Holds(SetRed(m, t.n, b), t.(red := b), c)
  {
    var m' := SetRed(m, t.n, b);
    RepFrame(m, m', t.l);
    RepFrame(m, m', t.r);
    CtxFrame(m, m', c, t.n);
  }

  /** Recolouring the child of the focus on side `s`. */
  lemma RecolourKid(m: Links, t: Tree, c: Ctx, s: Side, b: bool)
    requires Holds(m, t, c) && t.Node? && Kid(t, s).Node?
    ensures var k := Kid(t, s);
      Holds(SetRed(m, k.n, b), Make(s, k.(red := b), t.n, t.red, Kid(t, Other(s))), c)
  {
    var k := Kid(t, s);
    Down(m, t, c, s);
    Recolour(m, k, Below(t, c, s), b);
    Up(SetRed(m, k.n, b), k.(red := b), Below(t, c, s));
  }

  // ---------- rotation ----------

  /** Rotation towards `s`: the child on the other side comes up. */
  function Rotated(t: Tree, s: Side): Tree
    requires t.Node? && Kid(t, Other(s)).Node?
  {
    var x := Kid(t, Other(s));
    Make(s, Make(s, Kid(t, s), t.n, t.red, Kid(x, s)), x.n, x.red, Kid(x, Other(s)))
  }

  lemma RotatedSame(t: Tree, s: Side)
    requires t.Node? && Kid(t, Other(s)).Node?
    ensures Inorder(Rotated(t, s)) == Inorder(t) && Ids(Rotated(t, s)) == Ids(t)
  {
    var x := Kid(t, Other(s));
    if s.L? {
      Regroup3(Inorder(t.l), t.n, Inorder(x.l), x.n, Inorder(x.r));
    } else {
      Regroup3(Inorder(x.l), x.n, Inorder(x.r), t.n, Inorder(t.r));
    }
  }

  lemma Regroup3(a: seq<Id>, x: Id, b: seq<Id>, y: Id, d: seq<Id>)
    ensures (a + [x] + b) + [y] + d == a + [x] + (b + [y] + d)
  {
  }

  /** The assignments of a rotation at `e` towards `s`. */
  function RotateLinks(m: Links, e: Id, s: Side): Links {
    var x := Child(m, e, Other(s));
    var b := Child(m, x, s);
    var m1 := SetChild(m, e, Other(s), b);
    var m2 := if b != 0 then SetParent(m1, b, e) else m1;
    var m3 := SetParent(m2, x, Parent(m2, e));
    var m4 := Redirect(m3, Parent(m3, e), e, x);
    SetParent(SetChild(m4, x, s, e), e, x)
  }

  /** What a rotation at `e`, a child of `p` on side `q`, does to the fields of each node. */
  ghost predicate RotatedFrom(m: Links, m': Links, e: Id, s: Side, x: Id, b: Id, p: Id, q: Side) {
    && m'.red == m.red && m'.root == (if p == 0 then x else m.root)
    && (forall n, k :: n != e && n != x && n != p && n != 0 ==> Child(m', n, k) == Child(m, n, k))
    && (forall n :: n != 0 ==>
        Parent(m', n) == if n == e then x else if n == x then p else if n == b then e else Parent(m, n))
    && Child(m', e, Other(s)) == b && Child(m', e, s) == Child(m, e, s)
    && Child(m', x, s) == e && Child(m', x, Other(s)) == Child(m, x, Other(s))
    && (p != 0 ==> Child(m', p, q) == x && Child(m', p, Other(q)) == Child(m, p, Other(q)))
  }

  lemma RotateEffects(m: Links, e: Id, s: Side, x: Id, b: Id, p: Id, q: Side)
    requires x == Child(m, e, Other(s)) && b == Child(m, x, s) && p == Parent(m, e)
    requires e != 0 && x != 0 && e != x && p != e && p != x && b != e && b != x
    requires p != 0 ==> Child(m, p, q) == e != Child(m, p, Other(q))
    ensures RotatedFrom(m, RotateLinks(m, e, s), e, s, x, b, p, q)
  {
    var m1 := SetChild(m, e, Other(s), b);
    var m2 := if b != 0 then SetParent(m1, b, e) else m1;
    var m3 := SetParent(m2, x, p);
    Redirects(m3, p, q, e, x);
    RotateEnds(m, m3, Redirect(m3, p, e, x), e, s, x, b, p, q);
  }

  /** The last two assignments of a rotation. */
  lemma RotateEnds(m: Links, m3: Links, m4: Links, e: Id, s: Side, x: Id, b: Id, p: Id, q: Side)
    requires e != 0 && x != 0 && e != x && p != e && p != x
    requires m3.child == m.child[Slot(e, Other(s)) := b] && m3.red == m.red && m3.root == m.root
    requires forall n :: n != 0 && n != e ==> Parent(m3, n) == if n == x then p else if n == b then e else Parent(m, n)
    requires m4.parent == m3.parent && m4.red == m3.red && m4.root == (if p == 0 then x else m3.root)
    requires p != 0 ==> Child(m4, p, q) == x && Child(m4, p, Other(q)) == Child(m3, p, Other(q))
    requires forall n, k :: n != p || p == 0 ==> Child(m4, n, k) == Child(m3, n, k)
    ensures RotatedFrom(m, SetParent(SetChild(m4, x, s, e), e, x), e, s, x, b, p, q)
  {
    var m' := SetParent(SetChild(m4, x, s, e), e, x);
    assert forall n, k :: Child(m', n, k) == if n == x && k == s then e else Child(m4, n, k);
    assert forall n, k :: Child(m3, n, k) == if n == e && k == Other(s) then b else Child(m, n, k);
    assert forall n :: Parent(m', n) == if n == e then x else Parent(m3, n);
  }

  /** The nodes that a rotation touches. */
  lemma Nearby(m: Links, t: Tree, c: Ctx, s: Side)
    requires Holds(m, t, c) && t.Node? && Kid(t, Other(s)).Node?
    ensures var x := Kid(t, Other(s));
      && Rep(m, x) && Apart(x) && Ids(x) <= Ids(t)
      && x.n in Ids(t) && x.n != t.n && x.n != 0 && t.n != 0 && Child(m, t.n, Other(s)) == x.n
      && Child(m, x.n, s) == Root(Kid(x, s)) && Child(m, t.n, s) == Root(Kid(t, s))
      && (Kid(x, s).Node? ==> Kid(x, s).n in Ids(t)) && Root(Kid(x, s)) != t.n && Root(Kid(x, s)) != x.n
      && Parent(m, t.n) == CtxId(c) != t.n && CtxId(c) != x.n
  {
    var x := Kid(t, Other(s));
    var b := Kid(x, s);
    assert Rep(m, x) && Apart(x);
    assert Ids(x) <= Ids(t) && x.n in Ids(x);
    assert b.Node? ==> b.n in Ids(b) && b.n in Ids(x);
    assert c.In? ==> c.n in CtxIds(c);
  }

  lemma Rotate(m: Links, t: Tree, c: Ctx, s: Side)
    requires Holds(m, t, c) && t.Node? && Kid(t, Other(s)).Node?
    ensures Holds(RotateLinks(m, t.n, s), Rotated(t, s), c)
  {
    var x := Kid(t, Other(s));
    var q := if c.In? then c.s else L;
    Nearby(m, t, c, s);
    if c.In? { ParentOf(m, t, c); }
    RotateEffects(m, t.n, s, x.n, Root(Kid(x, s)), CtxId(c), q);
    RotatedHolds(m, RotateLinks(m, t.n, s), t, c, s, x, q);
  }

  lemma RotatedHolds(m: Links, m': Links, t: Tree, c: Ctx, s: Side, x: Tree, q: Side)
    requires Holds(m, t, c) && t.Node? && x == Kid(t, Other(s)) && x.Node? && (c.In? ==> q == c.s)
    requires RotatedFrom(m, m', t.n, s, x.n, Root(Kid(x, s)), CtxId(c), q)
    ensures Holds(m', Rotated(t, s), c)
  {
    Nearby(m, t, c, s);
    ZeroNot(t);
    CtxZeroNot(c);
    RotatedSame(t, s);
    RotatedApart(t, s);
    assert c.In? ==> c.n in CtxIds(c);
    MovedCtx(m, m', c, t.n, x.n);
    RotatedParts(m, m', t, c, s, x, q);
    RotatedRep(m, m', t, c, s, x, q);
  }

  /** The three subtrees survive a rotation. */
  lemma RotatedParts(m: Links, m': Links, t: Tree, c: Ctx, s: Side, x: Tree, q: Side)
    requires Rep(m, t) && Apart(t) && t.Node? && x == Kid(t, Other(s)) && x.Node? && CtxId(c) !in Ids(t)
    requires RotatedFrom(m, m', t.n, s, x.n, Root(Kid(x, s)), CtxId(c), q)
    ensures Rep(m', Kid(t, s)) && Rep(m', Kid(x, s)) && Rep(m', Kid(x, Other(s)))
  {
    ZeroNot(t);
    var a, b, d := Kid(t, s), Kid(x, s), Kid(x, Other(s));
    assert Rep(m, x) && Apart(x) && Ids(x) <= Ids(t) && Ids(a) !! Ids(x) && x.n in Ids(x);
    assert b.Node? ==> b.n in Ids(b);
    KeptPart(m, m', t.n, s, x.n, Root(b), CtxId(c), q, a);
    KeptPart(m, m', t.n, s, x.n, Root(b), CtxId(c), q, b);
    KeptPart(m, m', t.n, s, x.n, Root(b), CtxId(c), q, d);
  }

  lemma KeptPart(m: Links, m': Links, e: Id, s: Side, x: Id, b: Id, p: Id, q: Side, k: Tree)
    requires RotatedFrom(m, m', e, s, x, b, p, q) && Rep(m, k) && Apart(k)
    requires e !in Ids(k) && x !in Ids(k) && p !in Ids(k) && 0 !in Ids(k) && (b == Root(k) || b !in Ids(k))
    ensures Rep(m', k)
  {
    RepFrame(m, m', k);
  }

  lemma RotatedApart(t: Tree, s: Side)
    requires t.Node? && Kid(t, Other(s)).Node? && Apart(t)
    ensures Apart(Rotated(t, s))
  {
  }

  lemma RotatedRep(m: Links, m': Links, t: Tree, c: Ctx, s: Side, x: Tree, q: Side)
    requires Holds(m, t, c) && t.Node? && x == Kid(t, Other(s)) && x.Node?
    requires RotatedFrom(m, m', t.n, s, x.n, Root(Kid(x, s)), CtxId(c), q)
    requires Rep(m', Kid(t, s)) && Rep(m', Kid(x, s)) && Rep(m', Kid(x, Other(s)))
    ensures Rep(m', Rotated(t, s))
  {
    Nearby(m, t, c, s);
    var a, b, d := Kid(t, s), Kid(x, s), Kid(x, Other(s));
    assert Apart(a) && Apart(b) && Apart(d);
    assert a.Node? ==> a.n in Ids(a) && a.n != 0;
    assert b.Node? ==> b.n in Ids(b) && b.n != 0;
    assert d.Node? ==> d.n in Ids(d) && d.n != 0;
    assert KidIs(m', t.n, s, a) && KidIs(m', t.n, Other(s), b);
    assert KidIs(m', x.n, Other(s), d);
    RepMake(m', s, a, t.n, t.red, b);
    RepMake(m', s, Make(s, a, t.n, t.red, b), x.n, x.red, d);
  }

  lemma RepMake(m: Links, s: Side, near: Tree, n: Id, red: bool, far: Tree)
    requires Red(m, n) == red && KidIs(m, n, s, near) && KidIs(m, n, Other(s), far) && Rep(m, near) && Rep(m, far)
    ensures Rep(m, Make(s, near, n, red, far))
  {
  }

  lemma {:induction false} ZeroNot(t: Tree)
    requires Apart(t)
    ensures 0 !in Ids(t)
  {
    if t.Node? {
      ZeroNot(t.l);
      ZeroNot(t.r);
    }
  }

  lemma {:induction false} CtxZeroNot(c: Ctx)
    requires CtxApart(c)
    ensures 0 !in CtxIds(c)
  {
    if c.In? {
      ZeroNot(c.sib);
      CtxZeroNot(c.up);
    }
  }

  // ---------- taking a node out ----------

  /** Node `e`, which has at most the one child `child`, is replaced by it. */
  function SpliceLinks(m: Links, e: Id, child: Id, p: Id): Links {
    var m1 := if child != 0 then SetParent(m, child, p) else m;
    Redirect(m1, p, e, child)
  }

  lemma Splice(m: Links, t: Tree, c: Ctx, s: Side)
    requires Holds(m, t, c) && t.Node? && Kid(t, Other(s)).Leaf?
    ensures Holds(SpliceLinks(m, t.n, Root(Kid(t, s)), CtxId(c)), Kid(t, s), c)
  {
    var k := Kid(t, s);
    var m1 := if k.Node? then SetParent(m, k.n, CtxId(c)) else m;
    var q := if c.In? then c.s else L;
    if c.In? { ParentOf(m, t, c); }
    Redirects(m1, CtxId(c), q, t.n, Root(k));
    SplicedHolds(m, SpliceLinks(m, t.n, Root(k), CtxId(c)), t, c, k);
  }

  lemma SplicedHolds(m: Links, m': Links, t: Tree, c: Ctx, k: Tree)
    requires Holds(m, t, c) && t.Node? && (k == t.l || k == t.r)
    requires m'.red == m.red && m'.root == (if c.Top? then Root(k) else m.root)
    requires c.In? ==> Child(m', c.n, c.s) == Root(k) && Child(m', c.n, Other(c.s)) == Child(m, c.n, Other(c.s))
    requires forall n, z :: n != CtxId(c) && n != 0 ==> Child(m', n, z) == Child(m, n, z)
    requires forall n :: n != 0 ==> Parent(m', n) == if n == Root(k) then CtxId(c) else Parent(m, n)
    ensures Holds(m', k, c)
  {
    ZeroNot(t);
    CtxZeroNot(c);
    assert k.Node? ==> k.n in Ids(k);
    assert c.In? ==> c.n in CtxIds(c);
    MovedCtx(m, m', c, t.n, Root(k));
    RepFrame(m, m', k);
  }

  // ---------- putting one node in the place of another ----------

  function Sub(x: Id, a: Id, y: Id): Id { if x == a then y else x }

  function RenameTree(t: Tree, a: Id, y: Id): Tree {
    if t.Leaf? then Leaf else Node(RenameTree(t.l, a, y), Sub(t.n, a, y), t.red, RenameTree(t.r, a, y))
  }

  function RenameCtx(c: Ctx, a: Id, y: Id): Ctx {
    match c
    case Top => Top
    case In(up, s, n, red, sib) => In(RenameCtx(up, a, y), s, Sub(n, a, y), red, RenameTree(sib, a, y))
  }

  /** In `m'` node `y` stands where `a` stood in `m`: it has its fields, and every link to `a` leads to `y`. */
  ghost predicate Stands(m: Links, m': Links, a: Id, y: Id, ids: set<Id>) {
    && m'.root == Sub(m.root, a, y)
    && forall n :: n in ids ==>
         && Child(m', Sub(n, a, y), L) == Sub(Child(m, n, L), a, y)
         && Child(m', Sub(n, a, y), R) == Sub(Child(m, n, R), a, y)
         && Parent(m', Sub(n, a, y)) == Sub(Parent(m, n), a, y)
         && Red(m', Sub(n, a, y)) == Red(m, n)
  }

  lemma {:induction false} RenameIds(t: Tree, a: Id, y: Id)
    requires y !in Ids(t) && Apart(t) && a != 0 && y != 0
    ensures Apart(RenameTree(t, a, y))
    ensures Ids(RenameTree(t, a, y)) == if a in Ids(t) then Ids(t) - {a} + {y} else Ids(t)
    ensures Root(RenameTree(t, a, y)) == Sub(Root(t), a, y)
  {
    if t.Node? {
      RenameIds(t.l, a, y);
      RenameIds(t.r, a, y);
    }
  }

  lemma {:induction false} RenameCtxIds(c: Ctx, a: Id, y: Id)
    requires y !in CtxIds(c) && CtxApart(c) && a != 0 && y != 0
    ensures CtxApart(RenameCtx(c, a, y))
    ensures CtxIds(RenameCtx(c, a, y)) == if a in CtxIds(c) then CtxIds(c) - {a} + {y} else CtxIds(c)
    ensures CtxId(RenameCtx(c, a, y)) == Sub(CtxId(c), a, y)
  {
    if c.In? {
      RenameCtxIds(c.up, a, y);
      RenameIds(c.sib, a, y);
    }
  }

  lemma {:induction false} RenameRep(m: Links, m': Links, t: Tree, a: Id, y: Id, ids: set<Id>)
    requires Rep(m, t) && Apart(t) && Stands(m, m', a, y, ids) && Ids(t) <= ids && y !in ids && a != 0 && y != 0
    ensures Rep(m', RenameTree(t, a, y))
  {
    if t.Node? {
      RenameRep(m, m', t.l, a, y, ids);
      RenameRep(m, m', t.r, a, y, ids);
      RenameIds(t.l, a, y);
      RenameIds(t.r, a, y);
      assert t.n in ids && (t.l.Node? ==> t.l.n in ids) && (t.r.Node? ==> t.r.n in ids);
    }
  }

  lemma RenameKid(m: Links, m': Links, n: Id, s: Side, k: Tree, a: Id, y: Id, ids: set<Id>)
    requires Stands(m, m', a, y, ids) && n in ids && KidIs(m, n, s, k) && Ids(k) <= ids && Apart(k) && y !in ids
        && a != 0 && y != 0
    ensures KidIs(m', Sub(n, a, y), s, RenameTree(k, a, y))
  {
    RenameIds(k, a, y);
    assert k.Node? ==> k.n in Ids(k);
    assert s.L? || s.R?;
  }

  lemma {:induction false} RenameRepCtx(m: Links, m': Links, c: Ctx, f: Id, a: Id, y: Id, ids: set<Id>)
    requires RepCtx(m, c, f) && CtxApart(c) && Stands(m, m', a, y, ids) && CtxIds(c) <= ids && y !in ids && a != 0
        && y != 0
    ensures RepCtx(m', RenameCtx(c, a, y), Sub(f, a, y))
  {
    if c.In? {
      RenameRepCtx(m, m', c.up, c.n, a, y, ids);
      RenameRep(m, m', c.sib, a, y, ids);
      assert c.n in ids;
      RenameKid(m, m', c.n, Other(c.s), c.sib, a, y, ids);
      assert CtxId(RenameCtx(c.up, a, y)) == Sub(CtxId(c.up), a, y);
      assert Child(m', Sub(c.n, a, y), c.s) == Sub(Child(m, c.n, c.s), a, y);
    }
  }

  lemma Rename(m: Links, m': Links, t: Tree, c: Ctx, a: Id, y: Id)
    requires Holds(m, t, c) && a in CtxIds(c) && a != 0 && y != 0 && y !in Ids(t) && y !in CtxIds(c)
    requires Stands(m, m', a, y, Ids(t) + CtxIds(c))
    ensures Holds(m', t, RenameCtx(c, a, y))
  {
    RenameRep(m, m', t, a, y, Ids(t) + CtxIds(c));
    RenameRepCtx(m, m', c, Root(t), a, y, Ids(t) + CtxIds(c));
    RenameIds(t, a, y);
    RenameCtxIds(c, a, y);
    RenameNothing(t, a, y);
    assert t.Node? ==> t.n in Ids(t);
  }

  lemma {:induction false} RenameNothing(t: Tree, a: Id, y: Id)
    requires a !in Ids(t)
    ensures RenameTree(t, a, y) == t
  {
    if t.Node? {
      RenameNothing(t.l, a, y);
      RenameNothing(t.r, a, y);
    }
  }

  // Where the links to a node are.

  /** In a represented tree a child's parent is the node, and a node is a child of its parent. */
  ghost predicate Mutual(m: Links, n: Id, ids: set<Id>) {
    && (Child(m, n, L) != 0 ==> Child(m, n, L) in ids && Parent(m, Child(m, n, L)) == n)
    && (Child(m, n, R) != 0 ==> Child(m, n, R) in ids && Parent(m, Child(m, n, R)) == n)
    && (Child(m, n, L) == Child(m, n, R) ==> Child(m, n, L) == 0)
    && n != 0 && Child(m, n, L) != n && Child(m, n, R) != n
  }

  predicate HasParent(m: Links, n: Id, p: Id, ids: set<Id>) {
    && Parent(m, n) == p
    && (p == 0 || (p in ids && (Child(m, p, L) == n || Child(m, p, R) == n)))
  }

  lemma {:induction false} MutualTree(m: Links, t: Tree, ids: set<Id>)
    requires Rep(m, t) && Apart(t) && Ids(t) <= ids
    ensures forall n :: n in Ids(t) ==> Mutual(m, n, ids)
    ensures forall n :: n in Ids(t) && n != Root(t) ==> Parent(m, n) in ids && HasParent(m, n, Parent(m, n), ids)
  {
    if t.Node? {
      MutualTree(m, t.l, ids);
      MutualTree(m, t.r, ids);
      assert t.n in Ids(t);
      assert t.l.Node? ==> t.l.n in Ids(t.l);
      assert t.r.Node? ==> t.r.n in Ids(t.r);
    }
  }

  lemma MutualAll(m: Links, t: Tree)
    requires Holds(m, t, Top)
    ensures forall n :: n in Ids(t) ==> Mutual(m, n, Ids(t)) && HasParent(m, n, Parent(m, n), Ids(t))
    ensures t.Node? ==> Parent(m, t.n) == 0 && m.root == t.n
    ensures forall n :: n in Ids(t) && Parent(m, n) == 0 ==> n == m.root
  {
    MutualTree(m, t, Ids(t));
    ZeroNot(t);
  }

  /** The assignments that put `y` in the place of `a`. */
  function StandLinks(m: Links, a: Id, y: Id): Links {
    var m1 := SetParent(SetRed(SetChild(SetChild(m, y, L, Child(m, a, L)), y, R, Child(m, a, R)), y, Red(m, a)), y,
        Parent(m, a));
    var m2 := Redirect(m1, Parent(m1, a), a, y);
    var m3 := SetParent(m2, Child(m2, a, L), y);
    if Child(m3, a, R) != 0 then SetParent(m3, Child(m3, a, R), y) else m3
  }

  lemma StandsLinks(m: Links, t: Tree, a: Id, y: Id)
    requires Holds(m, t, Top) && a in Ids(t) && y !in Ids(t) && y != 0 && Child(m, a, L) != 0
    ensures Stands(m, StandLinks(m, a, y), a, y, Ids(t))
  {
    MutualAll(m, t);
    ZeroNot(t);
    var ids, p := Ids(t), Parent(m, a);
    assert Mutual(m, a, ids) && HasParent(m, a, p, ids);
    var q := if p != 0 && Child(m, p, L) != a then R else L;
    assert p != 0 ==> Mutual(m, p, ids);
    StandEffects(m, a, y, p, q);
    var m' := StandLinks(m, a, y);
    forall n | n in ids
      ensures Child(m', Sub(n, a, y), L) == Sub(Child(m, n, L), a, y)
      ensures Child(m', Sub(n, a, y), R) == Sub(Child(m, n, R), a, y)
      ensures Parent(m', Sub(n, a, y)) == Sub(Parent(m, n), a, y)
      ensures Red(m', Sub(n, a, y)) == Red(m, n)
    {
      assert Mutual(m, n, ids) && HasParent(m, n, Parent(m, n), ids);
    }
  }

  /** What the assignments do to the fields of each node. */
  ghost predicate StoodFrom(m: Links, m': Links, a: Id, y: Id, p: Id, q: Side) {
    && m'.root == (if p == 0 then y else m.root)
    && Child(m', y, L) == Child(m, a, L) && Child(m', y, R) == Child(m, a, R)
    && Parent(m', y) == p && Red(m', y) == Red(m, a)
    && (forall n, k :: n != y && n != p ==> Child(m', n, k) == Child(m, n, k))
    && (p != 0 ==> Child(m', p, q) == y && Child(m', p, Other(q)) == Child(m, p, Other(q)))
    && (forall n :: n != y ==> Red(m', n) == Red(m, n))
    && (forall n :: n != y && n != 0 ==>
        Parent(m', n) == if n == Child(m, a, L) || n == Child(m, a, R) then y else Parent(m, n))
  }

  lemma StandEffects(m: Links, a: Id, y: Id, p: Id, q: Side)
    requires a != 0 && y != 0 && a != y && p == Parent(m, a) && p != y && p != a
    requires p != 0 ==> Child(m, p, q) == a != Child(m, p, Other(q))
    requires Child(m, a, L) != 0 && Child(m, a, L) != y && Child(m, a, R) != y
    ensures StoodFrom(m, StandLinks(m, a, y), a, y, p, q)
  {
    var m1 := SetParent(SetRed(SetChild(SetChild(m, y, L, Child(m, a, L)), y, R, Child(m, a, R)), y, Red(m, a)), y,
        Parent(m, a));
    Redirects(m1, p, q, a, y);
  }
}
