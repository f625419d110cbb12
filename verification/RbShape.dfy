/**
 Red-black trees of libuv, part 1: linked nodes and the trees they represent.  A position in a tree is a
 subtree together with its context, the path of parents up to the root.
 */
module RbShape {

  /** A node; 0 is the null pointer. */
  type Id = nat

  datatype Side = L | R

  function Other(s: Side): Side { if s.L? then R else L }

  datatype Tree = Leaf | Node(l: Tree, n: Id, red: bool, r: Tree)

  /** The focus is the `s` child of `n`, whose other child is `sib`. */
  datatype Ctx = Top | In(up: Ctx, s: Side, n: Id, red: bool, sib: Tree)

  /** One of the two child pointers of a node. */
  datatype Slot = Slot(n: Id, s: Side)

  /** The pointer fields of all nodes, the nodes coloured red, and the root pointer. */
  datatype Links = Links(root: Id, child: map<Slot, Id>, parent: map<Id, Id>, red: set<Id>)

  function Get<K>(m: map<K, Id>, k: K): Id { if k in m then m[k] else 0 }

  function Child(m: Links, n: Id, s: Side): Id { Get(m.child, Slot(n, s)) }
  function Parent(m: Links, n: Id): Id { Get(m.parent, n) }
  predicate Red(m: Links, n: Id) { n in m.red }

  function SetChild(m: Links, n: Id, s: Side, x: Id): Links { m.(child := m.child[Slot(n, s) := x]) }
  function SetParent(m: Links, n: Id, x: Id): Links { m.(parent := m.parent[n := x]) }
  function SetRed(m: Links, n: Id, b: bool): Links { m.(red := if b then m.red + {n} else m.red - {n}) }

  // ---------- trees ----------

  function Root(t: Tree): Id { if t.Leaf? then 0 else t.n }
  function CtxId(c: Ctx): Id { if c.Top? then 0 else c.n }

  function Make(s: Side, near: Tree, n: Id, red: bool, far: Tree): Tree {
    if s.L? then Node(near, n, red, far) else Node(far, n, red, near)
  }

  function Kid(t: Tree, s: Side): Tree
    requires t.Node?
  {
    if s.L? then t.l else t.r
  }

  function Ids(t: Tree): set<Id> { if t.Leaf? then {} else Ids(t.l) + {t.n} + Ids(t.r) }
  function CtxIds(c: Ctx): set<Id> { if c.Top? then {} else CtxIds(c.up) + {c.n} + Ids(c.sib) }

  predicate Apart(t: Tree) {
    t.Node? ==>
      && t.n != 0 && t.n !in Ids(t.l) && t.n !in Ids(t.r) && Ids(t.l) !! Ids(t.r)
      && Apart(t.l) && Apart(t.r)
  }

  predicate CtxApart(c: Ctx) {
    c.In? ==>
      && c.n != 0 && c.n !in Ids(c.sib) && c.n !in CtxIds(c.up) && Ids(c.sib) !! CtxIds(c.up)
      && Apart(c.sib) && CtxApart(c.up)
  }

  // ---------- representation ----------

  predicate KidIs(m: Links, n: Id, s: Side, k: Tree) {
    Child(m, n, s) == Root(k) && (k.Node? ==> Parent(m, k.n) == n)
  }

  /** The links below the root of `t` are those of the tree; the root's own parent is left open. */
  predicate Rep(m: Links, t: Tree) {
    t.Node? ==>
      && Red(m, t.n) == t.red && KidIs(m, t.n, L, t.l) && KidIs(m, t.n, R, t.r)
      && Rep(m, t.l) && Rep(m, t.r)
  }

  /** The links of the context around a focus whose root is `f`. */
  predicate RepCtx(m: Links, c: Ctx, f: Id) {
    match c
    case Top => m.root == f
    case In(up, s, n, red, sib) =>
      && Red(m, n) == red && Child(m, n, s) == f && KidIs(m, n, Other(s), sib) && Rep(m, sib)
      && Parent(m, n) == CtxId(up) && RepCtx(m, up, n)
  }

  /** The links represent the tree with subtree `t` in context `c`, no node occurring twice. */
  predicate Holds(m: Links, t: Tree, c: Ctx) {
    && Apart(t) && CtxApart(c) && Ids(t) !! CtxIds(c)
    && Rep(m, t) && RepCtx(m, c, Root(t))
    && (t.Node? ==> Parent(m, t.n) == CtxId(c))
  }

  // ---------- in-order sequences ----------

  function Inorder(t: Tree): seq<Id> { if t.Leaf? then [] else Inorder(t.l) + [t.n] + Inorder(t.r) }

  /** What precedes and follows the focus. */
  function Pre(c: Ctx): seq<Id> {
    match c
    case Top => []
    case In(up, s, n, _, sib) => if s.L? then Pre(up) else Pre(up) + Inorder(sib) + [n]
  }

  function Post(c: Ctx): seq<Id> {
    match c
    case Top => []
    case In(up, s, n, _, sib) => if s.L? then [n] + Inorder(sib) + Post(up) else Post(up)
  }

  function Whole(t: Tree, c: Ctx): seq<Id> { Pre(c) + Inorder(t) + Post(c) }

  function Plug(t: Tree, c: Ctx): Tree
    decreases c
  {
    match c
    case Top => t
    case In(up, s, n, red, sib) => Plug(Make(s, t, n, red, sib), up)
  }

  lemma {:induction false} IdsInorder(t: Tree)
    ensures forall x :: x in Ids(t) <==> x in Inorder(t)
  {
    if t.Node? {
      IdsInorder(t.l);
      IdsInorder(t.r);
    }
  }

  lemma {:induction false} CtxIdsOrder(c: Ctx)
    ensures forall x :: x in CtxIds(c) <==> x in Pre(c) || x in Post(c)
  {
    if c.In? {
      CtxIdsOrder(c.up);
      IdsInorder(c.sib);
    }
  }

  /** Moving the focus to the parent changes nothing. */
  lemma UpSame(t: Tree, c: Ctx)
    requires c.In?
    ensures Whole(Make(c.s, t, c.n, c.red, c.sib), c.up) == Whole(t, c)
  {
    if c.s.L? {
      Regroup(Pre(c.up), Inorder(t), c.n, Inorder(c.sib), Post(c.up));
    } else {
      Regroup(Pre(c.up), Inorder(c.sib), c.n, Inorder(t), Post(c.up));
    }
  }

  lemma Regroup(a: seq<Id>, b: seq<Id>, x: Id, d: seq<Id>, e: seq<Id>)
    ensures a + (b + [x] + d) + e == a + b + ([x] + d + e) == (a + b + [x]) + d + e
  {
  }

  lemma {:induction false} PlugSame(t: Tree, c: Ctx)
    ensures Inorder(Plug(t, c)) == Whole(t, c)
    decreases c
  {
    if c.In? {
      UpSame(t, c);
      PlugSame(Make(c.s, t, c.n, c.red, c.sib), c.up);
    }
  }

  // ---------- moving the focus ----------

  lemma Up(m: Links, t: Tree, c: Ctx)
    requires Holds(m, t, c) && c.In?
    ensures Holds(m, Make(c.s, t, c.n, c.red, c.sib), c.up)
  {
  }

  /** The context of the `s` child of `t`. */
  function Below(t: Tree, c: Ctx, s: Side): Ctx
    requires t.Node?
  {
    In(c, s, t.n, t.red, Kid(t, Other(s)))
  }

  lemma Down(m: Links, t: Tree, c: Ctx, s: Side)
    requires Holds(m, t, c) && t.Node?
    ensures Holds(m, Kid(t, s), Below(t, c, s))
    ensures Whole(Kid(t, s), Below(t, c, s)) == Whole(t, c) && Plug(Kid(t, s), Below(t, c, s)) == Plug(t, c)
  {
    UpSame(Kid(t, s), Below(t, c, s));
  }

  lemma {:induction false} UpToTop(m: Links, t: Tree, c: Ctx)
    requires Holds(m, t, c)
    ensures Holds(m, Plug(t, c), Top)
    decreases c
  {
    if c.In? {
      Up(m, t, c);
      UpToTop(m, Make(c.s, t, c.n, c.red, c.sib), c.up);
    }
  }

  /** Every node of a represented tree is the root of some focus. */
  lemma {:induction false} Locate(m: Links, t: Tree, c: Ctx, n: Id) returns (t': Tree, c': Ctx)
    requires Holds(m, t, c) && n in Ids(t)
    ensures Holds(m, t', c') && t'.Node? && t'.n == n
    ensures Whole(t', c') == Whole(t, c) && Plug(t', c') == Plug(t, c)
    decreases t
  {
    if n == t.n {
      t', c' := t, c;
    } else if n in Ids(t.l) {
      Down(m, t, c, L);
      t', c' := Locate(m, t.l, Below(t, c, L), n);
    } else {
      Down(m, t, c, R);
      t', c' := Locate(m, t.r, Below(t, c, R), n);
    }
  }

  // ---------- what an update leaves alone ----------

  predicate SameBelow(m: Links, m': Links, n: Id) {
    Child(m', n, L) == Child(m, n, L) && Child(m', n, R) == Child(m, n, R) && Red(m', n) == Red(m, n)
  }

  ghost predicate SameTree(m: Links, m': Links, t: Tree) {
    && (forall n :: n in Ids(t) ==> SameBelow(m, m', n))
    && (forall n :: n in Ids(t) && n != Root(t) ==> Parent(m', n) == Parent(m, n))
  }

  lemma {:induction false} RepFrame(m: Links, m': Links, t: Tree)
    requires Rep(m, t) && Apart(t) && SameTree(m, m', t)
    ensures Rep(m', t)
  {
    if t.Node? {
      assert t.n in Ids(t);
      RepFrame(m, m', t.l);
      RepFrame(m, m', t.r);
    }
  }

  ghost predicate SameCtx(m: Links, m': Links, c: Ctx) {
    && m'.root == m.root
    && forall n :: n in CtxIds(c) ==> SameBelow(m, m', n) && Parent(m', n) == Parent(m, n)
  }

  lemma {:induction false} CtxFrame(m: Links, m': Links, c: Ctx, f: Id)
    requires RepCtx(m, c, f) && CtxApart(c) && SameCtx(m, m', c)
    ensures RepCtx(m', c, f)
  {
    if c.In? {
      assert c.n in CtxIds(c);
      assert c.sib.Node? ==> c.sib.n in CtxIds(c);
      RepFrame(m, m', c.sib);
      CtxFrame(m, m', c.up, c.n);
    }
  }

  /** The pointer that leads from the parent `p` to `f` is redirected to `g`. */
  function Redirect(m: Links, p: Id, f: Id, g: Id): Links {
    if p == 0 then m.(root := g)
    else if Child(m, p, L) == f then SetChild(m, p, L, g)
    else SetChild(m, p, R, g)
  }

  /** In `m'` the context leads to `g` instead of `f`; the other links of the context are the same. */
  ghost predicate CtxMoved(m: Links, m': Links, c: Ctx, f: Id, g: Id) {
    && m'.root == (if c.Top? then g else m.root)
    && (c.In? ==> Child(m', c.n, c.s) == g && Child(m', c.n, Other(c.s)) == Child(m, c.n, Other(c.s)))
    && forall n :: n in CtxIds(c) ==>
         && Parent(m', n) == Parent(m, n) && Red(m', n) == Red(m, n)
         && (n != CtxId(c) ==> SameBelow(m, m', n))
  }

  lemma MovedCtx(m: Links, m': Links, c: Ctx, f: Id, g: Id)
    requires RepCtx(m, c, f) && CtxApart(c) && CtxMoved(m, m', c, f, g)
    ensures RepCtx(m', c, g)
  {
    if c.In? {
      assert c.n in CtxIds(c);
      assert c.sib.Node? ==> c.sib.n in CtxIds(c);
      RepFrame(m, m', c.sib);
      CtxFrame(m, m', c.up, c.n);
    }
  }

  /** What redirecting does, given that `f` is one of the two children of `p`. */
  lemma Redirects(m: Links, p: Id, s: Side, f: Id, g: Id)
    requires p != 0 ==> Child(m, p, s) == f != Child(m, p, Other(s))
    ensures var m' := Redirect(m, p, f, g);
      && m'.parent == m.parent && m'.red == m.red && m'.root == (if p == 0 then g else m.root)
      && (p != 0 ==> Child(m', p, s) == g && Child(m', p, Other(s)) == Child(m, p, Other(s)))
      && forall n, k :: n != p || p == 0 ==> Child(m', n, k) == Child(m, n, k)
  {
  }

  /** The focus is the child of its parent on the side that the context says, and on no other. */
  lemma ParentOf(m: Links, t: Tree, c: Ctx)
    requires Holds(m, t, c) && t.Node? && c.In?
    ensures Child(m, c.n, c.s) == t.n && Child(m, c.n, Other(c.s)) != t.n
    ensures c.n != 0 && c.n !in Ids(t) && c.n in CtxIds(c)
  {
    assert c.n in CtxIds(c);
    assert c.sib.Node? ==> c.sib.n in CtxIds(c);
    assert t.n in Ids(t);
  }
}
