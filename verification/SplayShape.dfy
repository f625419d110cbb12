/**
 Splay trees of libuv, part 1: the three trees that top-down splaying works on, and the links that
 represent them.
 */
module SplayShape {
  import RbShape

  type Id = nat
  type Side = RbShape.Side
  type Slot = RbShape.Slot
  type Links = map<Slot, Id>

  const L: Side := RbShape.L
  const R: Side := RbShape.R

  /** The local node of the splay routine, to which both outer trees are attached. */
  const SCRATCH: Id := 1

  function Other(s: Side): Side { RbShape.Other(s) }
  function Get(m: Links, n: Id, s: Side): Id { RbShape.Get(m, RbShape.Slot(n, s)) }
  function Set(m: Links, n: Id, s: Side, x: Id): Links { m[RbShape.Slot(n, s) := x] }

  datatype Tree = Leaf | Node(l: Tree, n: Id, r: Tree)

  function Root(t: Tree): Id { if t.Leaf? then 0 else t.n }

  function Kid(t: Tree, s: Side): Tree
    requires t.Node?
  {
    if s.L? then t.l else t.r
  }

  function Make(s: Side, near: Tree, n: Id, far: Tree): Tree { if s.L? then Node(near, n, far) else Node(far, n, near) }

  /**
   One of the outer trees: a path of nodes that all lead to the same side, on which the last one is open,
   with their other subtrees.
   */
  datatype Spine = Bare | Snoc(up: Spine, n: Id, t: Tree)

  function Tail(sp: Spine): Id { if sp.Bare? then SCRATCH else sp.n }

  function Inorder(t: Tree): seq<Id> { if t.Leaf? then [] else Inorder(t.l) + [t.n] + Inorder(t.r) }

  /** The elements of the outer tree that is open on side `s`. */
  function Order(sp: Spine, s: Side): seq<Id> {
    if sp.Bare? then []
    else if s.R? then Order(sp.up, s) + (Inorder(sp.t) + [sp.n])
    else [sp.n] + Inorder(sp.t) + Order(sp.up, s)
  }

  function Ids(t: Tree): set<Id> { if t.Leaf? then {} else Ids(t.l) + {t.n} + Ids(t.r) }
  function SpineIds(sp: Spine): set<Id> { if sp.Bare? then {} else SpineIds(sp.up) + {sp.n} + Ids(sp.t) }

  predicate Apart(t: Tree) {
    t.Node? ==>
      && t.n > SCRATCH && t.n !in Ids(t.l) && t.n !in Ids(t.r) && Ids(t.l) !! Ids(t.r)
      && Apart(t.l) && Apart(t.r)
  }

  predicate SpineApart(sp: Spine) {
    sp.Snoc? ==>
      && sp.n > SCRATCH && sp.n !in Ids(sp.t) && sp.n !in SpineIds(sp.up) && Ids(sp.t) !! SpineIds(sp.up)
      && Apart(sp.t) && SpineApart(sp.up)
  }

  predicate Rep(m: Links, t: Tree) {
    t.Node? ==> Get(m, t.n, L) == Root(t.l) && Get(m, t.n, R) == Root(t.r) && Rep(m, t.l) && Rep(m, t.r)
  }

  predicate RepSpine(m: Links, sp: Spine, s: Side) {
    sp.Snoc? ==>
      && Get(m, sp.n, Other(s)) == Root(sp.t) && Rep(m, sp.t)
      && Get(m, Tail(sp.up), s) == sp.n && RepSpine(m, sp.up, s)
  }

  /** The tree that a spine becomes when `x` is put into its open place. */
  function Closed(sp: Spine, s: Side, x: Tree): Tree
    decreases sp
  {
    if sp.Bare? then x else Closed(sp.up, s, Make(s, x, sp.n, sp.t))
  }

  // ---------- sequences ----------

  lemma {:induction false} ClosedOrder(sp: Spine, s: Side, x: Tree)
    ensures Inorder(Closed(sp, s, x)) == if s.R? then Order(sp, s) + Inorder(x) else Inorder(x) + Order(sp, s)
    decreases sp
  {
    if sp.Snoc? {
      ClosedOrder(sp.up, s, Make(s, x, sp.n, sp.t));
      if s.R? {
        Regroup(Order(sp.up, s), Inorder(sp.t), sp.n, Inorder(x));
      } else {
        Regroup2(Inorder(x), sp.n, Inorder(sp.t), Order(sp.up, s));
      }
    }
  }

  lemma Regroup(a: seq<Id>, b: seq<Id>, n: Id, c: seq<Id>)
    ensures a + (b + [n] + c) == a + (b + [n]) + c
  {
  }

  lemma Regroup2(a: seq<Id>, n: Id, b: seq<Id>, c: seq<Id>)
    ensures (a + [n] + b) + c == a + ([n] + b + c)
  {
  }

  /** The elements of all three trees, in order. */
  function Whole(lo: Spine, t: Tree, hi: Spine): seq<Id> { Order(lo, R) + Inorder(t) + Order(hi, L) }

  // ---------- representation ----------

  lemma {:induction false} RepFrame(m: Links, m': Links, t: Tree)
    requires Rep(m, t) && forall n, s :: n in Ids(t) ==> Get(m', n, s) == Get(m, n, s)
    ensures Rep(m', t)
  {
    if t.Node? {
      assert t.n in Ids(t);
      RepFrame(m, m', t.l);
      RepFrame(m, m', t.r);
    }
  }

  /** A spine does not depend on its open place. */
  lemma {:induction false} SpineFrame(m: Links, m': Links, sp: Spine, s: Side)
    requires RepSpine(m, sp, s) && SpineApart(sp)
    requires forall n, k :: n in SpineIds(sp) + {SCRATCH} && !(n == Tail(sp) && k == s) ==>
      (n == SCRATCH && k != s) || Get(m', n, k) == Get(m, n, k)
    ensures RepSpine(m', sp, s)
  {
    if sp.Snoc? {
      assert sp.n in SpineIds(sp);
      assert sp.up.Snoc? ==> sp.up.n in SpineIds(sp.up);
      ScratchNot(sp.t);
      RepFrame(m, m', sp.t);
      SpineFrame(m, m', sp.up, s);
    }
  }

  lemma {:induction false} ClosedRep(m: Links, sp: Spine, s: Side, x: Tree)
    requires RepSpine(m, sp, s) && Rep(m, x) && Get(m, Tail(sp), s) == Root(x)
    ensures Rep(m, Closed(sp, s, x)) && Get(m, SCRATCH, s) == Root(Closed(sp, s, x))
    decreases sp
  {
    if sp.Snoc? { ClosedRep(m, sp.up, s, Make(s, x, sp.n, sp.t)); }
  }

  lemma {:induction false} ClosedIds(sp: Spine, s: Side, x: Tree)
    requires SpineApart(sp) && Apart(x) && SpineIds(sp) !! Ids(x)
    ensures Apart(Closed(sp, s, x)) && Ids(Closed(sp, s, x)) == SpineIds(sp) + Ids(x)
    decreases sp
  {
    if sp.Snoc? { ClosedIds(sp.up, s, Make(s, x, sp.n, sp.t)); }
  }

  lemma {:induction false} IdsOrder(t: Tree)
    ensures forall x :: x in Ids(t) <==> x in Inorder(t)
  {
    if t.Node? {
      IdsOrder(t.l);
      IdsOrder(t.r);
    }
  }

  lemma {:induction false} ScratchNot(t: Tree)
    requires Apart(t)
    ensures SCRATCH !in Ids(t) && 0 !in Ids(t)
  {
    if t.Node? {
      ScratchNot(t.l);
      ScratchNot(t.r);
    }
  }

  /** The three trees are represented and share no node. */
  predicate Three(m: Links, lo: Spine, t: Tree, hi: Spine) {
    && Apart(t) && SpineApart(lo) && SpineApart(hi)
    && Ids(t) !! SpineIds(lo) && Ids(t) !! SpineIds(hi) && SpineIds(lo) !! SpineIds(hi)
    && Rep(m, t) && RepSpine(m, lo, R) && RepSpine(m, hi, L)
  }
}
