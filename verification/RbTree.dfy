/**
 Red-black trees of libuv, part 5: the operations.

 The generated code spells out every mirror image; here the two sides are one parameter.
 */
module RbTree {
  import opened RbShape
  import opened RbLinks
  import opened RbBalance
  import opened RbOrder

  class Head {
    const cmp: Compare
    var root: Id
    var child: map<Slot, Id>
    var parent: map<Id, Id>
    var red: set<Id>
    ghost var tree: Tree

    constructor (cmp: Compare)
      requires Order(cmp)
      ensures Valid() && Elements() == [] && this.cmp == cmp
    {
      this.cmp := cmp;
      root := 0;
      child := map[];
      parent := map[];
      red := {};
      tree := Leaf;
    }

    ghost function Now(): Links reads this { Links(root, child, parent, red) }

    /** Search order, black root, no red-red edge, equal black heights and consistent parent links. */
    ghost predicate Valid()
      reads this
    {
      Order(cmp) && Holds(Now(), tree, Top) && RedBlack(tree) && Sorted(cmp, Inorder(tree))
    }

    /** The stored elements in order. */
    ghost function Elements(): seq<Id> reads this { Inorder(tree) }

    // ---------- rotations and colours ----------

    /** Rotation at `e` towards `s`. */
    method Rotate(e: Id, s: Side, ghost t: Tree, ghost c: Ctx)
      requires Holds(Now(), t, c) && t.Node? && t.n == e && Kid(t, Other(s)).Node?
      modifies this`root, this`child, this`parent
      ensures Holds(Now(), Rotated(t, s), c)
    {
      var x := Get(child, Slot(e, Other(s)));
      var b := Get(child, Slot(x, s));
      child := child[Slot(e, Other(s)) := b];
      if b != 0 { parent := parent[b := e]; }
      parent := parent[x := Get(parent, e)];
      Relink(Get(parent, e), e, x);
      child := child[Slot(x, s) := e];
      parent := parent[e := x];
      RbLinks.Rotate(old(Now()), t, c, s);
    }

    /** Let the pointer of parent `p` that leads to `f` lead to `g`. */
    method Relink(p: Id, f: Id, g: Id)
      modifies this`root, this`child
      ensures Now() == Redirect(old(Now()), p, f, g)
    {
      if p != 0 {
        if Get(child, Slot(p, L)) == f {
          child := child[Slot(p, L) := g];
        } else {
          child := child[Slot(p, R) := g];
        }
      } else {
        root := g;
      }
    }

    method Paint(n: Id, b: bool)
      modifies this`red
      ensures Now() == SetRed(old(Now()), n, b)
    {
      red := if b then red + {n} else red - {n};
    }

    // ---------- insertion ----------

    /** The uncle is red: push the red colour up to the grandparent. */
    method PushUp(e: Id, p: Id, g: Id, u: Id, ghost t: Tree, ghost c: Ctx)
      requires Holds(Now(), t, c) && RedFocus(t, c) && CtxRed(c) && c.up.In? && IsRed(c.up.sib)
      requires p == c.n && g == c.up.n && u == c.up.sib.n
      modifies this`red
      ensures Holds(Now(), PushedUp(t, c), c.up.up)
    {
      Up(Now(), t, c);
      ghost var pt := Make(c.s, t, c.n, c.red, c.sib);
      Up(Now(), pt, c.up);
      ghost var gs, up := c.up.s, c.up.up;
      RecolourKid(Now(), Grand(t, c), up, Other(gs), false);
      Paint(u, false);
      RecolourKid(Now(), Make(gs, pt, g, c.up.red, c.up.sib.(red := false)), up, gs, false);
      Paint(p, false);
      Recolour(Now(), Make(gs, pt.(red := false), g, c.up.red, c.up.sib.(red := false)), up, true);
      Paint(g, true);
      assert PushedUp(t, c) == Make(gs, pt.(red := false), g, true, c.up.sib.(red := false));
    }

    /** Bring an inner grandchild to the outside. */
    method TurnOutward(e: Id, p: Id, gs: Side, ghost t: Tree, ghost c: Ctx) returns (e': Id, p': Id)
      requires Holds(Now(), t, c) && t.Node? && t.red && t.n == e && c.In? && c.red && c.up.In? && p == c.n
          && gs == c.up.s
      modifies this`root, this`child, this`parent
      ensures Holds(Now(), Outward(t, c), c.up) && p' == Outward(t, c).n && e' == Root(Kid(Outward(t, c), gs))
    {
      Up(Now(), t, c);
      assert Get(child, Slot(p, Other(gs))) == e <==> c.s != gs by { ParentOf(Now(), t, c); }
      if Get(child, Slot(p, Other(gs))) == e {
        Rotate(p, gs, Make(c.s, t, c.n, true, c.sib), c.up);
        e', p' := p, e;
      } else {
        e', p' := e, p;
      }
    }

    /** The uncle is black: one or two rotations. */
    method Settle(e: Id, p: Id, g: Id, gs: Side, ghost t: Tree, ghost c: Ctx) returns (e': Id)
      requires Holds(Now(), t, c) && RedFocus(t, c) && CtxRed(c) && c.up.In? && !IsRed(c.up.sib)
      requires t.n == e && p == c.n && g == c.up.n && gs == c.up.s
      modifies this`root, this`child, this`parent, this`red
      ensures Holds(Now(), Settled(t, c), c.up.up)
      ensures Settled(t, c).Node? && e' == Root(Kid(Settled(t, c), gs))
    {
      GrandParent(t, c);
      var p';
      e', p' := TurnOutward(e, p, gs, t, c);
      ghost var o := Outward(t, c);
      ghost var up := c.up.up;
      OutwardOk(t, c);
      Up(Now(), o, c.up);
      RecolourKid(Now(), Make(gs, o, g, c.up.red, c.up.sib), up, gs, false);
      Paint(p', false);
      Recolour(Now(), Make(gs, o.(red := false), g, c.up.red, c.up.sib), up, true);
      Paint(g, true);
      Rotate(g, Other(gs), Make(gs, o.(red := false), g, true, c.up.sib), up);
    }

    /** One round of the repair after insertion. */
    method Repair(e: Id, p: Id, ghost t: Tree, ghost c: Ctx) returns (e': Id, ghost t': Tree, ghost c': Ctx)
      requires Holds(Now(), t, c) && RedFocus(t, c) && CtxRed(c) && t.n == e && p == c.n
      modifies this`root, this`child, this`parent, this`red
      ensures Holds(Now(), t', c') && RedFocus(t', c') && t'.n == e' && Whole(t', c') == Whole(t, c)
      ensures CtxRed(c') ==> Depth(c') < Depth(c)
    {
      GrandParent(t, c);
      Up(Now(), t, c);
      ParentOf(Now(), Make(c.s, t, c.n, c.red, c.sib), c.up);
      var g := Get(parent, p);
      var gs := if p == Get(child, Slot(g, L)) then L else R;
      assert g == c.up.n && gs == c.up.s;
      var u := Get(child, Slot(g, Other(gs)));
      assert u == Root(c.up.sib) && (u != 0 ==> (u in red <==> c.up.sib.red));
      WholeOfGrand(t, c);
      if u != 0 && u in red {
        PushUp(e, p, g, u, t, c);
        PushedUpOk(t, c);
        e', t', c' := g, PushedUp(t, c), c.up.up;
      } else {
        e' := Settle(e, p, g, gs, t, c);
        SettledOk(t, c);
        Down(Now(), Settled(t, c), c.up.up, gs);
        t', c' := Kid(Settled(t, c), gs), Below(Settled(t, c), c.up.up, gs);
      }
    }

    method InsertColor(elm: Id, ghost t0: Tree, ghost c0: Ctx) returns (ghost t': Tree)
      requires Holds(Now(), t0, c0) && RedFocus(t0, c0) && t0.n == elm
      modifies this`root, this`child, this`parent, this`red
      ensures Holds(Now(), t', Top) && RedBlack(t') && Inorder(t') == Whole(t0, c0)
    {
      var e := elm;
      ghost var t, c := t0, c0;
      var p := Get(parent, e);
      while p != 0 && p in red
        invariant Holds(Now(), t, c) && RedFocus(t, c) && t.n == e && p == CtxId(c)
        invariant Whole(t, c) == Whole(t0, c0)
        decreases if CtxRed(c) then Depth(c) else 0
      {
        ContextColour(Now(), t, c);
        e, t, c := Repair(e, p, t, c);
        p := Get(parent, e);
      }
      ContextColour(Now(), t, c);
      t' := PaintRoot(t, c);
    }

    /** The root is painted black at the end. */
    method PaintRoot(ghost t: Tree, ghost c: Ctx) returns (ghost t': Tree)
      requires Holds(Now(), t, c) && RedFocus(t, c) && !CtxRed(c)
      modifies this`red
      ensures Holds(Now(), t', Top) && RedBlack(t') && Inorder(t') == Whole(t, c)
    {
      UpToTop(Now(), t, c);
      PlugBalanced(t, c);
      PlugSame(t, c);
      ghost var w := Plug(t, c);
      PlugNode(t, c);
      Recolour(Now(), w, Top, false);
      Paint(root, false);
      t' := w.(red := false);
    }

    /** Search for the key of `e`: stop at an equal element or at the empty place where it belongs. */
    method Search(e: Id) returns (tmp: Id, p: Id, comp: int, ghost t: Tree, ghost c: Ctx)
      requires Valid()
      ensures Holds(Now(), t, c) && Root(t) == tmp && p == CtxId(c)
      ensures Whole(t, c) == Elements() && Plug(t, c) == tree && Belongs(cmp, e, c)
      ensures tmp != 0 ==> cmp(e, tmp) == 0
      ensures c.In? && tmp == 0 ==> c.s == if comp < 0 then L else R
    {
      tmp, p, comp := root, 0, 0;
      t, c := tree, Top;
      while tmp != 0
        invariant Holds(Now(), t, c) && Root(t) == tmp && p == CtxId(c)
        invariant Whole(t, c) == Elements() && Plug(t, c) == tree && Belongs(cmp, e, c)
        invariant c.In? ==> c.s == if comp < 0 then L else R
        decreases t
      {
        comp := cmp(e, tmp);
        if comp == 0 { return; }
        p := tmp;
        ghost var s := if comp < 0 then L else R;
        Descend(cmp, e, t, c, s);
        Down(Now(), t, c, s);
        tmp := Get(child, Slot(tmp, if comp < 0 then L else R));
        t, c := Kid(t, s), Below(t, c, s);
      }
    }

    /** Link in a new red node `e` below `p`. */
    method Link(e: Id, p: Id, s: Side, ghost c: Ctx)
      requires Holds(Now(), Leaf, c) && e != 0 && e !in CtxIds(c) && p == CtxId(c) && (c.In? ==> s == c.s)
      modifies this`root, this`child, this`parent, this`red
      ensures Holds(Now(), Node(Leaf, e, true, Leaf), c)
    {
      parent := parent[e := p];
      child := child[Slot(e, L) := 0][Slot(e, R) := 0];
      red := red + {e};
      if p != 0 {
        child := child[Slot(p, s) := e];
      } else {
        root := e;
      }
      assert c.In? ==> c.n in CtxIds(c) && c.n != 0;
      LinkNew(old(Now()), Now(), c, e);
    }

    method InsertAt(e: Id, p: Id, s: Side, ghost c: Ctx, ghost w: seq<Id>, ghost i: nat) returns (ghost t': Tree)
      requires Holds(Now(), Leaf, c) && RedBlack(Plug(Leaf, c)) && Order(cmp) && Sorted(cmp, w) && w == Whole(Leaf, c)
      requires e != 0 && Belongs(cmp, e, c) && p == CtxId(c) && (c.In? ==> s == c.s) && i == |Pre(c)|
      modifies this`root, this`child, this`parent, this`red
      ensures Holds(Now(), t', Top) && RedBlack(t') && Sorted(cmp, Inorder(t'))
      ensures i <= |w| && Inorder(t') == w[..i] + [e] + w[i..] && forall x :: x in w ==> cmp(e, x) != 0
    {
      InsertFacts(cmp, e, c, w);
      Unplug(Leaf, c);
      Link(e, p, s, c);
      assert Inorder(Node(Leaf, e, true, Leaf)) == [e];
      t' := InsertColor(e, Node(Leaf, e, true, Leaf), c);
    }

    /** Insert `e` unless an element with an equal key is there, which is then returned. */
    method Insert(e: Id) returns (r: Id, ghost i: nat)
      requires Valid() && e != 0
      modifies this
      ensures Valid()
      ensures r != 0 ==> r in old(Elements()) && cmp(e, r) == 0 && Now() == old(Now()) && tree == old(tree)
      ensures r == 0 ==>
        && (forall x :: x in old(Elements()) ==> cmp(e, x) != 0)
        && i <= |old(Elements())| && Elements() == old(Elements())[..i] + [e] + old(Elements())[i..]
    {
      var tmp, p, comp;
      ghost var t, c;
      tmp, p, comp, t, c := Search(e);
      i := |Pre(c)|;
      if tmp != 0 {
        RootInside(t, c);
        return tmp, i;
      }
      ghost var t' := InsertAt(e, p, if comp < 0 then L else R, c, Elements(), i);
      tree := t';
      r := 0;
    }

    // ---------- removal ----------

    /** One round of the repair after removal, the focus being a short black node below `p`. */
    method RaiseSibling(p: Id, s: Side, sib: Id, ghost t: Tree, ghost c: Ctx)
      requires Holds(Now(), t, c) && c.In? && p == c.n && s == c.s && IsRed(c.sib) && sib == c.sib.n && !c.red
      modifies this`root, this`child, this`parent, this`red
      ensures Holds(Now(), t, Raised(c))
    {
      Up(Now(), t, c);
      ghost var far := c.sib.(red := false);
      RecolourKid(Now(), Make(s, t, p, c.red, c.sib), c.up, Other(s), false);
      Paint(sib, false);
      Recolour(Now(), Make(s, t, p, c.red, far), c.up, true);
      Paint(p, true);
      Rotate(p, s, Make(s, t, p, true, far), c.up);
      ghost var f := Rotated(Make(s, t, p, true, far), s);
      Down(Now(), f, c.up, s);
      Down(Now(), Kid(f, s), Below(f, c.up, s), s);
    }

    method PassUp(p: Id, s: Side, sib: Id, ghost t: Tree, ghost c: Ctx)
      requires Holds(Now(), t, c) && c.In? && p == c.n && s == c.s && c.sib.Node? && sib == c.sib.n
      modifies this`red
      ensures Holds(Now(), Passed(t, c), c.up)
    {
      Up(Now(), t, c);
      RecolourKid(Now(), Make(s, t, p, c.red, c.sib), c.up, Other(s), true);
      Paint(sib, true);
    }

    method TurnNephew(p: Id, s: Side, sib: Id, near: Id, ghost t: Tree, ghost c: Ctx)
      requires Holds(Now(), t, c) && c.In? && p == c.n && s == c.s && c.sib.Node? && sib == c.sib.n
      requires Kid(c.sib, s).Node? && near == Kid(c.sib, s).n
      modifies this`root, this`child, this`parent, this`red
      ensures Holds(Now(), t, Turned(c))
    {
      Up(Now(), t, c);
      ghost var pt := Make(s, t, p, c.red, c.sib);
      Down(Now(), pt, c.up, Other(s));
      ghost var k, d := Kid(c.sib, s), Below(pt, c.up, Other(s));
      RecolourKid(Now(), c.sib, d, s, false);
      Paint(near, false);
      Recolour(Now(), Make(s, k.(red := false), sib, c.sib.red, Kid(c.sib, Other(s))), d, true);
      Paint(sib, true);
      ghost var st := Make(s, k.(red := false), sib, true, Kid(c.sib, Other(s)));
      Rotate(sib, Other(s), st, d);
      Up(Now(), Rotated(st, Other(s)), d);
      Down(Now(), Make(s, t, p, c.red, Rotated(st, Other(s))), c.up, s);
    }

    method Restore(p: Id, s: Side, sib: Id, far: Id, ghost t: Tree, ghost c: Ctx)
      requires Holds(Now(), t, c) && c.In? && p == c.n && s == c.s && c.sib.Node? && sib == c.sib.n
      requires Kid(c.sib, Other(s)).Node? && far == Kid(c.sib, Other(s)).n
      modifies this`root, this`child, this`parent, this`red
      ensures Holds(Now(), Restored(t, c), c.up)
    {
      Up(Now(), t, c);
      ghost var pt := Make(s, t, p, c.red, c.sib);
      assert p in red <==> c.red;
      RecolourKid(Now(), pt, c.up, Other(s), c.red);
      Paint(sib, p in red);
      ghost var s1 := c.sib.(red := c.red);
      Recolour(Now(), Make(s, t, p, c.red, s1), c.up, false);
      Paint(p, false);
      ghost var p1 := Make(s, t, p, false, s1);
      Down(Now(), p1, c.up, Other(s));
      RecolourKid(Now(), s1, Below(p1, c.up, Other(s)), Other(s), false);
      Paint(far, false);
      ghost var s2 := Make(s, Kid(s1, s), sib, c.red, Kid(s1, Other(s)).(red := false));
      Up(Now(), s2, Below(p1, c.up, Other(s)));
      Rotate(p, s, Make(s, t, p, false, s2), c.up);
      assert Rotated(Make(s, t, p, false, s2), s) == Restored(t, c);
    }

    /** The sibling is black: pass the shortage up, or settle it. */
    method RepairShort(p: Id, s: Side, ghost t: Tree, ghost c: Ctx) returns (done: bool, ghost t': Tree)
      requires Holds(Now(), t, c) && ShortFocus(t, c) && !IsRed(t) && c.In? && !IsRed(c.sib) && p == c.n && s == c.s
      modifies this`root, this`child, this`parent, this`red
      ensures Holds(Now(), t', c.up) && Whole(t', c.up) == Whole(t, c)
      ensures if done then RedBlack(Plug(t', c.up))
          else ShortFocus(t', c.up) && t'.Node? && t'.n == p && t'.red == c.red
    {
      Sibling(t, c);
      var sib := Get(child, Slot(p, Other(s)));
      var near, far := Get(child, Slot(sib, s)), Get(child, Slot(sib, Other(s)));
      assert near == Root(Kid(c.sib, s)) && (near != 0 && near in red <==> IsRed(Kid(c.sib, s)))
          by { RepKid(Now(), c.sib, s); }
      assert far == Root(Kid(c.sib, Other(s))) && (far != 0 && far in red <==> IsRed(Kid(c.sib, Other(s))))
          by { RepKid(Now(), c.sib, Other(s)); }
      if (near == 0 || near !in red) && (far == 0 || far !in red) {
        PassedOk(t, c);
        PassUp(p, s, sib, t, c);
        done, t' := false, Passed(t, c);
      } else {
        ghost var d := c;
        if far == 0 || far !in red {
          TurnedOk(t, c);
          TurnNephew(p, s, sib, near, t, c);
          d := Turned(c);
        }
        RestoredOk(t, d);
        sib := Get(child, Slot(p, Other(s)));
        far := Get(child, Slot(sib, Other(s)));
        assert far == Root(Kid(d.sib, Other(s))) by { RepKid(Now(), d.sib, Other(s)); }
        Restore(p, s, sib, far, t, d);
        done, t' := true, Restored(t, d);
      }
    }

    /** One round of the repair after removal. */
    method RepairRound(p: Id, e: Id, ghost t: Tree, ghost c: Ctx) returns (done: bool, ghost t': Tree, ghost c': Ctx)
      requires Holds(Now(), t, c) && ShortFocus(t, c) && !IsRed(t) && c.In? && p == c.n && e == Root(t)
      modifies this`root, this`child, this`parent, this`red
      ensures Holds(Now(), t', c') && Whole(t', c') == Whole(t, c)
      ensures if done then RedBlack(Plug(t', c'))
          else ShortFocus(t', c') && t'.Node? && t'.n == p && (IsRed(t') || Depth(c') < Depth(c))
    {
      Sibling(t, c);
      SideOf(Now(), t, c);
      var s := if Get(child, Slot(p, L)) == e then L else R;
      var sib := Get(child, Slot(p, Other(s)));
      ghost var d := c;
      assert sib == c.sib.n && (sib in red <==> c.sib.red);
      if sib in red {
        RaisedOk(t, c);
        RaiseSibling(p, s, sib, t, c);
        d := Raised(c);
      }
      done, t' := RepairShort(p, s, t, d);
      c' := d.up;
    }

    method RemoveColor(parent0: Id, elm0: Id, ghost t0: Tree, ghost c0: Ctx) returns (ghost t': Tree)
      requires Holds(Now(), t0, c0) && ShortFocus(t0, c0) && elm0 == Root(t0) && (c0.In? ==> parent0 == c0.n)
      modifies this`root, this`child, this`parent, this`red
      ensures Holds(Now(), t', Top) && RedBlack(t') && Inorder(t') == Whole(t0, c0)
    {
      var p, e, done := parent0, elm0, false;
      ghost var t, c := t0, c0;
      while !done && (e == 0 || e !in red) && e != root
        invariant Holds(Now(), t, c) && Whole(t, c) == Whole(t0, c0)
        invariant if done then RedBlack(Plug(t, c)) && e == root
            else ShortFocus(t, c) && e == Root(t) && (c.In? ==> p == c.n)
        decreases !done, if IsRed(t) then 0 else 1 + Depth(c)
      {
        FocusFacts(Now(), t, c);
        done, t, c := RepairRound(p, e, t, c);
        if done {
          e := root;
        } else {
          e := p;
          p := Get(parent, e);
        }
      }
      FocusFacts(Now(), t, c);
      if done {
        t' := Plug(t, c);
        UpToTop(Now(), t, c);
        PlugSame(t, c);
        if e != 0 {
          Recolour(Now(), t', Top, false);
          Paint(e, false);
        }
      } else {
        BlackenedOk(t, c);
        if e != 0 {
          Recolour(Now(), t, c, false);
          Paint(e, false);
        }
        UpToTop(Now(), Blackened(t), c);
        PlugSame(Blackened(t), c);
        t' := Plug(Blackened(t), c);
      }
    }

    /** Replace `e`, a node with at most one child, by `kid`. */
    method Unlink(e: Id, kid: Id, p: Id, s: Side, ghost t: Tree, ghost c: Ctx)
      requires Holds(Now(), t, c) && t.Node? && t.n == e && Kid(t, Other(s)).Leaf? && kid == Root(Kid(t, s))
          && p == CtxId(c)
      modifies this`root, this`child, this`parent
      ensures Now() == SpliceLinks(old(Now()), e, kid, p)
      ensures Holds(Now(), Kid(t, s), c)
    {
      if kid != 0 { parent := parent[kid := p]; }
      Relink(p, e, kid);
      Splice(old(Now()), t, c, s);
    }

    /** The first node of the right subtree of `e`. */
    method Successor(e: Id, ghost t: Tree, ghost c: Ctx) returns (y: Id, ghost u: Tree, ghost d: Ctx)
      requires Holds(Now(), t, c) && t.Node? && t.n == e && t.r.Node?
      ensures Holds(Now(), u, d) && u.Node? && u.n == y && u.l.Leaf? && LeftOf(d, Below(t, c, R))
      ensures Whole(u, d) == Whole(t, c) && Plug(u, d) == Plug(t, c)
    {
      y := Get(child, Slot(e, R));
      Down(Now(), t, c, R);
      u, d := t.r, Below(t, c, R);
      while Get(child, Slot(y, L)) != 0
        invariant Holds(Now(), u, d) && u.Node? && u.n == y && LeftOf(d, Below(t, c, R))
        invariant Whole(u, d) == Whole(t, c) && Plug(u, d) == Plug(t, c)
        decreases u
      {
        y := Get(child, Slot(y, L));
        Down(Now(), u, d, L);
        u, d := u.l, Below(u, d, L);
      }
      RepKid(Now(), u, L);
    }

    /** Give `y` the fields of `a` and redirect the links to `a`. */
    method Replace(a: Id, y: Id, ghost t: Tree, ghost c: Ctx)
      requires Holds(Now(), t, c) && a in CtxIds(c) && a != 0 && y != 0 && y !in Ids(t) && y !in CtxIds(c)
      requires Get(child, Slot(a, L)) != 0
      modifies this`root, this`child, this`parent, this`red
      ensures Holds(Now(), t, RenameCtx(c, a, y))
    {
      child := child[Slot(y, L) := Get(child, Slot(a, L))][Slot(y, R) := Get(child, Slot(a, R))];
      red := if a in red then red + {y} else red - {y};
      parent := parent[y := Get(parent, a)];
      Relink(Get(parent, a), a, y);
      parent := parent[Get(child, Slot(a, L)) := y];
      if Get(child, Slot(a, R)) != 0 { parent := parent[Get(child, Slot(a, R)) := y]; }
      UpToTop(old(Now()), t, c);
      PlugIds(t, c);
      StandsLinks(old(Now()), Plug(t, c), a, y);
      Rename(old(Now()), Now(), t, c, a, y);
    }

    method FinishRemoval(black: bool, p: Id, kid: Id, ghost k: Tree, ghost c: Ctx) returns (ghost t': Tree)
      requires Holds(Now(), k, c) && kid == Root(k) && p == CtxId(c)
      requires if black then ShortFocus(k, c)
          else Balanced(k) && CtxBalanced(c, BlackHeight(k)) && !IsRed(k) && RootBlack(c)
      modifies this`root, this`child, this`parent, this`red
      ensures Holds(Now(), t', Top) && RedBlack(t') && Inorder(t') == Whole(k, c)
    {
      if black {
        t' := RemoveColor(p, kid, k, c);
      } else {
        UpToTop(Now(), k, c);
        PlugBalanced(k, c);
        PlugSame(k, c);
        t' := Plug(k, c);
      }
    }

    /** Remove `e`, which has no child on the side other than `s`. */
    method RemoveSingle(e: Id, s: Side, ghost t: Tree, ghost c: Ctx) returns (ghost t': Tree)
      requires Holds(Now(), t, c) && t.Node? && t.n == e && Kid(t, Other(s)).Leaf? && RedBlack(Plug(t, c))
      modifies this`root, this`child, this`parent, this`red
      ensures Holds(Now(), t', Top) && RedBlack(t') && Inorder(t') == Pre(c) + Inorder(Kid(t, s)) + Post(c)
    {
      Unplug(t, c);
      Shortened(t, c, s);
      RepKid(Now(), t, s);
      FocusFacts(Now(), t, c);
      var kid, p, black := Get(child, Slot(e, s)), Get(parent, e), e !in red;
      Unlink(e, kid, p, s, t, c);
      t' := FinishRemoval(black, p, kid, Kid(t, s), c);
    }

    /** Remove `e`, which has two children: its successor takes its place. */
    method RemoveDouble(e: Id, ghost t: Tree, ghost c: Ctx) returns (ghost t': Tree)
      requires Holds(Now(), t, c) && t.Node? && t.n == e && t.l.Node? && t.r.Node? && RedBlack(Plug(t, c))
          && NoDup(Whole(t, c))
      modifies this`root, this`child, this`parent, this`red
      ensures Holds(Now(), t', Top) && RedBlack(t')
      ensures var i := |Pre(c) + Inorder(t.l)|;
        i < |Whole(t, c)| && Inorder(t') == Whole(t, c)[..i] + Whole(t, c)[i+1..]
    {
      var y;
      ghost var u, d;
      assert Apart(t.l) && t.l.n != 0;
      y, u, d := Successor(e, t, c);
      ghost var base := Below(t, c, R);
      DoubleFacts(t, c, u, d, e, y);
      RepKid(Now(), u, R);
      FocusFacts(Now(), u, d);
      var kid, p, black := Get(child, Slot(y, R)), Get(parent, y), y !in red;
      Unlink(y, kid, p, R, u, d);
      LeftOfRep(Now(), d, base, Root(u.r));
      if p == e { p := y; }
      Replace(e, y, u.r, d);
      RenameCtxIds(d, e, y);
      t' := FinishRemoval(black, p, kid, u.r, RenameCtx(d, e, y));
    }

    /** Take the root of the focus out. */
    method RemoveAt(e: Id, ghost t: Tree, ghost c: Ctx, ghost w: seq<Id>, ghost i: nat) returns (ghost t': Tree)
      requires Holds(Now(), t, c) && t.Node? && t.n == e && RedBlack(Plug(t, c)) && Order(cmp) && Sorted(cmp, w)
      requires w == Whole(t, c) && i == |Pre(c) + Inorder(t.l)|
      modifies this`root, this`child, this`parent, this`red
      ensures Holds(Now(), t', Top) && RedBlack(t')
      ensures i < |w| && Inorder(t') == w[..i] + w[i+1..]
    {
      RemoveFacts(cmp, t, c, w);
      RepKid(Now(), t, L);
      RepKid(Now(), t, R);
      if Get(child, Slot(e, L)) == 0 {
        t' := RemoveSingle(e, R, t, c);
      } else if Get(child, Slot(e, R)) == 0 {
        t' := RemoveSingle(e, L, t, c);
      } else {
        t' := RemoveDouble(e, t, c);
      }
    }

    /** Remove the stored element `e`. */
    method Remove(e: Id) returns (r: Id, ghost i: nat)
      requires Valid() && e in Elements()
      modifies this
      ensures Valid() && r == e
      ensures i < |old(Elements())| && old(Elements())[i] == e
      ensures Elements() == old(Elements())[..i] + old(Elements())[i+1..]
    {
      ghost var w := Elements();
      ghost var t, c := LocateElement(Now(), tree, e);
      i := |Pre(c) + Inorder(t.l)|;
      assert i < |w| && w[i] == e && Sorted(cmp, w[..i] + w[i+1..]) by { RemoveFacts(cmp, t, c, w); }
      ghost var t' := RemoveAt(e, t, c, w, i);
      tree := t';
      r := e;
    }

    // ---------- lookups ----------

    /** The element with the same key, or null. */
    method Find(e: Id) returns (r: Id)
      requires Valid()
      ensures r != 0 ==> r in Elements() && cmp(e, r) == 0
      ensures r == 0 ==> forall x :: x in Elements() ==> cmp(e, x) != 0
    {
      var p, comp;
      ghost var t, c;
      r, p, comp, t, c := Search(e);
      if r != 0 {
        RootInside(t, c);
      } else {
        assert Elements() == Pre(c) + Post(c);
      }
    }

    /** The first element that is not below the key, or null. */
    method NFind(e: Id) returns (r: Id, ghost i: nat)
      requires Valid()
      ensures i <= |Elements()| && r == First(Elements()[i..])
      ensures forall x :: x in Elements()[..i] ==> cmp(e, x) > 0
      ensures r != 0 ==> cmp(e, r) <= 0
    {
      var tmp := root;
      r := 0;
      ghost var t, c := tree, Top;
      while tmp != 0
        invariant Holds(Now(), t, c) && Root(t) == tmp
        invariant Whole(t, c) == Elements() && Belongs(cmp, e, c) && r == First(Post(c))
        decreases t
      {
        var comp := cmp(e, tmp);
        if comp == 0 {
          i := |Pre(c) + Inorder(t.l)|;
          EqualFacts(cmp, e, t, c);
          return tmp, i;
        }
        ghost var s := if comp < 0 then L else R;
        Descend(cmp, e, t, c, s);
        Down(Now(), t, c, s);
        if comp < 0 {
          r := tmp;
          tmp := Get(child, Slot(tmp, L));
        } else {
          tmp := Get(child, Slot(tmp, R));
        }
        PostBelow(t, c, s);
        t, c := Kid(t, s), Below(t, c, s);
      }
      i := |Pre(c)|;
      PlaceFacts(cmp, e, c);
    }

    /** The outermost element on one side, or null. */
    method MinMax(s: Side) returns (r: Id)
      requires Valid()
      ensures r == if Elements() == [] then 0 else if s.L? then Elements()[0] else Elements()[|Elements()|-1]
    {
      var tmp := root;
      r := 0;
      ghost var t, c := tree, Top;
      while tmp != 0
        invariant Holds(Now(), t, c) && Root(t) == tmp && Whole(t, c) == Elements() && r == CtxId(c)
        invariant if s.L? then Pre(c) == [] else Post(c) == []
        invariant c.In? ==> if s.L? then Post(c)[0] == c.n else Pre(c) != [] && Pre(c)[|Pre(c)|-1] == c.n
        decreases t
      {
        r := tmp;
        Down(Now(), t, c, s);
        tmp := Get(child, Slot(tmp, s));
        t, c := Kid(t, s), Below(t, c, s);
      }
      assert Elements() == Pre(c) + Post(c);
    }

    /** The element next to `e` on side `s`, or null. */
    method Step(e: Id, s: Side) returns (r: Id, ghost i: nat)
      requires Valid() && e in Elements()
      ensures i < |Elements()| && Elements()[i] == e
      ensures r == if s.R? then First(Elements()[i+1..]) else Last(Elements()[..i])
    {
      ghost var t, c := LocateElement(Now(), tree, e);
      i := |Pre(c) + Inorder(t.l)|;
      StepFacts(t, c, s, Elements());
      r := StepFrom(e, s, t, c);
    }

    method StepFrom(e: Id, s: Side, ghost t: Tree, ghost c: Ctx) returns (r: Id)
      requires Holds(Now(), t, c) && t.Node? && t.n == e
      ensures r == Neighbour(t, c, s)
    {
      RepKid(Now(), t, s);
      if Get(child, Slot(e, s)) != 0 {
        r := Innermost(e, s, t, c);
      } else {
        r := FirstAbove(e, s, t, c);
      }
    }

    /** Go to side `s` once and then to the other side as far as possible. */
    method Innermost(e: Id, s: Side, ghost t: Tree, ghost c: Ctx) returns (r: Id)
      requires Holds(Now(), t, c) && t.Node? && t.n == e && Kid(t, s).Node?
      ensures r == Outer(Inorder(Kid(t, s)), s)
    {
      r := Get(child, Slot(e, s));
      Down(Now(), t, c, s);
      ghost var u, d := Kid(t, s), Below(t, c, s);
      while Get(child, Slot(r, Other(s))) != 0
        invariant Holds(Now(), u, d) && u.Node? && u.n == r
        invariant Outer(Inorder(u), s) == Outer(Inorder(Kid(t, s)), s)
        decreases u
      {
        RepKid(Now(), u, Other(s));
        r := Get(child, Slot(r, Other(s)));
        Down(Now(), u, d, Other(s));
        InnerEnd(u, s);
        u, d := Kid(u, Other(s)), Below(u, d, Other(s));
      }
      RepKid(Now(), u, Other(s));
    }

    /** Climb until the focus lies on the other side of its parent. */
    method FirstAbove(e: Id, s: Side, ghost t: Tree, ghost c: Ctx) returns (r: Id)
      requires Holds(Now(), t, c) && t.Node? && t.n == e
      ensures r == Outer(if s.R? then Post(c) else Pre(c), s)
    {
      r := e;
      var p := Get(parent, r);
      ghost var u, d := t, c;
      if d.In? { ParentOf(Now(), u, d); }
      if p != 0 && r == Get(child, Slot(p, Other(s))) { return p; }
      while p != 0 && r == Get(child, Slot(p, s))
        invariant Holds(Now(), u, d) && u.Node? && u.n == r && p == CtxId(d)
        invariant if s.R? then Post(d) == Post(c) else Pre(d) == Pre(c)
        invariant d.In? ==> d.n != 0 && Child(Now(), d.n, d.s) == u.n && Child(Now(), d.n, Other(d.s)) != u.n
        decreases d
      {
        Up(Now(), u, d);
        u, d := Make(d.s, u, d.n, d.red, d.sib), d.up;
        r := p;
        p := Get(parent, r);
        if d.In? { ParentOf(Now(), u, d); }
      }
      r := p;
    }
  }

  lemma RootInside(t: Tree, c: Ctx)
    requires t.Node?
    ensures t.n in Whole(t, c)
  {
    WholeAround(t, c);
  }

  lemma InsertFacts(cmp: Compare, e: Id, c: Ctx, w: seq<Id>)
    requires Order(cmp) && Sorted(cmp, w) && w == Whole(Leaf, c) && Belongs(cmp, e, c)
    ensures var i := |Pre(c)|;
      i <= |w| && Pre(c) + [e] + Post(c) == w[..i] + [e] + w[i..] && Sorted(cmp, Pre(c) + [e] + Post(c))
    ensures (forall x :: x in w ==> cmp(e, x) != 0) && e !in CtxIds(c)
  {
    CtxIdsOrder(c);
    assert Opposite(cmp, e, e);
    assert w == Pre(c) + Post(c);
    SortedInsert(cmp, Pre(c), e, Post(c));
  }

  /** What remains when the root of the focus is taken out. */
  lemma RemoveFacts(cmp: Compare, t: Tree, c: Ctx, w: seq<Id>)
    requires Order(cmp) && Sorted(cmp, w) && t.Node? && w == Whole(t, c)
    ensures NoDup(w)
    ensures var i := |Pre(c) + Inorder(t.l)|;
      && i < |w| && w[i] == t.n && Sorted(cmp, w[..i] + w[i+1..])
      && (t.l.Leaf? ==> Pre(c) + Inorder(t.r) + Post(c) == w[..i] + w[i+1..])
      && (t.r.Leaf? ==> Pre(c) + Inorder(t.l) + Post(c) == w[..i] + w[i+1..])
  {
    var a, b := Pre(c) + Inorder(t.l), Inorder(t.r) + Post(c);
    SortedNoDup(cmp, w);
    WholeAround(t, c);
    SortedRemove(cmp, w, |a|);
    assert w[..|a|] == a && w[|a|+1..] == b;
  }

  function First(s: seq<Id>): Id { if s == [] then 0 else s[0] }
  function Last(s: seq<Id>): Id { if s == [] then 0 else s[|s|-1] }

  /** The end of `s` that is met first when coming from the other side. */
  function Outer(w: seq<Id>, s: Side): Id { if s.R? then First(w) else Last(w) }

  /** The neighbour of the root of the focus on side `s`. */
  function Neighbour(t: Tree, c: Ctx, s: Side): Id
    requires t.Node?
  {
    Outer(if Kid(t, s).Node? then Inorder(Kid(t, s)) else if s.R? then Post(c) else Pre(c), s)
  }

  lemma StepFacts(t: Tree, c: Ctx, s: Side, w: seq<Id>)
    requires t.Node? && w == Whole(t, c)
    ensures var i := |Pre(c) + Inorder(t.l)|;
      && i < |w| && w[i] == t.n
      && Neighbour(t, c, s) == if s.R? then First(w[i+1..]) else Last(w[..i])
  {
    WholeAround(t, c);
    var a, b := Pre(c) + Inorder(t.l), Inorder(t.r) + Post(c);
    assert w[|a|+1..] == b && w[..|a|] == a;
    EndsOf(Pre(c), Inorder(t.l));
    EndsOf(Inorder(t.r), Post(c));
  }

  lemma EndsOf(a: seq<Id>, b: seq<Id>)
    ensures First(a + b) == (if a != [] then First(a) else First(b)) && Last(a + b) == if b != [] then Last(b)
        else Last(a)
  {
  }

  lemma PostBelow(t: Tree, c: Ctx, s: Side)
    requires t.Node?
    ensures First(Post(Below(t, c, s))) == if s.L? then t.n else First(Post(c))
  {
  }

  lemma PlaceFacts(cmp: Compare, e: Id, c: Ctx)
    requires Belongs(cmp, e, c)
    ensures var w, i := Whole(Leaf, c), |Pre(c)|;
      && i <= |w| && First(w[i..]) == First(Post(c)) && (forall x :: x in w[..i] ==> cmp(e, x) > 0)
      && (Post(c) != [] ==> cmp(e, First(w[i..])) < 0)
  {
    var w := Whole(Leaf, c);
    assert w == Pre(c) + Post(c);
    assert w[..|Pre(c)|] == Pre(c) && w[|Pre(c)|..] == Post(c);
  }

  lemma EqualFacts(cmp: Compare, e: Id, t: Tree, c: Ctx)
    requires Order(cmp) && t.Node? && Sorted(cmp, Whole(t, c)) && cmp(e, t.n) == 0
    ensures var w, i := Whole(t, c), |Pre(c) + Inorder(t.l)|;
      i <= |w| && First(w[i..]) == t.n && forall x :: x in w[..i] ==> cmp(e, x) > 0
  {
    var a, b := Pre(c) + Inorder(t.l), Inorder(t.r) + Post(c);
    WholeAround(t, c);
    assert Whole(t, c)[..|a|] == a && Whole(t, c)[|a|..] == [t.n] + b;
    NotBelow(cmp, e, a, t.n, b);
  }

  /** What the repair starts from after the successor `y` of `e` took its place. */
  lemma DoubleFacts(t: Tree, c: Ctx, u: Tree, d: Ctx, e: Id, y: Id)
    requires t.Node? && t.n == e && u.Node? && u.n == y && u.l.Leaf? && LeftOf(d, Below(t, c, R))
    requires RedBlack(Plug(u, d)) && NoDup(Whole(u, d)) && Whole(u, d) == Whole(t, c)
    ensures e in CtxIds(d)
    ensures var k, d' := u.r, RenameCtx(d, e, y);
      if u.red then Balanced(k) && CtxBalanced(d', BlackHeight(k)) && !IsRed(k) && RootBlack(d') else ShortFocus(k, d')
    ensures var w, i := Whole(t, c), |Pre(c) + Inorder(t.l)|;
      i < |w| && Whole(u.r, RenameCtx(d, e, y)) == w[..i] + w[i+1..]
  {
    var base := Below(t, c, R);
    LeftOfSame(d, base);
    assert e in CtxIds(base);
    Unplug(u, d);
    Shortened(u, d, R);
    RenamedFocus(u.r, d, e, y);
    SuccessorOrder(d, base, u, e, y);
  }

  lemma InnerEnd(u: Tree, s: Side)
    requires u.Node? && Kid(u, Other(s)).Node?
    ensures Outer(Inorder(u), s) == Outer(Inorder(Kid(u, Other(s))), s)
  {
  }

  lemma NotBelow(cmp: Compare, e: Id, a: seq<Id>, n: Id, b: seq<Id>)
    requires Order(cmp) && Sorted(cmp, a + [n] + b) && cmp(e, n) == 0
    ensures forall x :: x in a ==> cmp(e, x) > 0
  {
    forall x | x in a ensures cmp(e, x) > 0 {
      SortedAround(cmp, a, n, b, x);
      assert Opposite(cmp, e, n) && Opposite(cmp, n, e) && Opposite(cmp, x, e);
      Transitive(cmp, x, n, e);
    }
  }

  /** Taking out a node with one child: the child is short if the node was black. */
  lemma Shortened(t: Tree, c: Ctx, s: Side)
    requires Balanced(t) && CtxBalanced(c, BlackHeight(t)) && RootBlack(c) && t.Node? && Kid(t, Other(s)).Leaf?
    ensures var k := Kid(t, s);
      if t.red then Balanced(k) && CtxBalanced(c, BlackHeight(k)) && !IsRed(k) else ShortFocus(k, c)
  {
    KidsBalanced(t, s);
  }

  lemma RenamedFocus(k: Tree, c: Ctx, a: Id, y: Id)
    ensures ShortFocus(k, c) ==> ShortFocus(k, RenameCtx(c, a, y))
    ensures CtxBalanced(c, BlackHeight(k)) && RootBlack(c) ==>
        CtxBalanced(RenameCtx(c, a, y), BlackHeight(k)) && RootBlack(RenameCtx(c, a, y))
  {
    RenameCtxBalanced(c, a, y, BlackHeight(k) + 1);
    RenameCtxBalanced(c, a, y, BlackHeight(k));
  }

  lemma LocateElement(m: Links, t: Tree, e: Id) returns (t': Tree, c': Ctx)
    requires Holds(m, t, Top) && e in Inorder(t)
    ensures Holds(m, t', c') && t'.Node? && t'.n == e && Whole(t', c') == Inorder(t) && Plug(t', c') == t
  {
    IdsInorder(t);
    t', c' := Locate(m, t, Top, e);
    assert Whole(t, Top) == Inorder(t);
  }

  lemma RepKid(m: Links, t: Tree, s: Side)
    requires Rep(m, t) && t.Node? && Apart(t)
    ensures Child(m, t.n, s) == Root(Kid(t, s))
    ensures Kid(t, s).Node? ==> Kid(t, s).n != 0 && (Kid(t, s).n in m.red <==> Kid(t, s).red)
  {
  }

  /** The side of a focus that may be empty, its sibling being a node. */
  lemma SideOf(m: Links, t: Tree, c: Ctx)
    requires Holds(m, t, c) && c.In? && c.sib.Node?
    ensures Child(m, c.n, L) == Root(t) <==> c.s.L?
    ensures Child(m, c.n, Other(c.s)) == c.sib.n != 0 && (c.sib.n in m.red <==> c.sib.red)
  {
    assert c.sib.n in CtxIds(c);
    assert t.Node? ==> t.n in Ids(t);
  }

  lemma FocusFacts(m: Links, t: Tree, c: Ctx)
    requires Holds(m, t, c)
    ensures t.Node? ==> t.n != 0 && (t.n in m.red <==> t.red)
    ensures Root(t) == m.root <==> c.Top?
  {
    if c.In? {
      RootInCtx(m, c, Root(t));
      CtxZeroNot(c);
      assert t.Node? ==> t.n in Ids(t);
    }
  }

  lemma WholeOfGrand(t: Tree, c: Ctx)
    requires c.In? && c.up.In?
    ensures Whole(Grand(t, c), c.up.up) == Whole(t, c)
  {
    UpSame(t, c);
    UpSame(Make(c.s, t, c.n, c.red, c.sib), c.up);
  }

  lemma PlugNode(t: Tree, c: Ctx)
    requires t.Node?
    ensures Plug(t, c).Node?
    decreases c
  {
    if c.In? { PlugNode(Make(c.s, t, c.n, c.red, c.sib), c.up); }
  }

  lemma ContextColour(m: Links, t: Tree, c: Ctx)
    requires Holds(m, t, c)
    ensures CtxId(c) != 0 && CtxId(c) in m.red <==> CtxRed(c)
  {
  }
}
