/**
 Red-black trees of libuv, part 3: colours and black heights, and what the repair steps of insertion and
 removal do to them.
 */
module RbBalance {
  import opened RbShape
  import opened RbLinks

  predicate IsRed(t: Tree) { t.Node? && t.red }
  predicate CtxRed(c: Ctx) { c.In? && c.red }

  function Weight(red: bool): nat { if red then 0 else 1 }

  /** Black nodes on the leftmost path. */
  function BlackHeight(t: Tree): nat { if t.Leaf? then 0 else BlackHeight(t.l) + Weight(t.red) }

  /** All paths have the same number of black nodes and no red node has a red child. */
  predicate Balanced(t: Tree) {
    t.Node? ==>
      && Balanced(t.l) && Balanced(t.r) && BlackHeight(t.l) == BlackHeight(t.r)
      && (t.red ==> !IsRed(t.l) && !IsRed(t.r))
  }

  /** The context is balanced around a focus of black height `h` that is not red below a red node. */
  predicate CtxBalanced(c: Ctx, h: nat) {
    c.In? ==>
      && Balanced(c.sib) && BlackHeight(c.sib) == h
      && (c.red ==> !IsRed(c.sib) && !CtxRed(c.up))
      && CtxBalanced(c.up, h + Weight(c.red))
  }

  /** The outermost node of the context, if any, is black. */
  predicate RootBlack(c: Ctx) { c.In? ==> if c.up.Top? then !c.red else RootBlack(c.up) }

  /** A red-black tree. */
  predicate RedBlack(t: Tree) { Balanced(t) && !IsRed(t) }

  function Depth(c: Ctx): nat { if c.Top? then 0 else 1 + Depth(c.up) }

  lemma MakeBalanced(s: Side, near: Tree, n: Id, red: bool, far: Tree)
    requires Balanced(near) && Balanced(far) && BlackHeight(near) == BlackHeight(far)
    requires red ==> !IsRed(near) && !IsRed(far)
    ensures Balanced(Make(s, near, n, red, far))
        && BlackHeight(Make(s, near, n, red, far)) == BlackHeight(near) + Weight(red)
  {
  }

  lemma KidsBalanced(t: Tree, s: Side)
    requires Balanced(t) && t.Node?
    ensures Balanced(Kid(t, s)) && BlackHeight(t) == BlackHeight(Kid(t, s)) + Weight(t.red)
    ensures t.red ==> !IsRed(Kid(t, s))
  {
  }

  /** Filling a balanced context gives a balanced tree. */
  lemma {:induction false} PlugBalanced(t: Tree, c: Ctx)
    requires Balanced(t) && CtxBalanced(c, BlackHeight(t)) && !(IsRed(t) && CtxRed(c)) && RootBlack(c)
    ensures Balanced(Plug(t, c)) && (c.In? || !IsRed(t) ==> RedBlack(Plug(t, c)))
    decreases c
  {
    if c.In? {
      MakeBalanced(c.s, t, c.n, c.red, c.sib);
      PlugBalanced(Make(c.s, t, c.n, c.red, c.sib), c.up);
    }
  }

  /** A focus of a red-black tree. */
  lemma {:induction false} Unplug(t: Tree, c: Ctx)
    requires RedBlack(Plug(t, c))
    ensures Balanced(t) && CtxBalanced(c, BlackHeight(t)) && !(IsRed(t) && CtxRed(c)) && RootBlack(c)
    ensures c.Top? ==> !IsRed(t)
    decreases c
  {
    if c.In? {
      var p := Make(c.s, t, c.n, c.red, c.sib);
      Unplug(p, c.up);
      KidsBalanced(p, c.s);
      KidsBalanced(p, Other(c.s));
    }
  }

  // ---------- the repair after insertion ----------

  /** The focus is red and everything is in order except that its parent may be red too. */
  predicate RedFocus(t: Tree, c: Ctx) {
    IsRed(t) && Balanced(t) && CtxBalanced(c, BlackHeight(t)) && RootBlack(c)
  }

  lemma GrandParent(t: Tree, c: Ctx)
    requires RedFocus(t, c) && CtxRed(c)
    ensures c.up.In? && !c.up.red && !IsRed(c.sib)
    ensures Balanced(c.up.sib) && Balanced(c.sib) && BlackHeight(c.up.sib) == BlackHeight(c.sib) == BlackHeight(t)
    ensures CtxBalanced(c.up.up, BlackHeight(t) + 1) && RootBlack(c.up.up)
  {
    assert CtxBalanced(c.up, BlackHeight(t)) && c.up.In? && RootBlack(c.up);
  }

  /** The grandparent with everything below it. */
  function Grand(t: Tree, c: Ctx): Tree
    requires c.In? && c.up.In?
  {
    Make(c.up.s, Make(c.s, t, c.n, c.red, c.sib), c.up.n, c.up.red, c.up.sib)
  }

  /** The uncle is red: the grandparent becomes the red focus. */
  function PushedUp(t: Tree, c: Ctx): Tree
    requires c.In? && c.up.In? && c.up.sib.Node?
  {
    Make(c.up.s, Make(c.s, t, c.n, false, c.sib), c.up.n, true, c.up.sib.(red := false))
  }

  lemma PushedUpOk(t: Tree, c: Ctx)
    requires RedFocus(t, c) && CtxRed(c) && c.up.In? && IsRed(c.up.sib)
    ensures RedFocus(PushedUp(t, c), c.up.up) && Inorder(PushedUp(t, c)) == Inorder(Grand(t, c))
  {
    GrandParent(t, c);
    var u := c.up.sib;
    KidsBalanced(u, L);
    KidsBalanced(u, R);
    MakeBalanced(L, u.l, u.n, false, u.r);
    MakeBalanced(c.s, t, c.n, false, c.sib);
    MakeBalanced(c.up.s, Make(c.s, t, c.n, false, c.sib), c.up.n, true, u.(red := false));
  }

  /** The parent, after the rotation that brings an inner grandchild to the outside. */
  function Outward(t: Tree, c: Ctx): (p: Tree)
    requires t.Node? && c.In? && c.up.In?
    ensures p.Node? && p.red == (c.s == c.up.s || t.red)
  {
    var p := Make(c.s, t, c.n, true, c.sib);
    if c.s == c.up.s then p else Rotated(p, c.up.s)
  }

  /** The uncle is black: one or two rotations settle it. */
  function Settled(t: Tree, c: Ctx): Tree
    requires t.Node? && c.In? && c.up.In?
  {
    var p := Outward(t, c);
    Rotated(Make(c.up.s, p.(red := false), c.up.n, true, c.up.sib), Other(c.up.s))
  }

  lemma OutwardOk(t: Tree, c: Ctx)
    requires RedFocus(t, c) && CtxRed(c) && c.up.In?
    ensures var p := Outward(t, c);
      && p.Node? && p.red && Inorder(p) == Inorder(Make(c.s, t, c.n, c.red, c.sib))
      && IsRed(Kid(p, c.up.s)) && Balanced(Kid(p, c.up.s)) && BlackHeight(Kid(p, c.up.s)) == BlackHeight(t)
      && !IsRed(Kid(p, Other(c.up.s))) && Balanced(Kid(p, Other(c.up.s)))
          && BlackHeight(Kid(p, Other(c.up.s))) == BlackHeight(t)
  {
    GrandParent(t, c);
    var gs := c.up.s;
    if c.s != gs {
      KidsBalanced(t, L);
      KidsBalanced(t, R);
      RotatedSame(Make(c.s, t, c.n, true, c.sib), gs);
      MakeBalanced(gs, c.sib, c.n, true, Kid(t, gs));
    }
  }

  lemma SettledOk(t: Tree, c: Ctx)
    requires RedFocus(t, c) && CtxRed(c) && c.up.In? && !IsRed(c.up.sib)
    ensures var f := Settled(t, c);
      && f.Node? && !f.red && Inorder(f) == Inorder(Grand(t, c))
      && RedFocus(Kid(f, c.up.s), Below(f, c.up.up, c.up.s))
  {
    GrandParent(t, c);
    OutwardOk(t, c);
    var gs := c.up.s;
    var p := Outward(t, c);
    var g := Make(gs, p.(red := false), c.up.n, true, c.up.sib);
    RotatedSame(g, Other(gs));
    SameInside(gs, p, Make(c.s, t, c.n, c.red, c.sib), c.up.n, c.up.sib);
    MakeBalanced(Other(gs), c.up.sib, c.up.n, true, Kid(p, Other(gs)));
  }

  lemma SameInside(s: Side, p: Tree, p': Tree, n: Id, u: Tree)
    requires p.Node? && Inorder(p) == Inorder(p')
    ensures Inorder(Make(s, p.(red := false), n, true, u)) == Inorder(Make(s, p', n, false, u))
  {
    assert Inorder(p.(red := false)) == Inorder(p);
  }

  // ---------- the repair after removal ----------

  function Blackened(t: Tree): Tree { if t.Leaf? then Leaf else t.(red := false) }

  /** The focus lacks one black node. */
  predicate ShortFocus(t: Tree, c: Ctx) {
    Balanced(Blackened(t)) && CtxBalanced(c, BlackHeight(t) + 1) && RootBlack(c)
  }

  /** Painting a red or topmost focus black makes up for it. */
  lemma BlackenedOk(t: Tree, c: Ctx)
    requires ShortFocus(t, c) && (IsRed(t) || c.Top?)
    ensures RedBlack(Plug(Blackened(t), c)) && Inorder(Blackened(t)) == Inorder(t)
  {
    PlugBalanced(Blackened(t), c);
  }

  /** The sibling of a short black focus is a node, with black children if it is red. */
  lemma Sibling(t: Tree, c: Ctx)
    requires ShortFocus(t, c) && !IsRed(t) && c.In?
    ensures c.sib.Node? && Balanced(t) && Balanced(c.sib) && BlackHeight(c.sib) == BlackHeight(t) + 1
    ensures forall s :: Balanced(Kid(c.sib, s)) && BlackHeight(Kid(c.sib, s)) + Weight(c.sib.red) == BlackHeight(t) + 1
    ensures c.sib.red ==> forall s :: Kid(c.sib, s).Node? && !IsRed(Kid(c.sib, s))
    ensures CtxBalanced(c.up, BlackHeight(t) + 1 + Weight(c.red))
  {
  }

  /** A red sibling is rotated above the parent. */
  function Raised(c: Ctx): Ctx
    requires c.In? && c.sib.Node?
  {
    In(In(c.up, c.s, c.sib.n, false, Kid(c.sib, Other(c.s))), c.s, c.n, true, Kid(c.sib, c.s))
  }

  lemma RaisedOk(t: Tree, c: Ctx)
    requires ShortFocus(t, c) && !IsRed(t) && c.In? && IsRed(c.sib)
    ensures ShortFocus(t, Raised(c)) && !IsRed(Raised(c).sib) && !c.red
    ensures Whole(t, Raised(c)) == Whole(t, c)
  {
    Sibling(t, c);
    var p := Make(c.s, t, c.n, c.red, c.sib);
    RotatedSame(p, c.s);
    UpSame(t, c);
    UpSame(t, Raised(c));
    UpSame(Make(c.s, t, c.n, true, Kid(c.sib, c.s)), Raised(c).up);
    SameColours(c.s, Make(c.s, t, c.n, true, Kid(c.sib, c.s)), Make(c.s, t, c.n, c.red, Kid(c.sib, c.s)), c.sib.n,
        false, c.sib.red, Kid(c.sib, Other(c.s)));
  }

  lemma SameColours(s: Side, a: Tree, a': Tree, n: Id, red: bool, red': bool, far: Tree)
    requires Inorder(a) == Inorder(a')
    ensures Inorder(Make(s, a, n, red, far)) == Inorder(Make(s, a', n, red', far))
  {
  }

  /** A black sibling with black children turns red, and the parent is short instead. */
  function Passed(t: Tree, c: Ctx): Tree
    requires c.In? && c.sib.Node?
  {
    Make(c.s, t, c.n, c.red, c.sib.(red := true))
  }

  lemma PassedOk(t: Tree, c: Ctx)
    requires ShortFocus(t, c) && !IsRed(t) && c.In? && !IsRed(c.sib)
    requires c.sib.Node? ==> !IsRed(c.sib.l) && !IsRed(c.sib.r)
    ensures c.sib.Node? && ShortFocus(Passed(t, c), c.up) && Whole(Passed(t, c), c.up) == Whole(t, c)
  {
    Sibling(t, c);
    UpSame(t, c);
    var s' := c.sib.(red := true);
    assert Balanced(s') && BlackHeight(s') == BlackHeight(t);
    MakeBalanced(c.s, t, c.n, false, s');
    assert Inorder(s') == Inorder(c.sib);
  }

  /** A red inner nephew is rotated above the black sibling. */
  function Turned(c: Ctx): Ctx
    requires c.In? && c.sib.Node? && Kid(c.sib, c.s).Node?
  {
    var s := c.s;
    c.(sib := Rotated(Make(s, Kid(c.sib, s).(red := false), c.sib.n, true, Kid(c.sib, Other(s))), Other(s)))
  }

  lemma TurnedOk(t: Tree, c: Ctx)
    requires ShortFocus(t, c) && !IsRed(t) && c.In? && c.sib.Node? && !c.sib.red
    requires IsRed(Kid(c.sib, c.s)) && !IsRed(Kid(c.sib, Other(c.s)))
    ensures ShortFocus(t, Turned(c)) && Turned(c).sib.Node? && !Turned(c).sib.red
        && IsRed(Kid(Turned(c).sib, Other(c.s)))
    ensures Whole(t, Turned(c)) == Whole(t, c)
  {
    Sibling(t, c);
    var s, k := c.s, Kid(c.sib, c.s);
    KidsBalanced(k, L);
    KidsBalanced(k, R);
    var sib := Make(s, k.(red := false), c.sib.n, true, Kid(c.sib, Other(s)));
    RotatedSame(sib, Other(s));
    MakeBalanced(Other(s), Kid(c.sib, Other(s)), c.sib.n, true, Kid(k, Other(s)));
    MakeBalanced(Other(s), Make(Other(s), Kid(c.sib, Other(s)), c.sib.n, true, Kid(k, Other(s))), k.n, false,
        Kid(k, s));
    SameColours(s, k.(red := false), k, c.sib.n, true, false, Kid(c.sib, Other(s)));
    assert Inorder(Turned(c).sib) == Inorder(c.sib);
  }

  /** A red outer nephew: one rotation settles it. */
  function Restored(t: Tree, c: Ctx): Tree
    requires c.In? && c.sib.Node? && Kid(c.sib, Other(c.s)).Node?
  {
    Make(c.s, Make(c.s, t, c.n, false, Kid(c.sib, c.s)), c.sib.n, c.red, Kid(c.sib, Other(c.s)).(red := false))
  }

  lemma RestoredOk(t: Tree, c: Ctx)
    requires ShortFocus(t, c) && !IsRed(t) && c.In? && c.sib.Node? && !c.sib.red && IsRed(Kid(c.sib, Other(c.s)))
    ensures RedBlack(Plug(Restored(t, c), c.up))
    ensures Whole(Restored(t, c), c.up) == Whole(t, c)
  {
    Sibling(t, c);
    UpSame(t, c);
    var s, far := c.s, Kid(c.sib, Other(c.s));
    KidsBalanced(far, L);
    KidsBalanced(far, R);
    assert Balanced(far.(red := false)) && BlackHeight(far.(red := false)) == BlackHeight(t) + 1;
    MakeBalanced(s, t, c.n, false, Kid(c.sib, s));
    MakeBalanced(s, Make(s, t, c.n, false, Kid(c.sib, s)), c.sib.n, c.red, far.(red := false));
    PlugBalanced(Restored(t, c), c.up);
    RotatedSame(Make(s, t, c.n, c.red, c.sib), s);
    RestoredOrder(t, c);
  }

  lemma RestoredOrder(t: Tree, c: Ctx)
    requires c.In? && c.sib.Node? && Kid(c.sib, Other(c.s)).Node?
    ensures Inorder(Restored(t, c)) == Inorder(Make(c.s, t, c.n, c.red, c.sib))
  {
    var s, far := c.s, Kid(c.sib, Other(c.s));
    RotatedSame(Make(s, t, c.n, c.red, c.sib), s);
    assert Inorder(far.(red := false)) == Inorder(far);
    assert Inorder(Make(s, t, c.n, false, Kid(c.sib, s))) == Inorder(Make(s, t, c.n, c.red, Kid(c.sib, s)));
  }

  // ---------- height ----------

  function Power2(n: nat): nat { if n == 0 then 1 else 2 * Power2(n - 1) }

  function Height(t: Tree): nat {
    if t.Leaf? then 0 else 1 + if Height(t.l) >= Height(t.r) then Height(t.l) else Height(t.r)
  }

  /** A red-black tree of black height `h` has at least 2^h - 1 nodes and is at most 2h high. */
  lemma {:induction false} HeightBound(t: Tree)
    requires Balanced(t)
    ensures |Inorder(t)| + 1 >= Power2(BlackHeight(t))
    ensures Height(t) <= 2 * BlackHeight(t) + if IsRed(t) then 1 else 0
  {
    if t.Node? {
      HeightBound(t.l);
      HeightBound(t.r);
    }
  }
}
