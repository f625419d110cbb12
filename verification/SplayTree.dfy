/**
 Splay trees of libuv, part 2: the operations on linked nodes.

 The generated code spells out the two mirror images; here the side is a parameter.
 */
module SplayTree {
  import opened SplayShape
  import O = RbOrder

  /** The sought key relative to an element: negative if it lies before the element. */
  type Seek = Id -> int

  /** Seeking the key of `e`. */
  function Key(cmp: O.Compare, e: Id): Seek { (x: Id) => cmp(e, x) }

  /** The sought key has one place in `s`: once an element is not before it, all later ones are behind it. */
  ghost predicate Cut(c: Seek, s: seq<Id>) { forall i, j :: 0 <= i < j < |s| && c(s[i]) <= 0 ==> c(s[j]) < 0 }

  ghost predicate AllBefore(c: Seek, s: seq<Id>) { forall x :: x in s ==> c(x) > 0 }
  ghost predicate AllBehind(c: Seek, s: seq<Id>) { forall x :: x in s ==> c(x) < 0 }

  lemma CutAt(c: Seek, a: seq<Id>, n: Id, b: seq<Id>)
    requires Cut(c, a + [n] + b)
    ensures c(n) >= 0 ==> AllBefore(c, a)
    ensures c(n) <= 0 ==> AllBehind(c, b)
  {
    var s := a + [n] + b;
    assert s[|a|] == n;
    forall x | x in a && c(n) >= 0 ensures c(x) > 0 {
      var i :| 0 <= i < |a| && a[i] == x;
      assert s[i] == x;
    }
    forall x | x in b && c(n) <= 0 ensures c(x) < 0 {
      var i :| 0 <= i < |b| && b[i] == x;
      assert s[|a| + 1 + i] == x;
    }
  }

  // ---------- one step of splaying ----------

  function Rotated(t: Tree, s: Side): Tree
    requires t.Node? && Kid(t, s).Node?
  {
    var x := Kid(t, s);
    Make(s, Kid(x, s), x.n, Make(s, Kid(x, Other(s)), t.n, Kid(t, Other(s))))
  }

  lemma RotatedSame(t: Tree, s: Side)
    requires t.Node? && Kid(t, s).Node?
    ensures Inorder(Rotated(t, s)) == Inorder(t) && Ids(Rotated(t, s)) == Ids(t)
    ensures Apart(t) ==> Apart(Rotated(t, s))
  {
    var x := Kid(t, s);
    assert Apart(t) ==> Apart(x) && Ids(x) !! Ids(Kid(t, Other(s))) && t.n !in Ids(x);
    if s.L? {
      Shuffle(Inorder(x.l), x.n, Inorder(x.r), t.n, Inorder(t.r));
    } else {
      Shuffle(Inorder(t.l), t.n, Inorder(x.l), x.n, Inorder(x.r));
    }
  }

  lemma Shuffle(a: seq<Id>, x: Id, b: seq<Id>, y: Id, d: seq<Id>)
    ensures (a + [x] + b) + [y] + d == a + [x] + (b + [y] + d)
  {
  }

  /** Only the links of nodes in `ids` differ. */
  ghost predicate Only(m: Links, m': Links, ids: set<Id>) {
    forall n, s :: n !in ids ==> Get(m', n, s) == Get(m, n, s)
  }

  lemma RotateRep(m: Links, t: Tree, s: Side)
    requires Rep(m, t) && Apart(t) && t.Node? && Kid(t, s).Node?
    ensures var x := Kid(t, s);
      var m' := Set(Set(m, t.n, s, Get(m, x.n, Other(s))), x.n, Other(s), t.n);
      Rep(m', Rotated(t, s)) && Only(m, m', Ids(t))
  {
    var x := Kid(t, s);
    var m' := Set(Set(m, t.n, s, Get(m, x.n, Other(s))), x.n, Other(s), t.n);
    assert x.n in Ids(x) && Rep(m, x) && Apart(x) && Ids(x) <= Ids(t);
    RepFrame(m, m', Kid(x, s));
    RepFrame(m, m', Kid(x, Other(s)));
    RepFrame(m, m', Kid(t, Other(s)));
  }

  /** The root moves to the end of the spine open on side `s`, and its child there becomes the middle tree. */
  lemma LinkRep(m: Links, sp: Spine, t: Tree, s: Side)
    requires Rep(m, t) && Apart(t) && t.Node? && RepSpine(m, sp, s) && SpineApart(sp) && Ids(t) !! SpineIds(sp)
    ensures var m' := Set(m, Tail(sp), s, t.n);
      && RepSpine(m', Snoc(sp, t.n, Kid(t, Other(s))), s) && Rep(m', Kid(t, s))
      && SpineApart(Snoc(sp, t.n, Kid(t, Other(s)))) && Get(m', t.n, s) == Root(Kid(t, s))
  {
    var m' := Set(m, Tail(sp), s, t.n);
    ScratchNot(t);
    assert sp.Snoc? ==> sp.n in SpineIds(sp);
    SpineFrame(m, m', sp, s);
    RepFrame(m, m', t.l);
    RepFrame(m, m', t.r);
  }

  lemma LinkOrder(lo: Spine, t: Tree, hi: Spine, s: Side)
    requires t.Node?
    ensures s.L? ==> Whole(lo, t.l, Snoc(hi, t.n, t.r)) == Whole(lo, t, hi)
    ensures s.R? ==> Whole(Snoc(lo, t.n, t.l), t.r, hi) == Whole(lo, t, hi)
  {
    Group(Order(lo, R), Inorder(t.l), t.n, Inorder(t.r), Order(hi, L));
  }

  lemma Group(a: seq<Id>, b: seq<Id>, n: Id, d: seq<Id>, e: seq<Id>)
    ensures a + b + ([n] + d + e) == a + (b + [n] + d) + e == a + (b + [n]) + d + e
    ensures a + (b + [n] + d) + e == (a + b) + [n] + (d + e)
  {
  }

  /** The elements of the three trees lie where the sought key says. */
  ghost predicate Sought(c: Seek, lo: Spine, t: Tree, hi: Spine) {
    Cut(c, Whole(lo, t, hi)) && AllBefore(c, Order(lo, R)) && AllBehind(c, Order(hi, L))
  }

  lemma RootCut(c: Seek, lo: Spine, t: Tree, hi: Spine)
    requires Cut(c, Whole(lo, t, hi)) && t.Node?
    ensures c(t.n) >= 0 ==> AllBefore(c, Order(lo, R) + Inorder(t.l))
    ensures c(t.n) <= 0 ==> AllBehind(c, Inorder(t.r) + Order(hi, L))
  {
    Group(Order(lo, R), Inorder(t.l), t.n, Inorder(t.r), Order(hi, L));
    CutAt(c, Order(lo, R) + Inorder(t.l), t.n, Inorder(t.r) + Order(hi, L));
  }

  /** Linking keeps the sought key between the outer trees. */
  lemma LinkSought(c: Seek, lo: Spine, t: Tree, hi: Spine, s: Side)
    requires Sought(c, lo, t, hi) && t.Node? && (if s.L? then c(t.n) < 0 else c(t.n) > 0)
    ensures s.L? ==> Sought(c, lo, t.l, Snoc(hi, t.n, t.r))
    ensures s.R? ==> Sought(c, Snoc(lo, t.n, t.l), t.r, hi)
  {
    LinkOrder(lo, t, hi, s);
    RootCut(c, lo, t, hi);
  }

  class Head {
    var root: Id
    var child: Links
    ghost var tree: Tree

    constructor ()
      ensures tree == Leaf && Valid()
    {
      root := 0;
      child := map[];
      tree := Leaf;
    }

    ghost predicate Valid()
      reads this
    {
      Apart(tree) && Rep(child, tree) && root == Root(tree)
    }

    ghost function Elements(): seq<Id> reads this { Inorder(tree) }

    /** One round towards side `s`: perhaps a rotation, and then the root goes to the outer tree. */
    method Round(c: Seek, s: Side, tail: Id, ghost lo: Spine, ghost t: Tree, ghost hi: Spine)
      returns (done: bool, tail': Id, ghost lo': Spine, ghost t': Tree, ghost hi': Spine)
      requires Three(child, lo, t, hi) && Sought(c, lo, t, hi) && t.Node? && root == t.n
          && (if s.L? then c(t.n) < 0 else c(t.n) > 0)
      requires tail == Tail(if s.L? then hi else lo)
      modifies this`root, this`child
      ensures Three(child, lo', t', hi') && Sought(c, lo', t', hi') && t'.Node? && root == t'.n
          && Whole(lo', t', hi') == Whole(lo, t, hi)
      ensures done ==> lo' == lo && hi' == hi && tail' == tail && Kid(t', s).Leaf?
      ensures done ==> if s.L? then c(t'.n) < 0 else c(t'.n) > 0
      ensures !done ==> Size(t') < Size(t) && tail' == Tail(if s.L? then hi' else lo')
      ensures !done ==> if s.L? then lo' == lo else hi' == hi
      ensures Only(old(child), child, Ids(t) + SpineIds(lo) + SpineIds(hi) + {SCRATCH})
      ensures Ids(t') + SpineIds(lo') + SpineIds(hi') == Ids(t) + SpineIds(lo) + SpineIds(hi)
    {
      done, tail', lo', t', hi' := true, tail, lo, t, hi;
      ScratchNot(t);
      assert root in Ids(t);
      var tmp := Get(child, root, s);
      if Kid(t, s).Node? { assert Apart(Kid(t, s)); }
      if tmp == 0 { return; }
      if (if s.L? then c(tmp) < 0 else c(tmp) > 0) {
        Turn(s, tmp, lo, t, hi);
        t' := Rotated(t, s);
        RotatedSame(t, s);
        assert Whole(lo, t', hi) == Whole(lo, t, hi);
        if Get(child, root, s) == 0 {
          assert Kid(t', s).Leaf? by { if Kid(t', s).Node? { assert Apart(Kid(t', s)); } }
          return;
        }
      }
      done := false;
      ghost var u := t';
      tail', lo', t', hi' := Attach(c, s, tail, lo, u, hi);
    }

    /** Rotation at the root. */
    method Turn(s: Side, tmp: Id, ghost lo: Spine, ghost t: Tree, ghost hi: Spine)
      requires Three(child, lo, t, hi) && t.Node? && root == t.n && Kid(t, s).Node? && tmp == Kid(t, s).n
      modifies this`root, this`child
      ensures Three(child, lo, Rotated(t, s), hi) && root == tmp && Only(old(child), child, Ids(t))
    {
      RotateRep(child, t, s);
      RotatedSame(t, s);
      ghost var m := child;
      child := Set(child, root, s, Get(child, tmp, Other(s)));
      child := Set(child, tmp, Other(s), root);
      root := tmp;
      ScratchNot(t);
      SpineFrame(m, child, lo, R);
      SpineFrame(m, child, hi, L);
    }

    /** The root goes to the outer tree open on side `s`. */
    method Attach(c: Seek, s: Side, tail: Id, ghost lo: Spine, ghost t: Tree, ghost hi: Spine)
      returns (tail': Id, ghost lo': Spine, ghost t': Tree, ghost hi': Spine)
      requires Three(child, lo, t, hi) && Sought(c, lo, t, hi) && t.Node? && root == t.n
          && (if s.L? then c(t.n) < 0 else c(t.n) > 0)
      requires tail == Tail(if s.L? then hi else lo) && Kid(t, s).Node?
      modifies this`root, this`child
      ensures t' == Kid(t, s) && Three(child, lo', t', hi') && Sought(c, lo', t', hi') && root == t'.n
          && Whole(lo', t', hi') == Whole(lo, t, hi)
      ensures tail' == Tail(if s.L? then hi' else lo') && (if s.L? then lo' == lo else hi' == hi)
      ensures Only(old(child), child, SpineIds(lo) + SpineIds(hi) + {SCRATCH})
      ensures Ids(t') + SpineIds(lo') + SpineIds(hi') == Ids(t) + SpineIds(lo) + SpineIds(hi)
    {
      LinkThree(child, lo, t, hi, s);
      LinkOrder(lo, t, hi, s);
      LinkSought(c, lo, t, hi, s);
      child := Set(child, tail, s, root);
      tail' := root;
      root := Get(child, root, s);
      t' := Kid(t, s);
      lo' := if s.L? then lo else Snoc(lo, t.n, t.l);
      hi' := if s.L? then Snoc(hi, t.n, t.r) else hi;
    }

    /** Put the three trees together. */
    method Assemble(left: Id, right: Id, ghost lo: Spine, ghost t: Tree, ghost hi: Spine) returns (ghost t': Tree)
      requires Three(child, lo, t, hi) && t.Node? && root == t.n && left == Tail(lo) && right == Tail(hi)
      modifies this`child
      ensures t' == Node(Closed(lo, R, t.l), t.n, Closed(hi, L, t.r)) && Apart(t') && Rep(child, t')
      ensures Only(old(child), child, Ids(t) + SpineIds(lo) + SpineIds(hi) + {SCRATCH})
      ensures Ids(t') == Ids(t) + SpineIds(lo) + SpineIds(hi)
    {
      t' := Node(Closed(lo, R, t.l), t.n, Closed(hi, L, t.r));
      AssembleRep(child, lo, t, hi);
      child := Set(child, left, R, Get(child, root, L));
      child := Set(child, right, L, Get(child, root, R));
      child := Set(child, root, L, Get(child, SCRATCH, R));
      child := Set(child, root, R, Get(child, SCRATCH, L));
    }

    /**
     Splay the tree `t` that hangs at the root: the same elements in the same order, those to the left of
     the new root before the sought key and those to its right behind it.
     */
    method SplayBy(c: Seek, ghost t0: Tree) returns (ghost t: Tree)
      requires t0.Node? && Apart(t0) && Rep(child, t0) && root == t0.n && Cut(c, Inorder(t0))
      modifies this`root, this`child
      ensures t.Node? && Apart(t) && Rep(child, t) && root == t.n && Ids(t) == Ids(t0)
      ensures Inorder(t) == Inorder(t0) && AllBefore(c, Inorder(t.l)) && AllBehind(c, Inorder(t.r))
      ensures Only(old(child), child, Ids(t0) + {SCRATCH})
    {
      var left, right := SCRATCH, SCRATCH;
      ghost var lo, hi := Bare, Bare;
      t := t0;
      assert Whole(lo, t, hi) == Inorder(t0);
      var done := false;
      while !done && c(root) != 0
        invariant Three(child, lo, t, hi) && Sought(c, lo, t, hi) && t.Node? && root == t.n
        invariant left == Tail(lo) && right == Tail(hi) && Whole(lo, t, hi) == Inorder(t0)
        invariant done ==> if c(root) < 0 then t.l.Leaf? else t.r.Leaf?
        invariant Ids(t) + SpineIds(lo) + SpineIds(hi) == Ids(t0) && Only(old(child), child, Ids(t0) + {SCRATCH})
        decreases !done, Size(t)
      {
        var s := if c(root) < 0 then L else R;
        var tail;
        done, tail, lo, t, hi := Round(c, s, if s.L? then right else left, lo, t, hi);
        if s.L? { right := tail; } else { left := tail; }
      }
      SplayedOrder(c, lo, t, hi);
      t := Assemble(left, right, lo, t, hi);
    }

    // ---------- the operations ----------

    /** The elements are in the order of `cmp`. */
    ghost predicate Ordered(cmp: O.Compare)
      reads this
    {
      Valid() && O.Order(cmp) && O.Sorted(cmp, Elements())
    }

    method Splay(cmp: O.Compare, e: Id)
      requires Ordered(cmp) && tree.Node?
      modifies this
      ensures Ordered(cmp) && tree.Node? && Elements() == old(Elements())
      ensures AllBefore(Key(cmp, e), Inorder(tree.l)) && AllBehind(Key(cmp, e), Inorder(tree.r))
    {
      SeekCut(cmp, e, Elements());
      tree := SplayBy(Key(cmp, e), tree);
    }

    /** The element with the same key, or null; it is then at the root. */
    method Find(cmp: O.Compare, e: Id) returns (r: Id)
      requires Ordered(cmp)
      modifies this
      ensures Ordered(cmp) && Elements() == old(Elements())
      ensures r != 0 ==> r in Elements() && cmp(e, r) == 0 && root == r
      ensures r == 0 ==> forall x :: x in Elements() ==> cmp(e, x) != 0
    {
      if root == 0 { return 0; }
      Splay(cmp, e);
      NewElement(cmp, e, tree);
      r := if cmp(e, root) == 0 then root else 0;
    }

    /** Bring the first or the last element to the root. */
    method MinMax(low: bool)
      requires Valid() && tree.Node?
      modifies this
      ensures Valid() && Elements() == old(Elements()) && Elements() != []
      ensures root == if low then Elements()[0] else Elements()[|Elements()|-1]
    {
      var c := (x: Id) => if low then -1 else 1;
      tree := SplayBy(c, tree);
      RootIn(tree.l);
      RootIn(tree.r);
    }

    /** Insert `e` unless an element with an equal key is there, which is then returned. */
    method Insert(cmp: O.Compare, e: Id) returns (r: Id, ghost i: nat)
      requires Ordered(cmp) && e > SCRATCH
      modifies this
      ensures Ordered(cmp)
      ensures r != 0 ==> r in Elements() && cmp(e, r) == 0 && Elements() == old(Elements())
      ensures r == 0 ==>
        && (forall x :: x in old(Elements()) ==> cmp(e, x) != 0)
        && i <= |old(Elements())| && Elements() == old(Elements())[..i] + [e] + old(Elements())[i..]
    {
      i := 0;
      if root == 0 {
        child := Set(Set(child, e, L, 0), e, R, 0);
        tree := Node(Leaf, e, Leaf);
      } else {
        Splay(cmp, e);
        ghost var t, w := tree, Elements();
        ghost var m := child;
        NewElement(cmp, e, t);
        var comp := cmp(e, root);
        if comp == 0 { return root, 0; }
        if comp < 0 {
          i := |Inorder(t.l)|;
          child := Set(child, e, L, Get(child, root, L));
          child := Set(child, e, R, root);
          child := Set(child, root, L, 0);
          tree := Node(t.l, e, Node(Leaf, t.n, t.r));
        } else {
          i := |Inorder(t.l)| + 1;
          child := Set(child, e, R, Get(child, root, R));
          child := Set(child, e, L, root);
          child := Set(child, root, R, 0);
          tree := Node(Node(t.l, t.n, Leaf), e, t.r);
        }
        InsertedRep(m, child, t, e, comp < 0);
        InsertedOrder(cmp, e, t, w, comp < 0);
      }
      root := e;
      r := 0;
    }

    /** Remove the element with the key of `e`, if there is one. */
    method Remove(cmp: O.Compare, e: Id) returns (r: Id, ghost i: nat)
      requires Ordered(cmp) && e != 0
      modifies this
      ensures Ordered(cmp)
      ensures r == 0 ==> Elements() == old(Elements()) && forall x :: x in Elements() ==> cmp(e, x) != 0
      ensures r != 0 ==> r == e && i < |old(Elements())| && cmp(e, old(Elements())[i]) == 0
      ensures r != 0 ==> Elements() == old(Elements())[..i] + old(Elements())[i+1..]
      ensures r != 0 ==> (r == old(Elements())[i] <==> e in old(Elements()))
    {
      i := 0;
      if root == 0 { return 0, 0; }
      Splay(cmp, e);
      ghost var t, w := tree, Elements();
      NewElement(cmp, e, t);
      if cmp(e, root) != 0 { return 0, 0; }
      i := |Inorder(t.l)|;
      RemovedOrder(cmp, t, w);
      EqualIsSelf(cmp, e, w, i);
      if Get(child, root, L) == 0 {
        assert t.l.Leaf? by { if t.l.Node? { assert Apart(t.l); } }
        root := Get(child, root, R);
        tree := t.r;
      } else {
        var tmp := Get(child, root, R);
        root := Get(child, root, L);
        ghost var u := JoinLeft(cmp, e, tmp, t);
        tree := u;
      }
      r := e;
    }

    /** Splay the left subtree once more: its largest element comes up, and takes the right subtree. */
    method JoinLeft(cmp: O.Compare, e: Id, tmp: Id, ghost t: Tree) returns (ghost u: Tree)
      requires O.Order(cmp) && O.Sorted(cmp, Inorder(t)) && Apart(t) && Rep(child, t) && t.Node? && t.l.Node?
      requires root == t.l.n && tmp == Root(t.r) && AllBefore(Key(cmp, e), Inorder(t.l))
      modifies this`root, this`child
      ensures Apart(u) && Rep(child, u) && root == Root(u) && Inorder(u) == Inorder(t.l) + Inorder(t.r)
    {
      ghost var m := child;
      LeftSorted(cmp, t);
      SeekCut(cmp, e, Inorder(t.l));
      ghost var v := SplayBy(Key(cmp, e), t.l);
      ScratchNot(t);
      RepFrame(m, child, t.r);
      EmptyRight(Key(cmp, e), v, Inorder(t.l));
      RightHung(child, v, t.r);
      child := Set(child, root, R, tmp);
      u := Node(v.l, v.n, t.r);
    }
  }

  lemma RightHung(m: Links, v: Tree, r: Tree)
    requires v.Node? && v.r.Leaf? && Apart(v) && Rep(m, v) && Apart(r) && Rep(m, r) && Ids(v) !! Ids(r)
    ensures var m', u := Set(m, v.n, R, Root(r)), Node(v.l, v.n, r);
      Apart(u) && Rep(m', u) && Inorder(u) == Inorder(v) + Inorder(r)
  {
    var m' := Set(m, v.n, R, Root(r));
    assert v.n !in Ids(v.l) && v.n !in Ids(r) && Ids(v.l) !! Ids(r) by {
      assert Ids(v) == Ids(v.l) + {v.n} + Ids(v.r);
    }
    RepFrame(m, m', v.l);
    RepFrame(m, m', r);
    RightHungOrder(v, r);
  }

  lemma RightHungOrder(v: Tree, r: Tree)
    requires v.Node? && v.r.Leaf?
    ensures Inorder(Node(v.l, v.n, r)) == Inorder(v) + Inorder(r)
  {
    assert Inorder(v) == Inorder(v.l) + [v.n];
  }

  lemma LinkThree(m: Links, lo: Spine, t: Tree, hi: Spine, s: Side)
    requires Three(m, lo, t, hi) && t.Node?
    ensures var sp := if s.L? then hi else lo;
      var m' := Set(m, Tail(sp), s, t.n);
      && Three(m', if s.L? then lo else Snoc(lo, t.n, t.l), Kid(t, s), if s.L? then Snoc(hi, t.n, t.r) else hi)
      && Get(m', t.n, s) == Root(Kid(t, s)) && Only(m, m', SpineIds(lo) + SpineIds(hi) + {SCRATCH})
  {
    var sp := if s.L? then hi else lo;
    var m' := Set(m, Tail(sp), s, t.n);
    LinkRep(m, sp, t, s);
    assert hi.Snoc? ==> hi.n in SpineIds(hi);
    assert lo.Snoc? ==> lo.n in SpineIds(lo);
    if s.L? { SpineFrame(m, m', lo, R); } else { SpineFrame(m, m', hi, L); }
  }

  /** The first two assignments of the assembly fill the open places. */
  function Filled(m: Links, lo: Spine, n: Id, hi: Spine): Links {
    var m1 := Set(m, Tail(lo), R, Get(m, n, L));
    Set(m1, Tail(hi), L, Get(m1, n, R))
  }

  lemma FilledRep(m: Links, lo: Spine, t: Tree, hi: Spine, m2: Links)
    requires Three(m, lo, t, hi) && t.Node? && m2 == Filled(m, lo, t.n, hi)
    ensures RepSpine(m2, lo, R) && RepSpine(m2, hi, L) && Rep(m2, t.l) && Rep(m2, t.r)
    ensures Get(m2, Tail(lo), R) == Root(t.l) && Get(m2, Tail(hi), L) == Root(t.r)
    ensures Only(m, m2, SpineIds(lo) + SpineIds(hi) + {SCRATCH})
  {
    ScratchNot(t);
    assert hi.Snoc? ==> hi.n in SpineIds(hi);
    assert lo.Snoc? ==> lo.n in SpineIds(lo);
    assert forall n, k :: n == Tail(hi) && k == L ==> Get(m2, n, k) == Root(t.r);
    assert forall n, k :: n == Tail(lo) && k == R ==> Get(m2, n, k) == Root(t.l);
    assert forall n, k :: !(n == Tail(hi) && k == L) && !(n == Tail(lo) && k == R) ==> Get(m2, n, k) == Get(m, n, k);
    SpineFrame(m, m2, lo, R);
    SpineFrame(m, m2, hi, L);
    RepFrame(m, m2, t.l);
    RepFrame(m, m2, t.r);
  }

  lemma AssembleRep(m: Links, lo: Spine, t: Tree, hi: Spine)
    requires Three(m, lo, t, hi) && t.Node?
    ensures var m2 := Filled(m, lo, t.n, hi);
      var m3 := Set(m2, t.n, L, Get(m2, SCRATCH, R));
      var m4 := Set(m3, t.n, R, Get(m3, SCRATCH, L));
      var t' := Node(Closed(lo, R, t.l), t.n, Closed(hi, L, t.r));
      && Apart(t') && Rep(m4, t') && Only(m, m4, Ids(t) + SpineIds(lo) + SpineIds(hi) + {SCRATCH})
      && Ids(t') == Ids(t) + SpineIds(lo) + SpineIds(hi)
  {
    var m2 := Filled(m, lo, t.n, hi);
    FilledRep(m, lo, t, hi, m2);
    ClosedIds(lo, R, t.l);
    ClosedIds(hi, L, t.r);
    ClosedRep(m2, lo, R, t.l);
    ClosedRep(m2, hi, L, t.r);
    var a, b := Closed(lo, R, t.l), Closed(hi, L, t.r);
    AssembleEnd(m2, t.n, a, b);
    AssembledIds(lo, t, hi, a, b);
  }

  lemma AssembledIds(lo: Spine, t: Tree, hi: Spine, a: Tree, b: Tree)
    requires t.Node? && Apart(t) && Apart(a) && Apart(b) && Ids(a) == SpineIds(lo) + Ids(t.l)
        && Ids(b) == SpineIds(hi) + Ids(t.r)
    requires Ids(t) !! SpineIds(lo) && Ids(t) !! SpineIds(hi) && SpineIds(lo) !! SpineIds(hi)
    ensures Apart(Node(a, t.n, b)) && Ids(Node(a, t.n, b)) == Ids(t) + SpineIds(lo) + SpineIds(hi) && t.n in Ids(t)
  {
    PartsApart(t.n, Ids(t.l), Ids(t.r), SpineIds(lo), SpineIds(hi));
    AllParts(t.n, Ids(t.l), Ids(t.r), SpineIds(lo), SpineIds(hi));
  }

  lemma PartsApart(n: Id, l: set<Id>, r: set<Id>, lo: set<Id>, hi: set<Id>)
    requires l + {n} + r !! lo && l + {n} + r !! hi && lo !! hi && l !! r && n !in l && n !in r
    ensures n !in lo + l && n !in hi + r && lo + l !! hi + r
  {
  }

  lemma AllParts(n: Id, l: set<Id>, r: set<Id>, lo: set<Id>, hi: set<Id>)
    ensures (lo + l) + {n} + (hi + r) == (l + {n} + r) + lo + hi && n in l + {n} + r
  {
  }

  lemma AssembleEnd(m2: Links, n: Id, a: Tree, b: Tree)
    requires n > SCRATCH && n !in Ids(a) && n !in Ids(b) && Rep(m2, a) && Rep(m2, b)
    requires Get(m2, SCRATCH, R) == Root(a) && Get(m2, SCRATCH, L) == Root(b)
    ensures var m3 := Set(m2, n, L, Get(m2, SCRATCH, R));
      var m4 := Set(m3, n, R, Get(m3, SCRATCH, L));
      Rep(m4, Node(a, n, b)) && Only(m2, m4, {n})
  {
    var m3 := Set(m2, n, L, Get(m2, SCRATCH, R));
    var m4 := Set(m3, n, R, Get(m3, SCRATCH, L));
    RepFrame(m2, m4, a);
    RepFrame(m2, m4, b);
  }

  lemma SplayedOrder(c: Seek, lo: Spine, t: Tree, hi: Spine)
    requires Sought(c, lo, t, hi) && t.Node? && (c(t.n) < 0 ==> t.l.Leaf?) && (c(t.n) > 0 ==> t.r.Leaf?)
    ensures var a, b := Closed(lo, R, t.l), Closed(hi, L, t.r);
      && AllBefore(c, Inorder(a)) && AllBehind(c, Inorder(b)) && Inorder(Node(a, t.n, b)) == Whole(lo, t, hi)
  {
    ClosedOrder(lo, R, t.l);
    ClosedOrder(hi, L, t.r);
    RootCut(c, lo, t, hi);
    Group(Order(lo, R), Inorder(t.l), t.n, Inorder(t.r), Order(hi, L));
  }

  lemma SeekCut(cmp: O.Compare, e: Id, s: seq<Id>)
    requires O.Order(cmp) && O.Sorted(cmp, s)
    ensures Cut(Key(cmp, e), s)
  {
    var c := Key(cmp, e);
    forall i, j | 0 <= i < j < |s| && c(s[i]) <= 0 ensures c(s[j]) < 0 {
      O.Transitive(cmp, e, s[i], s[j]);
    }
  }

  lemma EmptyRight(c: Seek, v: Tree, w: seq<Id>)
    requires v.Node? && AllBehind(c, Inorder(v.r)) && Inorder(v) == w && AllBefore(c, w)
    ensures v.r.Leaf?
  {
    RootIn(v.r);
    assert forall x :: x in Inorder(v.r) ==> x in w;
  }

  lemma RootIn(t: Tree)
    ensures t.Node? ==> Root(t) in Inorder(t)
  {
  }

  lemma LeftSorted(cmp: O.Compare, t: Tree)
    requires t.Node? && O.Sorted(cmp, Inorder(t))
    ensures O.Sorted(cmp, Inorder(t.l))
  {
    var w, a := Inorder(t), Inorder(t.l);
    assert forall i :: 0 <= i < |a| ==> w[i] == a[i];
  }

  lemma RemovedOrder(cmp: O.Compare, t: Tree, w: seq<Id>)
    requires t.Node? && w == Inorder(t) && O.Sorted(cmp, w)
    ensures var i := |Inorder(t.l)|;
      i < |w| && w[i] == t.n && Inorder(t.l) + Inorder(t.r) == w[..i] + w[i+1..] && O.Sorted(cmp, w[..i] + w[i+1..])
  {
    O.SortedRemove(cmp, w, |Inorder(t.l)|);
  }

  /** After splaying for `e`, it is new unless its key is that of the root. */
  lemma NewElement(cmp: O.Compare, e: Id, t: Tree)
    requires O.Order(cmp) && t.Node? && AllBefore(Key(cmp, e), Inorder(t.l)) && AllBehind(Key(cmp, e), Inorder(t.r))
    ensures cmp(e, t.n) != 0 ==> e !in Ids(t) && forall x :: x in Inorder(t) ==> cmp(e, x) != 0
    ensures t.n in Inorder(t)
  {
    assert O.Opposite(cmp, e, e);
    IdsOrder(t);
    assert forall x :: x in Inorder(t) <==> x in Inorder(t.l) || x == t.n || x in Inorder(t.r);
  }

  lemma InsertedRep(m: Links, m': Links, t: Tree, e: Id, low: bool)
    requires t.Node? && Apart(t) && Rep(m, t) && e !in Ids(t) && e > SCRATCH
    requires m' == if low then Set(Set(Set(m, e, L, Get(m, t.n, L)), e, R, t.n), t.n, L, 0)
                   else Set(Set(Set(m, e, R, Get(m, t.n, R)), e, L, t.n), t.n, R, 0)
    ensures var u := if low then Node(t.l, e, Node(Leaf, t.n, t.r)) else Node(Node(t.l, t.n, Leaf), e, t.r);
      Apart(u) && Rep(m', u)
  {
    RepFrame(m, m', t.l);
    RepFrame(m, m', t.r);
  }

  lemma InsertedOrder(cmp: O.Compare, e: Id, t: Tree, w: seq<Id>, low: bool)
    requires O.Order(cmp) && t.Node? && w == Inorder(t) && O.Sorted(cmp, w) && cmp(e, t.n) != 0
        && (low <==> cmp(e, t.n) < 0)
    requires AllBefore(Key(cmp, e), Inorder(t.l)) && AllBehind(Key(cmp, e), Inorder(t.r))
    ensures var i := if low then |Inorder(t.l)| else |Inorder(t.l)| + 1;
      var u := if low then Node(t.l, e, Node(Leaf, t.n, t.r)) else Node(Node(t.l, t.n, Leaf), e, t.r);
      i <= |w| && Inorder(u) == w[..i] + [e] + w[i..] && O.Sorted(cmp, Inorder(u))
  {
    var a, b := if low then Inorder(t.l) else Inorder(t.l) + [t.n], if low then [t.n] + Inorder(t.r) else Inorder(t.r);
    assert w == a + b;
    O.SortedInsert(cmp, a, e, b);
    InsertedParts(e, t, low);
  }

  lemma InsertedParts(e: Id, t: Tree, low: bool)
    requires t.Node?
    ensures var u := if low then Node(t.l, e, Node(Leaf, t.n, t.r)) else Node(Node(t.l, t.n, Leaf), e, t.r);
      Inorder(u) == if low then Inorder(t.l) + [e] + ([t.n] + Inorder(t.r))
          else (Inorder(t.l) + [t.n]) + [e] + Inorder(t.r)
  {
    if low {
      assert Inorder(Node(Leaf, t.n, t.r)) == [t.n] + Inorder(t.r);
    } else {
      assert Inorder(Node(t.l, t.n, Leaf)) == Inorder(t.l) + [t.n];
    }
  }

  function Size(t: Tree): nat { if t.Leaf? then 0 else 1 + Size(t.l) + Size(t.r) }

  /** The element equal to `e` is `e` itself exactly if `e` is one of the elements. */
  lemma EqualIsSelf(cmp: O.Compare, e: Id, w: seq<Id>, i: nat)
    requires O.Order(cmp) && O.Sorted(cmp, w) && i < |w| && cmp(e, w[i]) == 0
    ensures w[i] == e <==> e in w
  {
    assert O.Opposite(cmp, w[i], e);
  }

  /** A node that is not in the tree is what removing it returns, while another one leaves. */
  method RemovesAnother() returns (r: Id, ghost before: seq<Id>, ghost after: seq<Id>)
    ensures r == 3 && before == [2] && after == []
  {
    var cmp: O.Compare := (a, b) => 0;
    var head := new Head();
    var none;
    ghost var i;
    none, i := head.Insert(cmp, 2);
    before := head.Elements();
    assert before == [2] && before[0] == 2 && cmp(3, 2) == 0;
    r, i := head.Remove(cmp, 3);
    after := head.Elements();
  }
}
