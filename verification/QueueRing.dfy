/**
 The circular doubly linked list of libuv: a head node and the nodes queued behind it, linked both
 ways in a ring.  Each macro is specified by the sequence of queued nodes it leaves.
 */
module QueueRing {

  class Node {
    var next: Node
    var prev: Node

    constructor ()
      ensures next == this && prev == this
    {
      next := this;
      prev := this;
    }
  }

  /** The node after position `i` of the ring `c`. */
  function After(c: seq<Node>, i: nat): Node
    requires i < |c|
  {
    if i + 1 < |c| then c[i+1] else c[0]
  }

  predicate Distinct(c: seq<Node>) { forall i, j :: 0 <= i < j < |c| ==> c[i] != c[j] }

  ghost predicate Linked(c: seq<Node>)
    reads c
  {
    forall i: nat :: i < |c| ==> c[i].next == After(c, i) && After(c, i).prev == c[i]
  }

  /** `h` is the head of a ring in which the nodes of `s` are queued, in this order. */
  ghost predicate Ring(h: Node, s: seq<Node>)
    reads h, s
  {
    Distinct([h] + s) && Linked([h] + s)
  }

  predicate Empty(q: Node) reads q { q == q.next }

  /** A head links to itself exactly if nothing is queued; its successor is the first queued node. */
  lemma EmptyIff(h: Node, s: seq<Node>)
    requires Ring(h, s)
    ensures Empty(h) <==> s == []
    ensures s != [] ==> h.next == s[0]
    ensures h.prev == if s == [] then h else s[|s|-1]
  {
    var c := [h] + s;
    assert After(c, |s|).prev == c[|s|];
    assert c[0].next == After(c, 0);
    if s != [] { assert c[1] == s[0]; }
  }

  /** A queued node never links to itself, which is how a canceller tells that it is queued. */
  lemma QueuedNotSelf(h: Node, s: seq<Node>, k: nat)
    requires Ring(h, s) && k < |s|
    ensures !Empty(s[k])
    ensures s[k].prev == ([h] + s)[k] && s[k].next == After([h] + s, k + 1)
  {
    var c := [h] + s;
    assert c[k+1] == s[k] && c[k].next == After(c, k) == c[k+1];
    assert c[k+1].next == After(c, k + 1);
  }

  method Init(q: Node)
    modifies q
    ensures Ring(q, []) && Empty(q)
  {
    q.next := q;
    q.prev := q;
  }

  method InsertTail(h: Node, q: Node, ghost s: seq<Node>)
    requires Ring(h, s) && q !in [h] + s
    modifies h, h.prev, q
    ensures Ring(h, s + [q])
  {
    EmptyIff(h, s);
    ghost var c := [h] + s;
    assert h.prev == c[|s|];
    q.next := h;
    q.prev := h.prev;
    q.prev.next := q;
    h.prev := q;
    ghost var d := [h] + (s + [q]);
    assert d == c + [q];
    forall i: nat | i < |d| ensures d[i].next == After(d, i) && After(d, i).prev == d[i] {
      if i < |s| { assert old(c[i].next == After(c, i) && After(c, i).prev == c[i]); }
    }
  }

  /** Unlink a queued node.  The node itself keeps its stale links. */
  method Remove(q: Node, ghost h: Node, ghost s: seq<Node>, ghost k: nat)
    requires Ring(h, s) && k < |s| && s[k] == q
    modifies q.prev, q.next
    ensures Ring(h, s[..k] + s[k+1..])
    ensures q.next == old(q.next) && q.prev == old(q.prev) && !Empty(q)
  {
    ghost var c := [h] + s;
    QueuedNotSelf(h, s, k);
    assert forall i: nat {:trigger After(c, i)} :: i < |c| ==> c[i].next == After(c, i) && After(c, i).prev == c[i];
    q.prev.next := q.next;
    q.next.prev := q.prev;
    LinkedAround(h, s, c, k);
  }

  /** Links that leave out one node of a ring. */
  lemma LinkedAround(h: Node, s: seq<Node>, c: seq<Node>, k: nat)
    requires c == [h] + s && k < |s| && Distinct(c)
    requires forall i: nat {:trigger After(c, i)} :: i < |c| && i != k ==> c[i].next == After(c, i)
    requires forall i: nat {:trigger After(c, i)} ::
        i < |c| && i != k + 1 ==> After(c, i).prev == if i == k then s[k].prev else c[i]
    requires c[k].next == After(c, k + 1) && After(c, k + 1).prev == c[k]
    ensures Ring(h, s[..k] + s[k+1..])
  {
    var d := [h] + (s[..k] + s[k+1..]);
    assert d == c[..k+1] + c[k+2..];
    forall i: nat | i < |d| ensures d[i].next == After(d, i) && After(d, i).prev == d[i] {
      var j := if i <= k then i else i + 1;
      assert d[i] == c[j];
      if i == k {
        assert After(d, i) == After(c, k + 1);
      } else {
        assert After(d, i) == After(c, j);
      }
    }
  }

  /** Move `q` and everything queued behind it to the ring of `n`. */
  method Split(h: Node, q: Node, n: Node, ghost s: seq<Node>, ghost k: nat)
    requires Ring(h, s) && k < |s| && s[k] == q && n !in [h] + s
    modifies h, h.prev, q, q.prev, n
    ensures Ring(h, s[..k]) && Ring(n, s[k..])
  {
    EmptyIff(h, s);
    QueuedNotSelf(h, s, k);
    ghost var c := [h] + s;
    assert h.prev == c[|s|] && q.prev == c[k] && q == c[k+1];
    n.prev := h.prev;
    n.prev.next := n;
    n.next := q;
    h.prev := q.prev;
    h.prev.next := h;
    q.prev := n;
    SplitRings(h, n, s, c, k);
  }

  /** Links that make two rings of one. */
  lemma SplitRings(h: Node, n: Node, s: seq<Node>, c: seq<Node>, k: nat)
    requires c == [h] + s && k < |s| && Distinct(c) && n !in c
    requires h.prev == c[k] && n.next == s[k] && n.prev == s[|s|-1]
    requires forall i: nat {:trigger After(c, i)} ::
        i < |c| ==> c[i].next == if i == |s| then n else if i == k then h else After(c, i)
    requires forall i: nat {:trigger After(c, i)} :: i < |s| ==> After(c, i).prev == if i == k then n else c[i]
    ensures Ring(h, s[..k]) && Ring(n, s[k..])
  {
    var a, b := [h] + s[..k], [n] + s[k..];
    DistinctParts(h, n, s, k);
    forall i: nat | i < |a| ensures a[i].next == After(a, i) && After(a, i).prev == a[i] {
      assert a[i] == c[i] && After(c, i) == c[i+1];
    }
    forall i: nat | i < |b| ensures b[i].next == After(b, i) && After(b, i).prev == b[i] {
      assert After(c, k) == c[k+1];
      if i > 0 { assert b[i] == c[k+i] && After(c, k + i) == if k + i == |s| then h else c[k+i+1]; }
    }
  }

  lemma DistinctParts(h: Node, n: Node, s: seq<Node>, k: nat)
    requires k < |s| && Distinct([h] + s) && n !in [h] + s
    ensures Distinct([h] + s[..k]) && Distinct([n] + s[k..])
  {
    var c, b := [h] + s, [n] + s[k..];
    assert [h] + s[..k] == c[..k+1];
    forall i, j | 0 <= i < j < |b| ensures b[i] != b[j] {
      assert b[j] == c[k+j] && b[i] == if i == 0 then n else c[k+i];
    }
  }

  /** What a worker does with the head of the pool queue: unlink it and mark it as executing. */
  method TakeHead(h: Node, ghost s: seq<Node>) returns (q: Node)
    requires Ring(h, s) && s != []
    modifies h, h.next, h.next.next
    ensures q == s[0] && Ring(h, s[1..]) && Empty(q)
  {
    EmptyIff(h, s);
    QueuedNotSelf(h, s, 0);
    q := h.next;
    Remove(q, h, s, 0);
    assert s[..0] + s[1..] == s[1..];
    HeadApart(h, s);
    Init(q);
  }

  lemma HeadApart(h: Node, s: seq<Node>)
    requires Distinct([h] + s) && s != []
    ensures s[0] !in [h] + s[1..]
  {
    var c := [h] + s;
    forall i | 0 <= i < |s| ensures ([h] + s[1..])[i] != s[0] {
      assert c[1] == s[0] && ([h] + s[1..])[i] == if i == 0 then c[0] else c[i+1];
    }
  }
}
