/**
 References into a Lua table (core/luajit/src/lib_aux.c): `luaL_ref` stores a value under a fresh integer key and
 returns the key, `luaL_unref` gives the key back. The keys given back form a list inside the table itself: slot 0
 holds the first one, and each holds the next.

 The list ends in whatever slot 0 held at first, nil in a new table. So the first key given back is not stored at
 all, and the table has a hole there; what the length operator then returns is left open by Lua. The results say
 that this never matters, and tie the table to the history of what was handed out and given back.
 */
module RegistryRefs {
  datatype Value = Nil | Number(n: int) | Other(id: int)

  /** The integer keys of a table that are not nil. */
  type Table = map<int, Value>

  const FREELIST_REF := 0
  const LUA_REFNIL := -1

  function Get(t: Table, k: int): (v: Value) {
    if k in t then t[k] else Nil
  }

  function Set(t: Table, k: int, v: Value): (t': Table)
    ensures forall j :: Get(t', j) == if j == k then v else Get(t, j)
  {
    if v == Nil then t - {k} else t[k := v]
  }

  function ToInteger(v: Value): (n: int) {
    if v.Number? then v.n else 0
  }

  /** What the length operator may return: any key that is not nil before one that is. */
  predicate Border(t: Table, n: nat) {
    (n == 0 || Get(t, n) != Nil) && Get(t, n + 1) == Nil
  }

  // ---------- the history ----------

  datatype Event = Got(ref: int, v: Value) | Released(ref: int)

  /** What is handed out and not given back, with the value it was handed out for. */
  function Live(log: seq<Event>): (live: map<int, Value>) {
    if log == [] then
      map[]
    else
      After(Live(log[..|log| - 1]), log[|log| - 1])
  }

  function After(live: map<int, Value>, e: Event): (live': map<int, Value>) {
    match e
    case Got(r, v) => live[r := v]
    case Released(r) => live - {r}
  }

  /** The largest number of references that were live at one time. */
  function Peak(log: seq<Event>): (n: nat) {
    if log == [] then
      0
    else
      var before := Peak(log[..|log| - 1]);
      if before < |Live(log)| then |Live(log)| else before
  }

  /** Nothing is handed out that is still live. */
  ghost predicate Exclusive(log: seq<Event>) {
    forall i :: 0 <= i < |log| && log[i].Got? ==> log[i].ref !in Live(log[..i])
  }

  lemma {:induction false} StaysLive(log: seq<Event>, i: nat)
    requires i < |log| && log[i].Got?
    requires forall k :: i < k < |log| ==> log[k] != Released(log[i].ref)
    ensures log[i].ref in Live(log)
  {
    if i < |log| - 1 {
      StaysLive(log[..|log| - 1], i);
    }
  }

  /** A reference handed out twice was given back in between. */
  lemma {:induction false} HandedOutTwice(log: seq<Event>, i: nat, j: nat)
    requires Exclusive(log) && i < j < |log|
    requires log[i].Got? && log[j].Got? && log[i].ref == log[j].ref
    ensures Released(log[i].ref) in log[i + 1..j]
  {
    if Released(log[i].ref) !in log[i + 1..j] {
      forall k | i < k < j
        ensures log[k] != Released(log[i].ref)
      {
        assert log[k] == log[i + 1..j][k - i - 1];
      }
      StaysLive(log[..j], i);
    }
  }

  /** What was handed out and not given back since has the value it was handed out for. */
  lemma {:induction false} KeepsItsValue(log: seq<Event>, i: nat)
    requires Exclusive(log) && i < |log| && log[i].Got?
    requires Released(log[i].ref) !in log[i + 1..]
    ensures log[i].ref in Live(log) && Live(log)[log[i].ref] == log[i].v
  {
    if i < |log| - 1 {
      var front := log[..|log| - 1];
      assert log[i + 1..] == front[i + 1..] + [log[|log| - 1]];
      forall k | 0 <= k < |front| && front[k].Got?
        ensures front[k].ref !in Live(front[..k])
      {
        assert front[..k] == log[..k];
      }
      KeepsItsValue(front, i);
    }
  }

  // ---------- the list in the table ----------

  predicate Distinct(s: seq<int>) {
    forall i, j :: 0 <= i < j < |s| ==> s[i] != s[j]
  }

  /** The list `free` starts in slot `from`, and ends in a slot that holds no key. */
  predicate Chained(t: Table, from: int, free: seq<int>)
    decreases free
  {
    if free == [] then
      ToInteger(Get(t, from)) == 0
    else
      ToInteger(Get(t, from)) == free[0] && Chained(t, free[0], free[1..])
  }

  /**
   The table holds the live values, and a list of the other keys up to `n` that has no key twice. It holds nothing
   else under a positive key.
   */
  ghost predicate Keeps(t: Table, live: map<int, Value>, free: seq<int>, n: nat) {
    && (forall r :: r in live ==> Get(t, r) == live[r] != Nil)
    && Distinct(free)
    && (forall r :: r in free ==> r !in live)
    && (forall k :: 1 <= k <= n <==> k in live || k in free)
    && (forall k :: k > n ==> Get(t, k) == Nil)
    && Chained(t, FREELIST_REF, free)
  }

  lemma {:induction false} ChainedElsewhere(t: Table, t': Table, from: int, free: seq<int>)
    requires Chained(t, from, free)
    requires Get(t', from) == Get(t, from) && forall k :: k in free ==> Get(t', k) == Get(t, k)
    ensures Chained(t', from, free)
    decreases free
  {
    if free != [] {
      ChainedElsewhere(t, t', free[0], free[1..]);
    }
  }

  lemma ListedIsPositive(t: Table, live: map<int, Value>, free: seq<int>, n: nat)
    requires Keeps(t, live, free, n)
    ensures ToInteger(Get(t, FREELIST_REF)) == 0 <==> free == []
  {
    if free != [] {
      assert free[0] in free;
    }
  }

  /** With an empty list there is no hole: the only border is the number of live references. */
  lemma NoHole(t: Table, live: map<int, Value>, n: nat, border: nat)
    requires Keeps(t, live, [], n) && Border(t, border)
    ensures border == n && |live| == n
  {
    assert border < n ==> border + 1 in live;
    assert live.Keys == UpTo(n);
  }

  function UpTo(n: nat): (s: set<int>)
    ensures |s| == n && forall k :: k in s <==> 1 <= k <= n
  {
    if n == 0 then {} else UpTo(n - 1) + {n}
  }

  // ---------- the steps ----------

  function Reused(t: Table, v: Value): (t': Table) {
    var ref := ToInteger(Get(t, FREELIST_REF));
    Set(Set(t, FREELIST_REF, Get(t, ref)), ref, v)
  }

  function GivenBack(t: Table, ref: int): (t': Table) {
    Set(Set(t, ref, Get(t, FREELIST_REF)), FREELIST_REF, Number(ref))
  }

  lemma ReuseKeeps(t: Table, live: map<int, Value>, free: seq<int>, n: nat, v: Value)
    requires Keeps(t, live, free, n) && free != [] && v != Nil
    ensures ToInteger(Get(t, FREELIST_REF)) == free[0] && 1 <= free[0] <= n
    ensures Keeps(Reused(t, v), live[free[0] := v], free[1..], n)
  {
    var ref, t' := free[0], Reused(t, v);
    assert ref in free;
    var rest := free[1..];
    assert forall k :: k in free <==> k == ref || k in rest;
    forall k | k in rest
      ensures k != ref && k in free && 1 <= k <= n
    {
      var i :| 0 <= i < |rest| && rest[i] == k;
      assert free[i + 1] == k;
    }
    assert Chained(t, ref, rest);
    if rest != [] {
      assert rest[0] in rest;
      assert Chained(t, rest[0], rest[1..]);
      ChainedElsewhere(t, t', rest[0], rest[1..]);
    }
  }

  lemma ReleaseKeeps(t: Table, live: map<int, Value>, free: seq<int>, n: nat, ref: int)
    requires Keeps(t, live, free, n) && ref in live
    ensures Keeps(GivenBack(t, ref), live - {ref}, [ref] + free, n)
  {
    var t', free' := GivenBack(t, ref), [ref] + free;
    assert free'[1..] == free;
    assert 1 <= ref <= n;
    if free != [] {
      assert free[0] in free;
      ChainedElsewhere(t, t', free[0], free[1..]);
    }
  }

  lemma FreshKeeps(t: Table, live: map<int, Value>, n: nat, v: Value)
    requires Keeps(t, live, [], n) && v != Nil
    ensures Keeps(Set(t, n + 1, v), live[n + 1 := v], [], n + 1)
  {
  }

  // ---------- keys that were not handed out ----------

  /** Two lists that start alike, in tables that agree on the first list, are the same. */
  lemma {:induction false} SameList(t: Table, t': Table, from: int, from': int, free: seq<int>, free': seq<int>)
    requires Chained(t, from, free) && Chained(t', from', free')
    requires ToInteger(Get(t, from)) == ToInteger(Get(t', from'))
    requires forall k :: k in free ==> k != 0 && Get(t', k) == Get(t, k)
    requires 0 !in free'
    ensures free == free'
    decreases free
  {
    if free != [] && free' != [] {
      SameList(t, t', free[0], free'[0], free[1..], free'[1..]);
    }
  }

  /** A list that starts like one with `ref` in it comes to `ref`, where the tables may differ. */
  lemma {:induction false} ComesTo(t: Table, t': Table, from: int, from': int, free: seq<int>, free': seq<int>,
      ref: int)
    requires Chained(t, from, free) && Chained(t', from', free')
    requires ToInteger(Get(t, from)) == ToInteger(Get(t', from'))
    requires forall k :: k in free && k != ref ==> Get(t', k) == Get(t, k)
    requires 0 !in free && ref in free
    ensures ref in free'
    decreases free
  {
    if free[0] != ref && free' != [] {
      ComesTo(t, t', free[0], free'[0], free[1..], free'[1..], ref);
    }
  }

  lemma ListAfter(t: Table, live: map<int, Value>, free: seq<int>, n: nat, ref: int, free': seq<int>, n': nat)
    requires Keeps(t, live, free, n) && ref > 0
    requires Keeps(GivenBack(t, ref), live - {ref}, free', n')
    ensures ref !in free && ref <= n + 1
  {
    var t' := GivenBack(t, ref);
    assert 0 !in free && 0 !in free';
    assert free' != [] && free'[0] == ref;
    var rest := free'[1..];
    assert Chained(t', ref, rest);
    if ref in free {
      ComesTo(t, t', FREELIST_REF, ref, free, rest, ref);
    } else {
      assert forall k :: k in rest ==> k in free';
      SameList(t, t', FREELIST_REF, ref, free, rest);
      assert free' == [ref] + free;
      assert ref in free';
      assert ref > n + 1 ==> n + 1 in free';
    }
  }

  /**
   Giving back key 0 empties the list. That does no harm if it is empty already, or if all it holds is the last
   slot, with nothing in it.
   */
  lemma ZeroExactly(t: Table, live: map<int, Value>, free: seq<int>, n: nat)
    requires Keeps(t, live, free, n)
    ensures (exists free', n' :: Keeps(GivenBack(t, 0), live - {0}, free', n')) <==> Harmless(t, free, n, 0)
  {
    var t' := GivenBack(t, 0);
    assert live - {0} == live;
    if free', n' :| Keeps(t', live, free', n') {
      assert free' == [];
      if free != [] {
        LastAlone(t, live, free, n, n');
      }
    }
    if free == [] {
      assert Keeps(t', live, [], n);
    } else if Harmless(t, free, n, 0) {
      assert n in free;
      assert Keeps(t', live, [], n - 1);
    }
  }

  lemma LastAlone(t: Table, live: map<int, Value>, free: seq<int>, n: nat, n': nat)
    requires Keeps(t, live, free, n) && free != []
    requires (forall k :: 1 <= k <= n' <==> k in live) && (forall k :: k > n' ==> Get(t, k) == Nil)
    ensures free == [n] && Get(t, n) == Nil
  {
    assert free[0] in free && free[0] > n';
    assert Chained(t, free[0], free[1..]) && Get(t, free[0]) == Nil;
    assert n >= free[0] > n';
    assert n !in live;
    assert n in free;
  }

  /** When giving back `ref` does no harm. */
  predicate Harmless(t: Table, free: seq<int>, n: nat, ref: int) {
    if ref < 0 then true
    else if ref == 0 then free == [] || (free == [n] && Get(t, n) == Nil)
    else ref !in free && ref <= n + 1
  }

  /**
   Nothing makes a caller give back what it holds. The table stays in order exactly if the key is not in the list
   already and lies no higher than the first key never handed out; for key 0, if it loses no key by that.
   */
  lemma GiveBackExactly(t: Table, live: map<int, Value>, free: seq<int>, n: nat, ref: int)
    requires Keeps(t, live, free, n) && ref >= 0
    ensures (exists free', n' :: Keeps(GivenBack(t, ref), live - {ref}, free', n')) <==> Harmless(t, free, n, ref)
  {
    if ref == 0 {
      ZeroExactly(t, live, free, n);
    } else {
      if free', n' :| Keeps(GivenBack(t, ref), live - {ref}, free', n') {
        ListAfter(t, live, free, n, ref, free', n');
      }
      if Harmless(t, free, n, ref) {
        HarmlessKeeps(t, live, free, n, ref);
      }
    }
  }

  lemma HarmlessKeeps(t: Table, live: map<int, Value>, free: seq<int>, n: nat, ref: int)
    requires Keeps(t, live, free, n) && 0 < ref <= n + 1 && ref !in free
    ensures Keeps(GivenBack(t, ref), live - {ref}, [ref] + free, if ref <= n then n else n + 1)
  {
    if ref <= n {
      ReleaseKeeps(t, live, free, n, ref);
    } else {
      assert ([ref] + free)[1..] == free;
      if free != [] {
        assert free[0] in free;
        ChainedElsewhere(t, GivenBack(t, ref), free[0], free[1..]);
      }
      assert live - {ref} == live;
    }
  }

  /** A key given back twice is handed out twice. */
  lemma GivenBackTwice(v: Value)
    requires v != Nil
    ensures var t := GivenBack(GivenBack(map[1 := v], 1), 1);
      ToInteger(Get(t, FREELIST_REF)) == 1 && ToInteger(Get(Reused(t, v), FREELIST_REF)) == 1
  {
  }

  lemma Logged(log: seq<Event>, e: Event)
    requires Exclusive(log) && (e.Got? ==> e.ref !in Live(log))
    ensures Exclusive(log + [e])
    ensures Live(log + [e]) == After(Live(log), e)
    ensures Peak(log + [e]) == if Peak(log) < |Live(log + [e])| then |Live(log + [e])| else Peak(log)
  {
    var log' := log + [e];
    assert log'[..|log|] == log;
    forall i | 0 <= i < |log'| && log'[i].Got?
      ensures log'[i].ref !in Live(log'[..i])
    {
      if i < |log| {
        assert log'[..i] == log[..i];
      }
    }
  }

  /** Live references all lie below the peak. */
  lemma NotMore(live: map<int, Value>, n: nat)
    requires forall r :: r in live ==> 1 <= r <= n
    ensures |live| <= n
  {
    var all := UpTo(n);
    assert live.Keys <= all;
    Within(live.Keys, all);
  }

  lemma Within(a: set<int>, b: set<int>)
    requires a <= b
    ensures |a| <= |b|
  {
    assert b == a + (b - a);
  }

  /** What a step leaves when it hands out a key below the peak, or the next one while all below it are live. */
  lemma GotKeeps(t: Table, log: seq<Event>, free: seq<int>, n: nat, ref: int, v: Value)
    requires Exclusive(log) && ref !in Live(log)
    requires Keeps(t, Live(log)[ref := v], free, n)
    requires n == Peak(log) || (n == Peak(log) + 1 && |Live(log)| == Peak(log))
    ensures Keeps(t, Live(log + [Got(ref, v)]), free, Peak(log + [Got(ref, v)]))
    ensures Exclusive(log + [Got(ref, v)])
  {
    var live, live' := Live(log), Live(log)[ref := v];
    Logged(log, Got(ref, v));
    assert live'.Keys == live.Keys + {ref};
    NotMore(live', n);
  }

  lemma ReleasedKeeps(t: Table, log: seq<Event>, free: seq<int>, ref: int)
    requires Exclusive(log) && ref in Live(log)
    requires Keeps(t, Live(log) - {ref}, free, Peak(log))
    ensures Keeps(t, Live(log + [Released(ref)]), free, Peak(log + [Released(ref)]))
    ensures Exclusive(log + [Released(ref)])
  {
    Logged(log, Released(ref));
    NotMore(Live(log) - {ref}, Peak(log));
  }

  class Registry {
    var tab: Table
    ghost var log: seq<Event>
    ghost var free: seq<int>

    ghost predicate Valid()
      reads this
    {
      Keeps(tab, Live(log), free, Peak(log)) && Exclusive(log)
    }

    /** The table holds `live`, and a list of the other keys up to some bound. */
    ghost predicate InOrder(live: map<int, Value>)
      reads this
    {
      exists free', n' :: Keeps(tab, live, free', n')
    }

    constructor ()
      ensures Valid() && log == []
    {
      tab, log, free := map[], [], [];
    }

    /**
     A fresh key for a value; nil has a fixed one. `border` is what the length operator returns, any border.
     */
    method Ref(v: Value, border: nat) returns (ref: int)
      requires Valid() && Border(tab, border)
      modifies this
      ensures Valid()
      ensures v == Nil ==> ref == LUA_REFNIL && tab == old(tab) && log == old(log)
      ensures v != Nil ==> ref > 0 && ref !in Live(old(log)) && log == old(log) + [Got(ref, v)]
      ensures v != Nil ==> ref <= Peak(log)
      ensures v != Nil && old(free) != [] ==> ref == old(free)[0] && free == old(free)[1..]
      ensures v != Nil && old(free) == [] ==> ref == |Live(old(log))| + 1 && free == []
    {
      if v == Nil {
        return LUA_REFNIL;
      }
      ghost var live, n, free' := Live(log), Peak(log), free;
      ref := ToInteger(Get(tab, FREELIST_REF));
      ListedIsPositive(tab, live, free, n);
      if ref != 0 {
        ReuseKeeps(tab, live, free, n, v);
        tab := Set(tab, FREELIST_REF, Get(tab, ref));
        free' := free[1..];
      } else {
        NoHole(tab, live, n, border);
        FreshKeeps(tab, live, n, v);
        ref, n := border + 1, n + 1;
      }
      tab := Set(tab, ref, v);
      assert Keeps(tab, live[ref := v], free', n);
      GotKeeps(tab, log, free', n, ref, v);
      log, free := log + [Got(ref, v)], free';
    }

    /**
     Gives back a key. A negative one is ignored; for one that is not live the last clause says when the table
     stays in order.
     */
    method Unref(ref: int)
      requires Valid()
      modifies this
      ensures tab == if ref >= 0 then GivenBack(old(tab), ref) else old(tab)
      ensures ref in Live(old(log)) ==> Valid() && log == old(log) + [Released(ref)] && free == [ref] + old(free)
      ensures ref !in Live(old(log)) ==> log == old(log) && free == old(free)
      ensures ref < 0 ==> Valid()
      ensures InOrder(Live(old(log)) - {ref}) <==> Harmless(old(tab), old(free), Peak(old(log)), ref)
    {
      if ref >= 0 {
        GiveBackExactly(tab, Live(log), free, Peak(log), ref);
        ghost var keeps := ref in Live(log);
        if keeps { ReleaseKeeps(tab, Live(log), free, Peak(log), ref); }
        tab := Set(tab, ref, Get(tab, FREELIST_REF));
        tab := Set(tab, FREELIST_REF, Number(ref));
        if keeps {
          ReleasedKeeps(tab, log, [ref] + free, ref);
          log, free := log + [Released(ref)], [ref] + free;
        }
      } else {
        assert Live(log) - {ref} == Live(log);
      }
    }

    /** Reading a live reference gives the value it was handed out for. */
    method Read(ref: int) returns (v: Value)
      requires Valid() && ref in Live(log)
      ensures v == Live(log)[ref] != Nil
    {
      v := Get(tab, ref);
    }
  }
}
