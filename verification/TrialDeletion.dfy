/** Releasing a symbol table that may be part of a cycle.

    Tables live in an arena; `refs` lists, in symbol order, the tables a table's symbols
    point at, and is empty for a table that has been deleted.  Releasing a table takes one
    link away and then, if links remain, tries to find out whether all of them come from
    tables reachable from the table itself. */
module TrialDeletion {

  datatype Item = Item(links: int, live: bool, refs: seq<nat>, done: bool, loop: bool)

  // ---------------------------------------------------------------- reachability

  ghost predicate Closed(g: seq<seq<nat>>) {
    forall i, j | 0 <= i < |g| && 0 <= j < |g[i]| :: g[i][j] < |g|
  }

  /** A path along references from `a` to `b` that meets no table of `avoid`. */
  ghost predicate Path(g: seq<seq<nat>>, avoid: set<nat>, p: seq<nat>, a: nat, b: nat) {
    && p != [] && p[0] == a && p[|p| - 1] == b
    && (forall i | 0 <= i < |p| :: p[i] < |g| && p[i] !in avoid)
    && (forall i | 0 <= i < |p| - 1 :: p[i + 1] in g[p[i]])
  }

  ghost predicate Reaches(g: seq<seq<nat>>, avoid: set<nat>, a: nat, b: nat) {
    exists p :: Path(g, avoid, p, a, b)
  }

  lemma ReachesSelf(g: seq<seq<nat>>, avoid: set<nat>, a: nat)
    requires a < |g| && a !in avoid
    ensures Reaches(g, avoid, a, a)
  {
    assert Path(g, avoid, [a], a, a);
  }

  lemma ReachesFirst(g: seq<seq<nat>>, avoid: set<nat>, a: nat, c: nat, b: nat)
    requires a < |g| && a !in avoid && c in g[a] && Reaches(g, avoid, c, b)
    ensures Reaches(g, avoid, a, b)
  {
    var p :| Path(g, avoid, p, c, b);
    assert Path(g, avoid, [a] + p, a, b);
  }

  lemma ReachesMore(g: seq<seq<nat>>, avoid: set<nat>, more: set<nat>, a: nat, b: nat)
    requires avoid <= more && Reaches(g, more, a, b)
    ensures Reaches(g, avoid, a, b)
  {
    var p :| Path(g, more, p, a, b);
    assert Path(g, avoid, p, a, b);
  }

  /** Cutting a path at the last visit to its start: beyond it the start is avoided. */
  lemma {:induction false} LeavesStart(g: seq<seq<nat>>, avoid: set<nat>, p: seq<nat>, a: nat, b: nat)
    requires Path(g, avoid, p, a, b) && a != b
    ensures exists c :: c in g[a] && Reaches(g, avoid + {a}, c, b)
    decreases |p|
  {
    if a in p[1..] {
      var i :| 1 <= i < |p| && p[i] == a;
      LeavesStart(g, avoid, p[i..], a, b);
    } else {
      assert Path(g, avoid + {a}, p[1..], p[1], b);
      assert p[1] in g[a] && Reaches(g, avoid + {a}, p[1], b);
    }
  }

  /** A closed set that holds the start holds everything reachable. */
  lemma {:induction false} StaysInside(g: seq<seq<nat>>, s: set<nat>, p: seq<nat>, a: nat, b: nat)
    requires Path(g, {}, p, a, b) && a in s
    requires forall x, y | x in s && x < |g| && y in g[x] :: y in s
    ensures b in s
    decreases |p|
  {
    if |p| > 1 {
      assert p[0 + 1] in g[p[0]];
      assert Path(g, {}, p[1..], p[1], b);
      StaysInside(g, s, p[1..], p[1], b);
    }
  }

  // ---------------------------------------------------------------- counting edges

  function Count(s: seq<nat>, t: nat): nat {
    if s == [] then 0 else (if s[0] == t then 1 else 0) + Count(s[1..], t)
  }

  /** References to `t` held by the tables of `from` among the first `n`. */
  ghost function Edges(g: seq<seq<nat>>, from: set<nat>, t: nat, n: nat): nat
    requires n <= |g|
  {
    if n == 0 then 0 else Edges(g, from, t, n - 1) + (if n - 1 in from then Count(g[n - 1], t) else 0)
  }

  lemma {:induction false} EdgesOfUnion(g: seq<seq<nat>>, a: set<nat>, b: set<nat>, t: nat, n: nat)
    requires n <= |g| && a !! b
    ensures Edges(g, a + b, t, n) == Edges(g, a, t, n) + Edges(g, b, t, n)
  {
    if n > 0 { EdgesOfUnion(g, a, b, t, n - 1); }
  }

  lemma {:induction false} EdgesOfOne(g: seq<seq<nat>>, a: nat, t: nat, n: nat)
    requires n <= |g|
    ensures Edges(g, {a}, t, n) == if a < n then Count(g[a], t) else 0
  {
    if n > 0 { EdgesOfOne(g, a, t, n - 1); }
  }

  lemma {:induction false} EdgesOfNone(g: seq<seq<nat>>, t: nat, n: nat)
    requires n <= |g|
    ensures Edges(g, {}, t, n) == 0
  {
    if n > 0 { EdgesOfNone(g, t, n - 1); }
  }

  lemma {:induction false} CountSnoc(s: seq<nat>, t: nat, i: nat)
    requires i < |s|
    ensures Count(s[..i + 1], t) == Count(s[..i], t) + Count([s[i]], t)
    decreases i
  {
    assert s[..i + 1][1..] == s[1..][..i];
    if i > 0 {
      assert s[..i][1..] == s[1..][..i - 1];
      CountSnoc(s[1..], t, i - 1);
    }
  }

  // ---------------------------------------------------------------- the tables

  /** The references of the tables are those of `g`; a deleted table has none. */
  ghost predicate Matches(item: seq<Item>, g: seq<seq<nat>>) {
    && |item| == |g| && Closed(g)
    && forall i | 0 <= i < |g| :: item[i].refs == g[i] && (!item[i].live ==> g[i] == [])
  }

  ghost function Reachable(g: seq<seq<nat>>, t: nat): set<nat> {
    set i | 0 <= i < |g| && Reaches(g, {}, t, i)
  }

  /** With `left` links remaining, `t` is deleted: none is left, or all of them are references
      from tables reachable from `t`, including `t` itself. */
  ghost predicate Deletes(g: seq<seq<nat>>, left: int, t: nat) {
    left == 0 || (left > 0 && left == Edges(g, Reachable(g, t), t, |g|))
  }

  // ---------------------------------------------------------------- when deleting is right

  /** References to `t` held by any of the first `n` tables. */
  ghost function InEdges(g: seq<seq<nat>>, t: nat, n: nat): nat
    requires n <= |g|
  {
    if n == 0 then 0 else InEdges(g, t, n - 1) + Count(g[n - 1], t)
  }

  /** Every link is a hold from outside or a reference from a table. */
  ghost predicate Accounts(links: seq<int>, outside: seq<nat>, g: seq<seq<nat>>) {
    && |links| == |outside| == |g|
    && forall i | 0 <= i < |g| :: links[i] == outside[i] + InEdges(g, i, |g|)
  }

  /** Somebody outside can still get at `t`. */
  ghost predicate Held(outside: seq<nat>, g: seq<seq<nat>>, t: nat)
    requires |outside| == |g|
  {
    exists h | 0 <= h < |g| :: outside[h] > 0 && Reaches(g, {}, h, t)
  }

  /** The tables that lead to `t`, with `t` itself. */
  ghost function Leading(g: seq<seq<nat>>, t: nat): set<nat> {
    set i | 0 <= i < |g| && Reaches(g, {}, i, t)
  }

  /** All links of the tables that lead to `t` are references from such tables. */
  ghost predicate SelfContained(links: seq<int>, g: seq<seq<nat>>, t: nat)
    requires |links| == |g|
  {
    forall x | x in Leading(g, t) :: links[x] == Edges(g, Leading(g, t), x, |g|)
  }

  lemma {:induction false} CountIsZero(s: seq<nat>, t: nat)
    ensures Count(s, t) == 0 <==> t !in s
  {
    if s != [] { CountIsZero(s[1..], t); }
  }

  lemma {:induction false} EdgesCover(g: seq<seq<nat>>, from: set<nat>, t: nat, n: nat)
    requires n <= |g| && forall i | 0 <= i < n && t in g[i] :: i in from
    ensures InEdges(g, t, n) == Edges(g, from, t, n)
  {
    if n > 0 {
      EdgesCover(g, from, t, n - 1);
      CountIsZero(g[n - 1], t);
    }
  }

  lemma {:induction false} EdgesMissing(g: seq<seq<nat>>, from: set<nat>, t: nat, n: nat, i: nat)
    requires i < n <= |g| && t in g[i] && i !in from
    ensures InEdges(g, t, n) > Edges(g, from, t, n)
  {
    CountIsZero(g[n - 1], t);
    if i < n - 1 {
      EdgesMissing(g, from, t, n - 1, i);
    } else {
      EdgesFewer(g, from, t, n - 1);
    }
  }

  lemma {:induction false} EdgesFewer(g: seq<seq<nat>>, from: set<nat>, t: nat, n: nat)
    requires n <= |g|
    ensures Edges(g, from, t, n) <= InEdges(g, t, n)
  {
    if n > 0 { EdgesFewer(g, from, t, n - 1); }
  }

  /** Whether a table can be got at from outside shows in the counts and references alone. */
  lemma HeldByCounts(links: seq<int>, outside: seq<nat>, g: seq<seq<nat>>, t: nat)
    requires Accounts(links, outside, g) && Closed(g) && t < |g|
    ensures !Held(outside, g, t) <==> SelfContained(links, g, t)
  {
    hide Edges;
    var l := Leading(g, t);
    forall x | x in l ensures links[x] == outside[x] + Edges(g, l, x, |g|) {
      forall i | 0 <= i < |g| && x in g[i] ensures i in l {
        ReachesFirst(g, {}, i, x, t);
      }
      EdgesCover(g, l, x, |g|);
    }
    if SelfContained(links, g, t) {
      forall h | 0 <= h < |g| && Reaches(g, {}, h, t) ensures outside[h] == 0 {
        assert h in l;
      }
    } else {
      var x :| x in l && links[x] != Edges(g, l, x, |g|);
      assert outside[x] > 0;
    }
  }

  /** What the code weighs: `t`, with `left` links of which `held` are no references, is deleted if and only
      if nobody holds `t` itself and every table that refers to `t` is reachable from it. */
  lemma DeletesIff(g: seq<seq<nat>>, left: int, held: nat, t: nat)
    requires Closed(g) && t < |g| && left == held + InEdges(g, t, |g|)
    ensures Deletes(g, left, t) <==> held == 0 && forall y | 0 <= y < |g| && t in g[y] :: y in Reachable(g, t)
  {
    hide Edges;
    var r := Reachable(g, t);
    EdgesFewer(g, r, t, |g|);
    if forall y | 0 <= y < |g| && t in g[y] :: y in r {
      EdgesCover(g, r, t, |g|);
    } else {
      var y :| 0 <= y < |g| && t in g[y] && y !in r;
      EdgesMissing(g, r, t, |g|, y);
    }
  }

  /** Both ways of going wrong, exactly: a table that can still be got at is deleted if and only if some
      other table that leads to it has a link not accounted for; one that cannot is kept if and only if
      a table refers to it that it does not lead to. */
  lemma DecisionIsRightIff(links: seq<int>, outside: seq<nat>, g: seq<seq<nat>>, t: nat)
    requires Accounts(links, outside, g) && Closed(g) && t < |g|
    ensures Deletes(g, links[t], t) && Held(outside, g, t) <==>
            Deletes(g, links[t], t) && exists x | x in Leading(g, t) ::
                x != t && links[x] > Edges(g, Leading(g, t), x, |g|)
    ensures !Deletes(g, links[t], t) && !Held(outside, g, t) <==>
            SelfContained(links, g, t) && exists y | 0 <= y < |g| :: t in g[y] && y !in Reachable(g, t)
  {
    hide Edges, Reaches;
    var l := Leading(g, t);
    HeldByCounts(links, outside, g, t);
    DeletesIff(g, links[t], outside[t], t);
    forall x | x in l ensures links[x] == outside[x] + Edges(g, l, x, |g|) {
      LeadingEdges(g, t, x);
    }
    ReachesSelf(g, {}, t);
    assert t in l;
  }

  lemma LeadingEdges(g: seq<seq<nat>>, t: nat, x: nat)
    requires Closed(g) && x in Leading(g, t)
    ensures InEdges(g, x, |g|) == Edges(g, Leading(g, t), x, |g|)
  {
    forall i | 0 <= i < |g| && x in g[i] ensures i in Leading(g, t) {
      ReachesFirst(g, {}, i, x, t);
    }
    EdgesCover(g, Leading(g, t), x, |g|);
  }

  /** Two tables point at each other and the second is held from outside: the first is deleted. */
  lemma CycleMemberIsDeleted()
    ensures var g, outside, links := [[1], [0]], [0, 1], [1, 2];
            Accounts(links, outside, g) && Held(outside, g, 0) && Deletes(g, links[0], 0)
  {
    var g: seq<seq<nat>>, outside: seq<nat>, links := [[1], [0]], [0, 1], [1, 2];
    assert Count([1], 1) == 1 && Count([0], 0) == 1 && Count([1], 0) == 0 && Count([0], 1) == 0;
    assert InEdges(g, 0, 1) == 0 && InEdges(g, 1, 1) == 1;
    assert Edges(g, {0, 1}, 0, 1) == 0 && Edges(g, {0, 1}, 0, 2) == 1;
    assert Path(g, {}, [1, 0], 1, 0) && Path(g, {}, [0], 0, 0) && Path(g, {}, [0, 1], 0, 1);
    assert Reachable(g, 0) == {0, 1};
  }

  /** Two tables point at each other, nobody else at them, and one of them at a third: the third is kept. */
  lemma GarbageIsKept()
    ensures var g, outside, links := [[], [0, 2], [1]], [0, 0, 0], [1, 1, 1];
            Accounts(links, outside, g) && !Held(outside, g, 0) && !Deletes(g, links[0], 0)
  {
    var g: seq<seq<nat>>, outside: seq<nat>, links := [[], [0, 2], [1]], [0, 0, 0], [1, 1, 1];
    assert [0, 2][1..] == [2];
    forall t | 0 <= t < 3 ensures InEdges(g, t, 3) == 1 {
      assert Count([], t) == 0 && Count([2], t) == (if t == 2 then 1 else 0)
          && Count([1], t) == (if t == 1 then 1 else 0);
      assert Count([0, 2], t) == (if t == 0 then 1 else 0) + Count([2], t);
      assert InEdges(g, t, 1) == 0 && InEdges(g, t, 2) == Count([0, 2], t);
    }
    DeletesIff(g, links[0], 0, 0);
    if 1 in Reachable(g, 0) {
      var p :| Path(g, {}, p, 0, 1);
      StaysInside(g, {0}, p, 0, 1);
    }
  }

  ghost predicate ReachesFromAny(g: seq<seq<nat>>, avoid: set<nat>, from: seq<nat>, b: nat) {
    exists c :: c in from && Reaches(g, avoid, c, b)
  }

  lemma ReachesByKids(g: seq<seq<nat>>, avoid: set<nat>, a: nat, b: nat)
    requires a < |g| && a !in avoid
    ensures Reaches(g, avoid, a, b) <==> a == b || ReachesFromAny(g, avoid + {a}, g[a], b)
  {
    if a == b {
      ReachesSelf(g, avoid, a);
    } else if Reaches(g, avoid, a, b) {
      var p :| Path(g, avoid, p, a, b);
      LeavesStart(g, avoid, p, a, b);
    } else if ReachesFromAny(g, avoid + {a}, g[a], b) {
      var c :| c in g[a] && Reaches(g, avoid + {a}, c, b);
      ReachesMore(g, avoid, avoid + {a}, c, b);
      ReachesFirst(g, avoid, a, c, b);
    }
  }

  lemma ReachesSnoc(g: seq<seq<nat>>, avoid: set<nat>, from: seq<nat>, i: nat, b: nat)
    requires i < |from|
    ensures ReachesFromAny(g, avoid, from[..i + 1], b)
       <==> ReachesFromAny(g, avoid, from[..i], b) || Reaches(g, avoid, from[i], b)
  {
    assert from[..i + 1] == from[..i] + [from[i]];
  }

  ghost function Unlooped(item: seq<Item>): set<nat> {
    set i | 0 <= i < |item| && !item[i].loop
  }

  ghost function Undone(item: seq<Item>): set<nat> {
    set i | 0 <= i < |item| && !item[i].done
  }

  class SymbolTables {
    var item: seq<Item>

    /** reset_done_flag: exactly the tables reachable without passing through a table
        already being visited lose their mark, and nothing else changes. */
    method ResetDone(a: nat, ghost g: seq<seq<nat>>, ghost avoid: set<nat>)
      requires Matches(item, g) && a < |g|
      requires forall i | 0 <= i < |g| :: item[i].loop <==> i in avoid
      modifies this
      ensures Matches(item, g)
      ensures forall i | 0 <= i < |g| ::
                item[i] == old(item)[i].(done := old(item)[i].done && !Reaches(g, avoid, a, i))
      decreases Unlooped(item)
    {
      if item[a].loop {
        assert forall i | 0 <= i < |g| :: !Reaches(g, avoid, a, i);
        return;
      }
      item := item[a := item[a].(done := false, loop := true)];
      var refs := item[a].refs;
      ghost var avoid' := avoid + {a};
      for i := 0 to |refs|
        invariant Matches(item, g)
        invariant forall k | 0 <= k < |g| ::
                    item[k] == old(item)[k].(loop := k in avoid',
                      done := old(item)[k].done && k != a && !ReachesFromAny(g, avoid', refs[..i], k))
      {
        assert a in Unlooped(old(item));
        ResetDone(refs[i], g, avoid');
        forall k | 0 <= k < |g| { ReachesSnoc(g, avoid', refs, i, k); }
      }
      assert refs[..|refs|] == g[a];
      forall k | 0 <= k < |g| { ReachesByKids(g, avoid, a, k); }
      item := item[a := item[a].(loop := false)];
    }

    /** test_unlink_symtab_item: a depth-first walk from `x` that takes one link of `t` away
        for every reference to `t` it meets; `seen` are the tables it marks. */
    method TestUnlink(x: nat, t: nat, ghost g: seq<seq<nat>>) returns (ghost seen: set<nat>)
      requires Matches(item, g) && x < |g| && t < |g|
      modifies this
      ensures WalkedFrom(old(item), item, g, x, t, seen)
      decreases Undone(item)
    {
      hide WalkedFrom, Walking;
      ghost var start := item;
      seen := {};
      if x == t {
        item := item[t := item[t].(links := item[t].links - 1)];
        WalkEndsAtOnce(start, item, g, x, t);
      } else if !item[x].done && item[x].live {
        item := item[x := item[x].(done := true)];
        WalkBegins(start, g, x, t);
        var refs := item[x].refs;
        for i := 0 to |refs|
          invariant Walking(start, item, g, x, t, seen, i)
        {
          ghost var before := item;
          WalkMeasure(start, item, g, x, t, seen, i);
          ghost var found := TestUnlink(refs[i], t, g);
          WalkStep(start, before, item, g, x, t, seen, i, found);
          seen := seen + found;
        }
        WalkEnds(start, item, g, x, t, seen);
        seen := {x} + seen;
      } else {
        WalkEndsAtOnce(start, item, g, x, t);
      }
    }

    /** symb_destroy, up to the decision: one link is given up; the table is deleted exactly
        when no link is left, or when links are left and every one of them is a reference
        from a table reachable from it.  If it is not deleted its links are what the
        single decrement made them.  No other table's links change. */
    method Release(t: nat, ghost g: seq<seq<nat>>, ghost held: nat) returns (deleted: bool)
      requires Matches(item, g) && t < |g| && item[t].live && item[t].links - 1 == held + InEdges(g, t, |g|)
      requires forall i | 0 <= i < |g| :: !item[i].loop
      modifies this
      ensures Matches(item, g) && forall i | 0 <= i < |g| :: !item[i].loop
      ensures var left := old(item)[t].links - 1;
              && (deleted <==> Deletes(g, left, t))
              && item[t].links == if deleted then 0 else left
      ensures deleted <==> held == 0 && forall y | 0 <= y < |g| && t in g[y] :: y in Reachable(g, t)
      ensures forall i | 0 <= i < |g| && i != t :: item[i].links == old(item)[i].links
      ensures forall i | 0 <= i < |g| :: item[i].live == old(item)[i].live
    {
      hide Walking, WalkedFrom, Reaches, Edges, InEdges, Trial, Reachable;
      DeletesIff(g, item[t].links - 1, held, t);
      item := item[t := item[t].(links := item[t].links - 1)];
      var left := item[t].links;
      if left > 0 {
        ResetDone(t, g, {});
        ghost var start := item;
        AllReset(g, t, start);
        TrialBegins(start, g, t);
        var refs := item[t].refs;
        ghost var seen := {};
        for i := 0 to |refs|
          invariant Trial(start, item, g, t, seen, i)
        {
          ghost var before := item;
          TrialMatches(start, item, g, t, seen, i);
          ghost var found := TestUnlink(refs[i], t, g);
          TrialStep(start, before, item, g, t, seen, i, found);
          seen := seen + found;
        }
        TrialEnds(start, item, g, t, seen);
      }
      deleted := item[t].links == 0;
      if !deleted {
        item := item[t := item[t].(links := left)];
      }
    }

    /** symb_destroy with all it entails: a deleted table releases, one after the other, the tables its
        symbols point at.  `pending` are the references that tables being deleted have yet to release.
        The table is deleted exactly by the decision; no table without links is left; the links of every
        table that is left stay accounted for; and only tables that nobody outside holds are deleted.
        Without cycles, exactly the tables that can be got at from outside are left. */
    method Destroy(x: nat, ghost g: seq<seq<nat>>, ghost outside: seq<nat>, ghost pending: seq<nat>)
      returns (ghost after: seq<seq<nat>>)
      requires Matches(item, g) && x < |g| && Idle(item) && Consistent(item, g, outside, [x] + pending) && Linked(item)
      modifies this
      ensures Matches(item, after) && Idle(item) && Consistent(item, after, outside, pending) && Linked(item)
      ensures Shrunk(old(item), item, g, after, outside)
      ensures |item| == |old(item)| == |g| == |outside|
      ensures old(item)[x].live ==> (item[x].live <==> !Deletes(g, old(item)[x].links - 1, x))
      ensures Acyclic(g) && NoDangling(old(item), g) ==> Acyclic(after) && NoDangling(item, after)
      ensures Acyclic(g) && NoDangling(old(item), g) && pending == [] ==>
                forall i | 0 <= i < |g| :: item[i].live <==> old(item)[i].live && Held(outside, g, i)
      decreases Living(item)
    {
      hide Matches, Consistent, Shrunk, Deletes, Reaches, Reachable, Living, Acyclic, NoDangling, Held, Linked;
      after := g;
      ghost var before := item;
      Released(before, g, outside, pending, x);
      if !item[x].live {
        item := item[x := item[x].(links := item[x].links - 1)];
        if Acyclic(g) && NoDangling(before, g) { Survivors(before, item, g, after, outside, pending); }
        return;
      }
      var deleted := Release(x, g, outside[x] + Count(pending, x));
      ghost var was := item;
      SameLength(was, g);
      DeletedAtZero(g, x);
      if !deleted {
        Kept(before, was, g, outside, pending, x);
        if Acyclic(g) && NoDangling(before, g) { Survivors(before, item, g, after, outside, pending); }
        return;
      }
      TableDies(before, was, g, outside, pending, x);
      if Acyclic(g) && NoDangling(before, g) { DeathIsClean(before, was, g, x); }
      var refs := item[x].refs;
      item := item[x := item[x].(live := false, refs := [])];
      after := g[x := []];
      for k := 0 to |refs|
        invariant Matches(item, after) && Idle(item) && Consistent(item, after, outside, refs[k..] + pending)
        invariant |item| == |after| == |g| && Shrunk(before, item, g, after, outside) && !item[x].live && Linked(item)
        invariant Acyclic(g) && NoDangling(before, g) ==> Acyclic(after) && NoDangling(item, after)
      {
        assert refs[k..] + pending == [refs[k]] + (refs[k + 1..] + pending);
        ghost var mid, midway := item, after;
        FewerLive(before, mid, g, midway, outside, x);
        after := Destroy(refs[k], midway, outside, refs[k + 1..] + pending);
        ShrunkTwice(before, mid, item, g, midway, after, outside, x);
      }
      assert refs[|refs|..] + pending == pending;
      if Acyclic(g) && NoDangling(before, g) { Survivors(before, item, g, after, outside, pending); }
    }
  }

  // ---------------------------------------------------------------- tables without cycles

  predicate Refers(g: seq<seq<nat>>, i: nat, r: nat) {
    i < |g| && r in g[i]
  }

  /** No table is reachable from one it refers to. */
  ghost predicate Acyclic(g: seq<seq<nat>>) {
    forall i: nat, r: nat | Refers(g, i, r) :: !Reaches(g, {}, r, i)
  }

  /** No table refers to a deleted one. */
  ghost predicate NoDangling(item: seq<Item>, g: seq<seq<nat>>) {
    |item| == |g| && forall i: nat, r: nat | Refers(g, i, r) :: r < |item| && item[r].live
  }

  /** A table that has not been deleted has a link. */
  ghost predicate Linked(item: seq<Item>) {
    forall i | 0 <= i < |item| && item[i].live :: item[i].links > 0
  }

  /** Without cycles a table is deleted only when no table refers to it. */
  lemma DiesAlone(g: seq<seq<nat>>, x: nat)
    requires Acyclic(g) && x < |g| && forall y | 0 <= y < |g| && x in g[y] :: y in Reachable(g, x)
    ensures forall y | 0 <= y < |g| :: x !in g[y]
  {
    forall y | 0 <= y < |g| ensures x !in g[y] {
      if x in g[y] { assert Refers(g, y, x); }
    }
  }

  lemma DeathIsClean(before: seq<Item>, item: seq<Item>, g: seq<seq<nat>>, x: nat)
    requires Acyclic(g) && NoDangling(before, g) && x < |g| && |item| == |before|
    requires forall i | 0 <= i < |item| :: item[i].live == before[i].live
    requires forall y | 0 <= y < |g| && x in g[y] :: y in Reachable(g, x)
    ensures Acyclic(g[x := []]) && NoDangling(item[x := item[x].(live := false, refs := [])], g[x := []])
  {
    DiesAlone(g, x);
    StillAcyclic(g, x);
    var item', after := item[x := item[x].(live := false, refs := [])], g[x := []];
    forall i: nat, r: nat | Refers(after, i, r) ensures r < |item'| && item'[r].live {
      assert Refers(g, i, r) && r != x;
    }
  }

  lemma DeletedAtZero(g: seq<seq<nat>>, t: nat)
    ensures Deletes(g, 0, t)
  {
  }

  lemma FewerPaths(g: seq<seq<nat>>, after: seq<seq<nat>>, a: nat, b: nat)
    requires |after| == |g| && (forall i | 0 <= i < |g| :: after[i] == g[i] || after[i] == [])
    requires Reaches(after, {}, a, b)
    ensures Reaches(g, {}, a, b)
  {
    var p :| Path(after, {}, p, a, b);
    assert Path(g, {}, p, a, b);
  }

  lemma StillAcyclic(g: seq<seq<nat>>, x: nat)
    requires Acyclic(g) && x < |g|
    ensures Acyclic(g[x := []])
  {
    var after := g[x := []];
    forall i: nat, r: nat | Refers(after, i, r) ensures !Reaches(after, {}, r, i) {
      assert Refers(g, i, r);
      if Reaches(after, {}, r, i) { FewerPaths(g, after, r, i); }
    }
  }

  lemma {:induction false} InEdgesFrom(g: seq<seq<nat>>, t: nat, n: nat) returns (y: nat)
    requires n <= |g| && InEdges(g, t, n) > 0
    ensures y < n && t in g[y]
  {
    CountIsZero(g[n - 1], t);
    if t in g[n - 1] {
      y := n - 1;
    } else {
      y := InEdgesFrom(g, t, n - 1);
    }
  }

  /** Without cycles nothing leaks: every table that is left can be got at from outside. */
  lemma {:induction false} NothingLeaks(item: seq<Item>, g: seq<seq<nat>>, outside: seq<nat>, x: nat)
    requires Matches(item, g) && Consistent(item, g, outside, []) && Linked(item) && Acyclic(g)
    requires x < |g| && item[x].live
    ensures Held(outside, g, x)
    decreases Leading(g, x)
  {
    if outside[x] > 0 {
      ReachesSelf(g, {}, x);
    } else {
      var y := InEdgesFrom(g, x, |g|);
      assert Refers(g, y, x);
      ReachesSelf(g, {}, x);
      ReachesFirst(g, {}, y, x, x);
      assert x in Leading(g, x) && x !in Leading(g, y);
      forall z | z in Leading(g, y) ensures z in Leading(g, x) { ReachesNext(g, z, y, x); }
      NothingLeaks(item, g, outside, y);
      var h :| 0 <= h < |g| && outside[h] > 0 && Reaches(g, {}, h, y);
      ReachesNext(g, h, y, x);
    }
  }

  /** Along references from a table that is left to tables that are left. */
  lemma {:induction false} PathSurvives(item: seq<Item>, item': seq<Item>, g: seq<seq<nat>>, after: seq<seq<nat>>,
                                        outside: seq<nat>, p: seq<nat>, a: nat, b: nat)
    requires Shrunk(item, item', g, after, outside) && NoDangling(item', after)
    requires Path(g, {}, p, a, b) && item'[a].live
    ensures b < |item'| && item'[b].live
    decreases |p|
  {
    if |p| > 1 {
      assert p[0 + 1] in g[p[0]];
      assert Refers(after, a, p[1]);
      assert Path(g, {}, p[1..], p[1], b);
      PathSurvives(item, item', g, after, outside, p[1..], p[1], b);
    }
  }

  lemma Survivors(item: seq<Item>, item': seq<Item>, g: seq<seq<nat>>, after: seq<seq<nat>>, outside: seq<nat>,
                  pending: seq<nat>)
    requires Shrunk(item, item', g, after, outside) && Matches(item, g) && Matches(item', after) && Linked(item')
    requires Consistent(item', after, outside, pending)
    requires NoDangling(item', after) && Acyclic(after)
    ensures pending == [] ==> forall i | 0 <= i < |g| :: item'[i].live <==> item[i].live && Held(outside, g, i)
  {
    hide Reaches, Acyclic, Consistent, Linked;
    if pending == [] {
      forall i | 0 <= i < |g| ensures item'[i].live <==> item[i].live && Held(outside, g, i) {
        if item'[i].live {
          NothingLeaks(item', after, outside, i);
          var h :| 0 <= h < |g| && outside[h] > 0 && Reaches(after, {}, h, i);
          FewerPaths(g, after, h, i);
        } else if item[i].live && Held(outside, g, i) {
          HeldSurvives(item, item', g, after, outside, i);
        }
      }
    }
  }

  lemma HeldSurvives(item: seq<Item>, item': seq<Item>, g: seq<seq<nat>>, after: seq<seq<nat>>, outside: seq<nat>,
                     i: nat)
    requires Shrunk(item, item', g, after, outside) && Matches(item, g) && NoDangling(item', after)
    requires i < |g| && item[i].live && Held(outside, g, i)
    ensures item'[i].live
  {
    var h :| 0 <= h < |g| && outside[h] > 0 && Reaches(g, {}, h, i);
    var p :| Path(g, {}, p, h, i);
    assert |p| > 1 ==> p[0 + 1] in g[p[0]];
    PathSurvives(item, item', g, after, outside, p, h, i);
  }

  // ---------------------------------------------------------------- the cascade

  ghost predicate Idle(item: seq<Item>) {
    forall i | 0 <= i < |item| :: !item[i].loop
  }

  ghost function Living(item: seq<Item>): set<nat> {
    set i | 0 <= i < |item| && item[i].live
  }

  /** The links of every table that has not been deleted are holds from outside, references, and
      references that are being released; a deleted table has no link left. */
  ghost predicate Consistent(item: seq<Item>, g: seq<seq<nat>>, outside: seq<nat>, pending: seq<nat>) {
    && |item| == |g| == |outside|
    && forall i | 0 <= i < |item| ::
         if item[i].live then item[i].links == outside[i] + InEdges(g, i, |g|) + Count(pending, i)
         else item[i].links <= 0
  }

  /** Tables that are left keep their references, and those that are not were held by nobody outside. */
  ghost predicate Shrunk(item: seq<Item>, item': seq<Item>, g: seq<seq<nat>>, after: seq<seq<nat>>, outside: seq<nat>) {
    && |item| == |item'| == |g| == |after| == |outside|
    && forall i | 0 <= i < |item| ::
         && (item'[i].live ==> item[i].live && after[i] == g[i])
         && (item[i].live && !item'[i].live ==> outside[i] == 0)
  }

  lemma {:induction false} InEdgesDrop(g: seq<seq<nat>>, x: nat, t: nat, n: nat)
    requires x < |g| && n <= |g|
    ensures InEdges(g, t, n) == InEdges(g[x := []], t, n) + if x < n then Count(g[x], t) else 0
  {
    if n > 0 { InEdgesDrop(g, x, t, n - 1); }
  }

  lemma {:induction false} CountSplit(a: seq<nat>, b: seq<nat>, t: nat)
    ensures Count(a + b, t) == Count(a, t) + Count(b, t)
  {
    if a == [] {
      assert a + b == b;
    } else {
      assert (a + b)[1..] == a[1..] + b;
      CountSplit(a[1..], b, t);
    }
  }

  lemma SameLength(item: seq<Item>, g: seq<seq<nat>>)
    requires Matches(item, g)
    ensures |item| == |g|
  {
  }

  /** One of the links of `x` is the one being given up. */
  lemma Released(item: seq<Item>, g: seq<seq<nat>>, outside: seq<nat>, pending: seq<nat>, x: nat)
    requires Matches(item, g) && x < |g| && Idle(item) && Consistent(item, g, outside, [x] + pending) && Linked(item)
    ensures |item| == |g| == |outside|
    ensures item[x].live ==> item[x].links - 1 == outside[x] + Count(pending, x) + InEdges(g, x, |g|)
    ensures !item[x].live ==> var item' := item[x := item[x].(links := item[x].links - 1)];
                              && Matches(item', g) && Consistent(item', g, outside, pending)
                              && Shrunk(item, item', g, g, outside) && Linked(item')
                              && (NoDangling(item, g) ==> NoDangling(item', g))
  {
    forall i | 0 <= i < |item| ensures Count([x] + pending, i) == (if i == x then 1 else 0) + Count(pending, i) {
      assert ([x] + pending)[1..] == pending;
    }
  }

  lemma Kept(before: seq<Item>, item: seq<Item>, g: seq<seq<nat>>, outside: seq<nat>, pending: seq<nat>, x: nat)
    requires Consistent(before, g, outside, [x] + pending) && |item| == |before| && x < |item| && Linked(before)
    requires before[x].live && item[x].links == before[x].links - 1 && item[x].links != 0
    requires forall i | 0 <= i < |item| ::
               item[i].live == before[i].live && (i != x ==> item[i].links == before[i].links)
    ensures Consistent(item, g, outside, pending) && Shrunk(before, item, g, g, outside) && Linked(item)
    ensures NoDangling(before, g) ==> NoDangling(item, g)
  {
    if NoDangling(before, g) {
      assert forall i | 0 <= i < |before| && before[i].live :: item[i].live;
    }
    forall i | 0 <= i < |item| ensures Count([x] + pending, i) == (if i == x then 1 else 0) + Count(pending, i) {
      assert ([x] + pending)[1..] == pending;
    }
  }

  /** When `x` is deleted its references are the next to be released. */
  lemma TableDies(before: seq<Item>, item: seq<Item>, g: seq<seq<nat>>, outside: seq<nat>, pending: seq<nat>, x: nat)
    requires Matches(item, g) && x < |g| && Idle(item) && |item| == |before|
    requires Consistent(before, g, outside, [x] + pending) && Linked(before)
    requires before[x].live && item[x].links == 0 && outside[x] == 0
    requires forall i | 0 <= i < |item| ::
               item[i].live == before[i].live && (i != x ==> item[i].links == before[i].links)
    ensures var item' := item[x := item[x].(live := false, refs := [])];
            && Matches(item', g[x := []]) && Idle(item') && item[x].refs == g[x]
            && Consistent(item', g[x := []], outside, g[x] + pending)
            && Shrunk(before, item', g, g[x := []], outside) && Linked(item')
            && forall k | 0 <= k < |g[x]| :: g[x][k] < |g|
  {
    forall i | 0 <= i < |item| ensures Count([x] + pending, i) == (if i == x then 1 else 0) + Count(pending, i) {
      assert ([x] + pending)[1..] == pending;
    }
    forall i | 0 <= i < |item|
      ensures InEdges(g, i, |g|) + Count(pending, i) == InEdges(g[x := []], i, |g|) + Count(g[x] + pending, i)
    {
      InEdgesDrop(g, x, i, |g|);
      CountSplit(g[x], pending, i);
    }
  }

  lemma FewerLive(before: seq<Item>, item: seq<Item>, g: seq<seq<nat>>, after: seq<seq<nat>>, outside: seq<nat>, x: nat)
    requires Shrunk(before, item, g, after, outside) && x < |item| == |before| && before[x].live && !item[x].live
    ensures Living(item) < Living(before)
  {
    assert x in Living(before) && x !in Living(item);
  }

  lemma ShrunkTwice(a: seq<Item>, b: seq<Item>, c: seq<Item>, g: seq<seq<nat>>, h: seq<seq<nat>>, k: seq<seq<nat>>,
                    outside: seq<nat>, x: nat)
    requires Shrunk(a, b, g, h, outside) && Shrunk(b, c, h, k, outside) && x < |b| && !b[x].live
    ensures Shrunk(a, c, g, k, outside) && |k| == |g| && |c| == |a| && !c[x].live
  {
  }

  // ---------------------------------------------------------------- the trial

  /** The trial at `t` after the first `i` references. */
  ghost predicate Trial(start: seq<Item>, item: seq<Item>, g: seq<seq<nat>>, t: nat, seen: set<nat>, i: nat) {
    && Matches(item, g) && t < |g| && i <= |g[t]|
    && seen <= Undone(start) && t !in seen
    && Walked(start, item, seen, t, Edges(g, seen, t, |g|) + Count(g[t][..i], t))
    && (forall j | 0 <= j < i :: Settled(item, g[t][j], t)) && AllSettled(item, g, seen, t)
    && forall w | w in seen :: Reaches(g, {}, t, w)
  }

  lemma AllReset(g: seq<seq<nat>>, t: nat, item: seq<Item>)
    requires |item| == |g|
    requires forall i | 0 <= i < |g| :: Reaches(g, {}, t, i) ==> !item[i].done
    ensures Reachable(g, t) <= Undone(item)
  {
  }

  lemma TrialBegins(start: seq<Item>, g: seq<seq<nat>>, t: nat)
    requires Matches(start, g) && t < |g|
    ensures Trial(start, start, g, t, {}, 0)
  {
    EdgesOfNone(g, t, |g|);
  }

  lemma TrialMatches(start: seq<Item>, item: seq<Item>, g: seq<seq<nat>>, t: nat, seen: set<nat>, i: nat)
    requires Trial(start, item, g, t, seen, i)
    ensures Matches(item, g)
  {
  }

  lemma TrialStep(start: seq<Item>, before: seq<Item>, item: seq<Item>, g: seq<seq<nat>>, t: nat,
                  seen: set<nat>, i: nat, found: set<nat>)
    requires Trial(start, before, g, t, seen, i) && i < |g[t]|
    requires WalkedFrom(before, item, g, g[t][i], t, found)
    ensures Trial(start, item, g, t, seen + found, i + 1)
  {
    hide Reaches, Edges, Count;
    WalkedTwice(start, before, item, seen, found, t,
                Edges(g, seen, t, |g|) + Count(g[t][..i], t), Edges(g, found, t, |g|) + Count([g[t][i]], t));
    StaySettled(before, item, found, t, Edges(g, found, t, |g|) + Count([g[t][i]], t));
    EdgesOfUnion(g, seen, found, t, |g|);
    CountSnoc(g[t], t, i);
    forall w | w in found ensures Reaches(g, {}, t, w) { ReachesFirst(g, {}, t, g[t][i], w); }
  }

  /** Nothing reachable from `t` escapes the trial: what it marked, together with `t` and the
      deleted tables, is closed under references. */
  lemma TrialIsComplete(start: seq<Item>, item: seq<Item>, g: seq<seq<nat>>, t: nat, seen: set<nat>, b: nat)
    requires t < |g| && Trial(start, item, g, t, seen, |g[t]|) && Reachable(g, t) <= Undone(start)
    requires Reaches(g, {}, t, b)
    ensures b == t || b in seen || (b < |g| && !item[b].live)
  {
    var p :| Path(g, {}, p, t, b);
    var s := set y | 0 <= y < |g| && (y == t || y in seen || !item[y].live);
    ReachesSelf(g, {}, t);
    forall x, y | x in s && x < |g| && y in g[x] ensures y in s {
      ReachesNext(g, t, x, y);
      assert y in Reachable(g, t);
      var j :| 0 <= j < |g[x]| && g[x][j] == y;
      assert Settled(item, g[x][j], t);
    }
    StaysInside(g, s, p, t, b);
  }

  lemma ReachesNext(g: seq<seq<nat>>, t: nat, x: nat, y: nat)
    requires Closed(g) && Reaches(g, {}, t, x) && x < |g| && y in g[x]
    ensures Reaches(g, {}, t, y) && y < |g|
  {
    var p :| Path(g, {}, p, t, x);
    assert Path(g, {}, p + [y], t, y);
  }

  lemma {:induction false} EdgesAgree(g: seq<seq<nat>>, a: set<nat>, b: set<nat>, t: nat, n: nat)
    requires n <= |g| && forall i | 0 <= i < n && g[i] != [] :: i in a <==> i in b
    ensures Edges(g, a, t, n) == Edges(g, b, t, n)
  {
    if n > 0 { EdgesAgree(g, a, b, t, n - 1); }
  }

  /** The trial has taken away exactly the references from reachable tables. */
  lemma TrialEnds(start: seq<Item>, item: seq<Item>, g: seq<seq<nat>>, t: nat, seen: set<nat>)
    requires t < |g| && Trial(start, item, g, t, seen, |g[t]|) && Reachable(g, t) <= Undone(start)
    ensures |item| == |start| == |g| && Matches(item, g)
    ensures item[t].links == start[t].links - Edges(g, Reachable(g, t), t, |g|)
    ensures forall i | 0 <= i < |g| :: item[i].loop == start[i].loop && item[i].live == start[i].live
    ensures forall i | 0 <= i < |g| && i != t :: item[i].links == start[i].links
  {
    hide Edges;
    ReachesSelf(g, {}, t);
    forall i | 0 <= i < |g| && g[i] != [] ensures i in Reachable(g, t) <==> i in {t} + seen {
      if i in Reachable(g, t) { TrialIsComplete(start, item, g, t, seen, i); }
    }
    EdgesAgree(g, Reachable(g, t), {t} + seen, t, |g|);
    EdgesOfUnion(g, {t}, seen, t, |g|);
    EdgesOfOne(g, t, t, |g|);
    assert g[t][..|g[t]|] == g[t];
  }

  // ---------------------------------------------------------------- the walk

  /** What the walk from `x` does: it marks `seen`, all reachable from `x`, takes away one link of
      `t` for every reference to it from there, and leaves nothing unexplored behind it. */
  ghost predicate WalkedFrom(start: seq<Item>, item: seq<Item>, g: seq<seq<nat>>, x: nat, t: nat, seen: set<nat>) {
    && Matches(item, g) && seen <= Undone(start) && t !in seen
    && Walked(start, item, seen, t, Edges(g, seen, t, |g|) + Count([x], t))
    && Settled(item, x, t) && AllSettled(item, g, seen, t)
    && forall w | w in seen :: Reaches(g, {}, x, w)
  }

  /** The walk at table `x` after the first `i` references. */
  ghost predicate Walking(start: seq<Item>, item: seq<Item>, g: seq<seq<nat>>, x: nat, t: nat, seen: set<nat>, i: nat) {
    && Matches(item, g) && x < |g| && x != t && i <= |g[x]| && x in Undone(start)
    && seen <= Undone(start) - {x, t}
    && Walked(start, item, {x} + seen, t, Edges(g, seen, t, |g|) + Count(g[x][..i], t))
    && (forall j | 0 <= j < i :: Settled(item, g[x][j], t)) && AllSettled(item, g, seen, t)
    && forall w | w in seen :: Reaches(g, {}, x, w)
  }

  lemma WalkEndsAtOnce(start: seq<Item>, item: seq<Item>, g: seq<seq<nat>>, x: nat, t: nat)
    requires Matches(start, g) && x < |g| && t < |g|
    requires if x == t then item == start[t := start[t].(links := start[t].links - 1)]
             else item == start && (start[x].done || !start[x].live)
    ensures WalkedFrom(start, item, g, x, t, {})
  {
    EdgesOfNone(g, t, |g|);
  }

  lemma WalkBegins(start: seq<Item>, g: seq<seq<nat>>, x: nat, t: nat)
    requires Matches(start, g) && x < |g| && x != t && !start[x].done
    ensures Walking(start, start[x := start[x].(done := true)], g, x, t, {}, 0)
  {
    EdgesOfNone(g, t, |g|);
  }

  lemma WalkMeasure(start: seq<Item>, item: seq<Item>, g: seq<seq<nat>>, x: nat, t: nat, seen: set<nat>, i: nat)
    requires Walking(start, item, g, x, t, seen, i)
    ensures Matches(item, g) && Undone(item) < Undone(start)
  {
    assert x !in Undone(item);
  }

  lemma WalkStep(start: seq<Item>, before: seq<Item>, item: seq<Item>, g: seq<seq<nat>>, x: nat, t: nat,
                 seen: set<nat>, i: nat, found: set<nat>)
    requires Walking(start, before, g, x, t, seen, i) && i < |g[x]|
    requires WalkedFrom(before, item, g, g[x][i], t, found)
    ensures Walking(start, item, g, x, t, seen + found, i + 1)
  {
    hide Reaches, Edges, Count;
    WalkedTwice(start, before, item, {x} + seen, found, t,
                Edges(g, seen, t, |g|) + Count(g[x][..i], t), Edges(g, found, t, |g|) + Count([g[x][i]], t));
    StaySettled(before, item, found, t, Edges(g, found, t, |g|) + Count([g[x][i]], t));
    assert {x} + seen + found == {x} + (seen + found);
    EdgesOfUnion(g, seen, found, t, |g|);
    CountSnoc(g[x], t, i);
    forall w | w in found ensures Reaches(g, {}, x, w) { ReachesFirst(g, {}, x, g[x][i], w); }
  }

  lemma WalkEnds(start: seq<Item>, item: seq<Item>, g: seq<seq<nat>>, x: nat, t: nat, seen: set<nat>)
    requires x < |g| && Walking(start, item, g, x, t, seen, |g[x]|)
    ensures WalkedFrom(start, item, g, x, t, {x} + seen)
  {
    hide Reaches, Edges;
    assert g[x][..|g[x]|] == g[x];
    assert AllSettled(item, g, {x} + seen, t);
    EdgesOfOne(g, x, t, |g|);
    EdgesOfUnion(g, {x}, seen, t, |g|);
    ReachesSelf(g, {}, x);
    assert Count([x], t) == 0;
  }

  /** The effect of a walk: the tables of `seen` are marked and `t` has lost `hits` links. */
  ghost predicate Walked(before: seq<Item>, item: seq<Item>, seen: set<nat>, t: nat, hits: int) {
    && |item| == |before|
    && forall i | 0 <= i < |item| ::
         item[i] == before[i].(done := before[i].done || i in seen,
                               links := before[i].links - if i == t then hits else 0)
  }

  lemma WalkedTwice(a: seq<Item>, b: seq<Item>, c: seq<Item>, s1: set<nat>, s2: set<nat>, t: nat, h1: int, h2: int)
    requires Walked(a, b, s1, t, h1) && Walked(b, c, s2, t, h2)
    ensures Walked(a, c, s1 + s2, t, h1 + h2)
  {
  }

  /** Nothing is left to explore at `y`. */
  ghost predicate Settled(item: seq<Item>, y: nat, t: nat) {
    y == t || (y < |item| && (item[y].done || !item[y].live))
  }

  ghost predicate AllSettled(item: seq<Item>, g: seq<seq<nat>>, seen: set<nat>, t: nat) {
    forall w, j | w in seen && w < |g| && 0 <= j < |g[w]| :: Settled(item, g[w][j], t)
  }

  lemma StaySettled(before: seq<Item>, item: seq<Item>, seen: set<nat>, t: nat, hits: int)
    requires Walked(before, item, seen, t, hits)
    ensures forall y | Settled(before, y, t) :: Settled(item, y, t)
  {
  }
}
