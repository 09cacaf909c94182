/** Sorting the items of a `.for` scope where they stand among their siblings.

    The items of a scope may be scattered among siblings that are not in it.  For every item the
    interpreter remembers the first sibling behind it that is not in the scope, sorts the scope and
    moves the items, in their new order, in front of the remembered siblings. */
module SortInPlace {
  import opened Syntax
  import opened Values

  // ---------------------------------------------------------------- lists of siblings

  predicate Distinct(s: seq<nat>) {
    forall i, j | 0 <= i < j < |s| :: s[i] != s[j]
  }

  function Elements(s: seq<nat>): set<nat> {
    set x | x in s
  }

  /** The list without the items in `d`. */
  function Without(s: seq<nat>, d: set<nat>): seq<nat> {
    if s == [] then [] else if s[0] in d then Without(s[1..], d) else [s[0]] + Without(s[1..], d)
  }

  /** The items in `d`, in the order of the list. */
  function Only(s: seq<nat>, d: set<nat>): seq<nat> {
    if s == [] then [] else if s[0] in d then [s[0]] + Only(s[1..], d) else Only(s[1..], d)
  }

  /** The list with `x` in front of `mark`, or at the end if there is no mark. */
  function InsertBefore(s: seq<nat>, x: nat, mark: Option<nat>): seq<nat> {
    if s == [] then [x]
    else if mark == Some(s[0]) then [x] + s
    else [s[0]] + InsertBefore(s[1..], x, mark)
  }

  /** The first sibling outside the scope. */
  function FirstOutside(s: seq<nat>, scope: set<nat>): (r: Option<nat>)
    ensures r.Some? ==> r.value !in scope
  {
    if s == [] then None else if s[0] in scope then FirstOutside(s[1..], scope) else Some(s[0])
  }

  /** For every item of the scope the first sibling behind it outside the scope. */
  function Marks(s: seq<nat>, scope: set<nat>): (r: seq<Option<nat>>)
    ensures |r| == |Only(s, scope)|
  {
    if s == [] then []
    else if s[0] in scope then [FirstOutside(s[1..], scope)] + Marks(s[1..], scope)
    else Marks(s[1..], scope)
  }

  /** What the sort is for: the siblings outside the scope stay where they are, and the places of the
      scope take the items of `q` in turn (places beyond the end of `q` disappear). */
  function Placed(s: seq<nat>, scope: set<nat>, q: seq<nat>): seq<nat> {
    if s == [] then []
    else if s[0] !in scope then [s[0]] + Placed(s[1..], scope, q)
    else if q == [] then Placed(s[1..], scope, [])
    else [q[0]] + Placed(s[1..], scope, q[1..])
  }

  // ---------------------------------------------------------------- what placing means

  /** Placing all items leaves the outsiders in order, the scope's places in place, and reading those
      places gives the new order. */
  lemma {:induction false} PlacedMeans(s: seq<nat>, scope: set<nat>, q: seq<nat>)
    requires |q| == |Only(s, scope)| && Elements(q) <= scope
    ensures var p := Placed(s, scope, q);
            && |p| == |s|
            && (forall i | 0 <= i < |s| :: p[i] in scope <==> s[i] in scope)
            && (forall i | 0 <= i < |s| :: s[i] !in scope ==> p[i] == s[i])
            && Without(p, scope) == Without(s, scope)
            && Only(p, scope) == q
  {
    if s != [] {
      if s[0] in scope {
        assert q[0] in Elements(q);
        forall x | x in Elements(q[1..]) ensures x in scope {
          assert x in Elements(q);
        }
        PlacedMeans(s[1..], scope, q[1..]);
      } else {
        PlacedMeans(s[1..], scope, q);
      }
      var t := if s[0] in scope then q[1..] else q;
      var p := Placed(s, scope, q);
      assert p[1..] == Placed(s[1..], scope, t);
    }
  }

  lemma {:induction false} PlacedNone(s: seq<nat>, scope: set<nat>)
    ensures Placed(s, scope, []) == Without(s, scope)
  {
    if s != [] {
      PlacedNone(s[1..], scope);
    }
  }

  lemma {:induction false} WithoutStarts(s: seq<nat>, scope: set<nat>)
    ensures match FirstOutside(s, scope)
            case None => Without(s, scope) == []
            case Some(x) => Without(s, scope) != [] && Without(s, scope)[0] == x
  {
    if s != [] {
      WithoutStarts(s[1..], scope);
    }
  }

  lemma {:induction false} FirstOutsideOccurs(s: seq<nat>, scope: set<nat>)
    ensures FirstOutside(s, scope).Some? ==> FirstOutside(s, scope).value in s
  {
    if s != [] {
      FirstOutsideOccurs(s[1..], scope);
    }
  }

  lemma {:induction false} MarksOccur(s: seq<nat>, scope: set<nat>, j: nat)
    requires j < |Marks(s, scope)|
    ensures Marks(s, scope)[j].Some? ==> Marks(s, scope)[j].value in s && Marks(s, scope)[j].value !in scope
    ensures s != [] && Distinct(s) && Marks(s, scope)[j].Some? ==> Marks(s, scope)[j].value != s[0]
  {
    if s != [] {
      FirstOutsideOccurs(s[1..], scope);
      if s[0] !in scope {
        MarksOccur(s[1..], scope, j);
      } else if j > 0 {
        MarksOccur(s[1..], scope, j - 1);
      }
    }
  }

  /** Inserting the next item before its mark fills the next place. */
  lemma {:induction false} InsertFillsPlace(s: seq<nat>, scope: set<nat>, q: seq<nat>, x: nat)
    requires Distinct(s) && |q| < |Marks(s, scope)| && Elements(q) <= scope
    ensures InsertBefore(Placed(s, scope, q), x, Marks(s, scope)[|q|]) == Placed(s, scope, q + [x])
  {
    var mark := Marks(s, scope)[|q|];
    MarksOccur(s, scope, |q|);
    if s[0] !in scope {
      InsertFillsPlace(s[1..], scope, q, x);
    } else if q == [] {
      PlacedNone(s[1..], scope);
      WithoutStarts(s[1..], scope);
    } else {
      assert q[0] in Elements(q);
      forall y | y in Elements(q[1..]) ensures y in scope {
        assert y in Elements(q);
      }
      InsertFillsPlace(s[1..], scope, q[1..], x);
      assert (q + [x])[1..] == q[1..] + [x];
    }
  }

  // ---------------------------------------------------------------- moving an item

  lemma {:induction false} WithoutTwice(s: seq<nat>, x: nat, d: set<nat>)
    ensures Without(Without(s, {x}), d) == Without(s, d + {x})
  {
    if s != [] {
      WithoutTwice(s[1..], x, d);
      if s[0] != x {
        assert Without(s, {x})[1..] == Without(s[1..], {x});
      }
    }
  }

  lemma {:induction false} WithoutInserted(s: seq<nat>, x: nat, mark: Option<nat>, d: set<nat>)
    requires x !in d && (mark.Some? ==> mark.value !in d)
    ensures Without(InsertBefore(s, x, mark), d) == InsertBefore(Without(s, d), x, mark)
  {
    if s == [] || mark == Some(s[0]) {
      assert InsertBefore(s, x, mark)[1..] == s;
    } else {
      WithoutInserted(s[1..], x, mark, d);
      assert InsertBefore(s, x, mark)[1..] == InsertBefore(s[1..], x, mark);
      if s[0] !in d {
        assert Without(s, d)[1..] == Without(s[1..], d);
      }
    }
  }

  lemma {:induction false} WithoutNothing(s: seq<nat>)
    ensures Without(s, {}) == s
  {
    if s != [] {
      WithoutNothing(s[1..]);
    }
  }

  // ---------------------------------------------------------------- finding the marks

  function NextSibling(s: seq<nat>, x: nat): Option<nat> {
    if |s| < 2 then None else if s[0] == x then Some(s[1]) else NextSibling(s[1..], x)
  }

  lemma {:induction false} NextSiblingAt(s: seq<nat>, i: nat)
    requires Distinct(s) && i < |s|
    ensures NextSibling(s, s[i]) == if i + 1 < |s| then Some(s[i + 1]) else None
  {
    if i > 0 {
      NextSiblingAt(s[1..], i - 1);
    }
  }

  /** Where the next item of the scope stands. */
  lemma {:induction false} NextPlace(s: seq<nat>, scope: set<nat>, from: nat) returns (at: nat)
    requires from <= |s| && Only(s[from..], scope) != []
    ensures from <= at < |s| && s[at] in scope
    ensures Only(s[from..], scope) == [s[at]] + Only(s[at + 1..], scope)
    ensures Marks(s[from..], scope) == [FirstOutside(s[at + 1..], scope)] + Marks(s[at + 1..], scope)
    decreases |s| - from
  {
    assert from < |s|;
    assert s[from..][1..] == s[from + 1..];
    if s[from] in scope {
      at := from;
    } else {
      at := NextPlace(s, scope, from + 1);
    }
  }

  /** The sibling behind the items passed so far belongs to the run if and only if it is the next item
      of the scope, and the run's mark is the mark of what follows. */
  lemma RunGoesOn(s: seq<nat>, scope: set<nat>, pos: nat)
    requires pos <= |s|
    ensures pos == |s| ==> FirstOutside(s[pos..], scope) == None
    ensures pos < |s| && s[pos] !in scope ==> FirstOutside(s[pos..], scope) == Some(s[pos])
    ensures pos < |s| && s[pos] !in scope ==> s[pos] !in Only(s[pos..], scope)
    ensures pos < |s| && s[pos] in scope ==>
              && Only(s[pos..], scope) == [s[pos]] + Only(s[pos + 1..], scope)
              && FirstOutside(s[pos..], scope) == FirstOutside(s[pos + 1..], scope)
              && Marks(s[pos..], scope) == [FirstOutside(s[pos + 1..], scope)] + Marks(s[pos + 1..], scope)
  {
    if pos < |s| {
      assert s[pos..][1..] == s[pos + 1..];
      OnlyIsInside(s[pos..], scope);
    }
  }

  lemma {:induction false} OnlyIsInside(s: seq<nat>, d: set<nat>)
    ensures forall i | 0 <= i < |Only(s, d)| :: Only(s, d)[i] in d
  {
    if s != [] {
      OnlyIsInside(s[1..], d);
    }
  }

  function Repeat(x: Option<nat>, n: nat): seq<Option<nat>> {
    if n == 0 then [] else [x] + Repeat(x, n - 1)
  }

  lemma {:induction false} RepeatOneMore(x: Option<nat>, n: nat)
    ensures Repeat(x, n) + [x] == Repeat(x, n + 1)
  {
    if n > 0 {
      RepeatOneMore(x, n - 1);
    }
  }

  /** The marks of the first `k` items: those found, and `count` more in the run that is being passed,
      up to position `pos`. */
  ghost predicate Passed(s: seq<nat>, scope: seq<nat>, marks: seq<Option<nat>>, k: nat, count: nat, pos: nat) {
    var d := Elements(scope);
    && k <= |scope| && pos <= |s|
    && scope[k..] == Only(s[pos..], d)
    && marks + Repeat(FirstOutside(s[pos..], d), count) + Marks(s[pos..], d) == Marks(s, d)
  }

  lemma NonePassed(s: seq<nat>, scope: seq<nat>)
    requires scope == Only(s, Elements(scope))
    ensures Passed(s, scope, [], 0, 0, 0)
  {
    assert s[0..] == s && scope[0..] == scope;
  }

  lemma StartRun(s: seq<nat>, scope: seq<nat>, marks: seq<Option<nat>>, k: nat, pos: nat) returns (at: nat)
    requires Passed(s, scope, marks, k, 0, pos) && k < |scope|
    ensures at < |s| && s[at] == scope[k] && Passed(s, scope, marks, k + 1, 1, at + 1)
  {
    var d := Elements(scope);
    at := NextPlace(s, d, pos);
    assert scope[k..] == [scope[k]] + scope[k + 1..];
    assert Repeat(FirstOutside(s[at + 1..], d), 1) == [FirstOutside(s[at + 1..], d)];
    assert Repeat(FirstOutside(s[pos..], d), 0) == [];
  }

  lemma GoOn(s: seq<nat>, scope: seq<nat>, marks: seq<Option<nat>>, k: nat, count: nat, pos: nat)
    requires Passed(s, scope, marks, k, count, pos) && k < |scope| && pos < |s| && s[pos] == scope[k]
    ensures Passed(s, scope, marks, k + 1, count + 1, pos + 1)
  {
    var d := Elements(scope);
    RunGoesOn(s, d, pos);
    assert scope[k] in d;
    RepeatOneMore(FirstOutside(s[pos..], d), count);
    assert scope[k..] == [scope[k]] + scope[k + 1..];
  }

  lemma EndRun(s: seq<nat>, scope: seq<nat>, marks: seq<Option<nat>>, k: nat, count: nat, pos: nat)
    requires Passed(s, scope, marks, k, count, pos)
    requires !(pos < |s| && k < |scope| && s[pos] == scope[k])
    ensures FirstOutside(s[pos..], Elements(scope)) == if pos < |s| then Some(s[pos]) else None
  {
    RunGoesOn(s, Elements(scope), pos);
    if pos < |s| && s[pos] in Elements(scope) {
      assert false;
    }
  }

  lemma NoteMark(s: seq<nat>, scope: seq<nat>, marks: seq<Option<nat>>, k: nat, count: nat, pos: nat)
    requires Passed(s, scope, marks, k, count, pos) && count > 0
    ensures Passed(s, scope, marks + [FirstOutside(s[pos..], Elements(scope))], k, count - 1, pos)
  {
    var mark := FirstOutside(s[pos..], Elements(scope));
    assert Repeat(mark, count) == [mark] + Repeat(mark, count - 1);
  }

  lemma AllPassed(s: seq<nat>, scope: seq<nat>, marks: seq<Option<nat>>, pos: nat)
    requires Passed(s, scope, marks, |scope|, 0, pos)
    ensures marks == Marks(s, Elements(scope))
  {
  }

  /** The first half of sort_the_items: runs of consecutive items share one mark. */
  method FindMarks(s: seq<nat>, scope: seq<nat>) returns (marks: seq<Option<nat>>)
    requires Distinct(s) && scope == Only(s, Elements(scope))
    ensures marks == Marks(s, Elements(scope))
  {
    hide Passed, Marks, Only, FirstOutside, Elements;
    ghost var pos: nat := 0;
    var k := 0;
    marks := [];
    NonePassed(s, scope);
    while k < |scope|
      invariant Passed(s, scope, marks, k, 0, pos) && k <= |scope|
    {
      ghost var at := StartRun(s, scope, marks, k, pos);
      NextSiblingAt(s, at);
      var next := NextSibling(s, scope[k]);
      pos := at + 1;
      k := k + 1;
      var count := 1;
      while next.Some? && k < |scope| && next.value == scope[k]
        invariant Passed(s, scope, marks, k, count, pos) && k <= |scope| && pos <= |s|
        invariant next == if pos < |s| then Some(s[pos]) else None
        decreases |scope| - k
      {
        GoOn(s, scope, marks, k, count, pos);
        NextSiblingAt(s, pos);
        next := NextSibling(s, scope[k]);
        pos := pos + 1;
        k := k + 1;
        count := count + 1;
      }
      EndRun(s, scope, marks, k, count, pos);
      while count > 0
        invariant Passed(s, scope, marks, k, count, pos)
      {
        NoteMark(s, scope, marks, k, count, pos);
        marks := marks + [next];
        count := count - 1;
      }
    }
    AllPassed(s, scope, marks, pos);
  }

  // ---------------------------------------------------------------- permutations of the scope

  lemma {:induction false} DistinctCounts(s: seq<nat>, x: nat)
    requires Distinct(s)
    ensures multiset(s)[x] <= 1
  {
    if s != [] {
      assert s == [s[0]] + s[1..];
      DistinctCounts(s[1..], x);
      assert s[0] !in s[1..];
    }
  }

  lemma CountsDistinct(s: seq<nat>)
    requires forall x :: multiset(s)[x] <= 1
    ensures Distinct(s)
  {
    forall i, j | 0 <= i < j < |s| ensures s[i] != s[j] {
      var a, b := s[..j], s[j..];
      assert s == a + b;
      assert multiset(s)[s[i]] == multiset(a)[s[i]] + multiset(b)[s[i]];
      assert s[i] == a[i] && s[j] == b[0];
    }
  }

  lemma {:induction false} SplitByScope(s: seq<nat>, d: set<nat>)
    ensures multiset(s) == multiset(Without(s, d)) + multiset(Only(s, d))
  {
    if s != [] {
      assert s == [s[0]] + s[1..];
      SplitByScope(s[1..], d);
    }
  }

  lemma SortedElements(s: seq<nat>, scope: seq<nat>, sorted: seq<nat>)
    requires Distinct(s) && scope == Only(s, Elements(scope)) && multiset(sorted) == multiset(scope)
    ensures |sorted| == |scope| && Elements(sorted) == Elements(scope) && Distinct(sorted)
  {
    assert |multiset(sorted)| == |sorted|;
    forall x ensures x in sorted <==> x in scope {
      assert x in multiset(sorted) <==> x in multiset(scope);
    }
    forall x: nat ensures multiset(sorted)[x] <= 1 {
      SplitByScope(s, Elements(scope));
      DistinctCounts(s, x);
    }
    CountsDistinct(sorted);
  }

  lemma NothingPlaced(s: seq<nat>, d: set<nat>, q: seq<nat>)
    requires Elements(q) == d
    ensures Without(s, Elements(q[0..])) == Placed(s, d, q[..0])
  {
    assert q[0..] == q;
    PlacedNone(s, d);
  }

  /** One move of the second loop: the items not yet moved do not matter. */
  lemma StepPlaces(s: seq<nat>, now: seq<nat>, d: set<nat>, q: seq<nat>, j: nat)
    requires Distinct(s) && Distinct(q) && Elements(q) == d && |q| == |Only(s, d)| && j < |q|
    requires Without(now, Elements(q[j..])) == Placed(s, d, q[..j])
    ensures Without(InsertBefore(Without(now, {q[j]}), q[j], Marks(s, d)[j]), Elements(q[j + 1..]))
         == Placed(s, d, q[..j + 1])
  {
    hide Without, InsertBefore, Placed, Only;
    var x, mark, rest := q[j], Marks(s, d)[j], Elements(q[j + 1..]);
    MarksOccur(s, d, j);
    assert q[j..] == [x] + q[j + 1..];
    ElementsSplit(x, q[j + 1..]);
    assert x !in rest && Elements(q[j..]) == rest + {x};
    assert forall y | y in rest :: y in Elements(q);
    WithoutInserted(Without(now, {x}), x, mark, rest);
    WithoutTwice(now, x, rest);
    assert forall y | y in Elements(q[..j]) :: y in Elements(q);
    InsertFillsPlace(s, d, q[..j], x);
    assert q[..j] + [x] == q[..j + 1];
  }

  lemma {:induction false} PlacedSame(s: seq<nat>, d: set<nat>)
    ensures Placed(s, d, Only(s, d)) == s
  {
    if s != [] {
      PlacedSame(s[1..], d);
      if s[0] in d {
        assert Only(s, d)[1..] == Only(s[1..], d);
      }
    }
  }

  lemma FewItems(s: seq<nat>, scope: seq<nat>, sorted: seq<nat>)
    requires |scope| <= 1 && scope == Only(s, Elements(scope)) && multiset(sorted) == multiset(scope)
    ensures Placed(s, Elements(scope), sorted) == s
  {
    assert |multiset(sorted)| == |sorted|;
    if |scope| == 1 {
      assert sorted[0] in multiset(sorted);
      assert sorted == scope;
    }
    PlacedSame(s, Elements(scope));
  }

  lemma ElementsSplit(x: nat, s: seq<nat>)
    ensures Elements([x] + s) == {x} + Elements(s)
  {
  }

  lemma {:induction false} InsertedElements(s: seq<nat>, x: nat, mark: Option<nat>)
    ensures Elements(InsertBefore(s, x, mark)) == Elements(s) + {x}
  {
    if s != [] && mark != Some(s[0]) {
      InsertedElements(s[1..], x, mark);
      ElementsSplit(s[0], s[1..]);
      ElementsSplit(s[0], InsertBefore(s[1..], x, mark));
      assert s == [s[0]] + s[1..];
    }
  }

  lemma {:induction false} WithoutElements(s: seq<nat>, d: set<nat>)
    ensures Elements(Without(s, d)) == Elements(s) - d
  {
    if s != [] {
      WithoutElements(s[1..], d);
      ElementsSplit(s[0], s[1..]);
      ElementsSplit(s[0], Without(s[1..], d));
      assert s == [s[0]] + s[1..];
    }
  }

  // ---------------------------------------------------------------- the children of one parent

  class Parent {
    var children: seq<nat>

    constructor (children: seq<nat>)
      ensures this.children == children
    {
      this.children := children;
    }

    /** A class's move: detach the item, then insert it before a sibling or append it. */
    method Move(x: nat, before: Option<nat>)
      requires before.Some? ==> before.value in children && before.value != x
      modifies this
      ensures children == InsertBefore(Without(old(children), {x}), x, before)
    {
      children := InsertBefore(Without(children, {x}), x, before);
    }

    /** sort_the_items, where `sorted` is the scope's list after list_sort. */
    method SortItems(scope: seq<nat>, sorted: seq<nat>)
      requires Distinct(children) && scope == Only(children, Elements(scope))
      requires multiset(sorted) == multiset(scope)
      modifies this
      ensures children == Placed(old(children), Elements(scope), sorted)
    {
      ghost var d := Elements(scope);
      if |scope| > 1 {
        var marks := FindMarks(children, scope);
        SortedElements(children, scope, sorted);
        ghost var was := children;
        NothingPlaced(was, d, sorted);
        for j := 0 to |sorted|
          invariant Distinct(was) && Distinct(sorted) && Elements(sorted) == d
          invariant |sorted| == |Only(was, d)| && marks == Marks(was, d)
          invariant Elements(was) - d <= Elements(children)
          invariant Without(children, Elements(sorted[j..])) == Placed(was, d, sorted[..j])
        {
          StepPlaces(was, children, d, sorted, j);
          MarksOccur(was, d, j);
          assert sorted[j] in Elements(sorted);
          InsertedElements(Without(children, {sorted[j]}), sorted[j], marks[j]);
          WithoutElements(children, {sorted[j]});
          assert marks[j].Some? ==> marks[j].value in Elements(was) - d;
          Move(sorted[j], marks[j]);
        }
        assert sorted[..|sorted|] == sorted && Elements(sorted[|sorted|..]) == {};
        WithoutNothing(children);
      } else {
        FewItems(children, scope, sorted);
      }
    }
  }

  // ---------------------------------------------------------------- the order of the keys

  /** A key that number_value takes for a number. */
  predicate Numeric(v: Value) {
    v.vtype == NumberType || (v.vtype == UnknownType && NumberValue(v).vtype == NumberType)
  }

  /** save_sort_key_value over the items of the scope: the keys are compared as numbers as long as all
      of them are numbers; the first that is not makes the comparison textual. */
  method SaveKeys(values: seq<Value>, itemText: ItemText) returns (textual: bool, keys: seq<Value>)
    ensures |keys| == |values|
    ensures textual <==> exists i | 0 <= i < |values| :: !Numeric(values[i])
    ensures forall i | 0 <= i < |values| :: StringOf(keys[i], itemText) == StringOf(values[i], itemText)
    ensures !textual ==> forall i | 0 <= i < |values| ::
                           keys[i].vtype == NumberType && keys[i].n == NumberIn(values[i])
  {
    textual, keys := false, [];
    for k := 0 to |values|
      invariant |keys| == k
      invariant textual <==> exists i | 0 <= i < k :: !Numeric(values[i])
      invariant forall i | 0 <= i < k :: StringOf(keys[i], itemText) == StringOf(values[i], itemText)
      invariant !textual ==> forall i | 0 <= i < k ::
                               keys[i].vtype == NumberType && keys[i].n == NumberIn(values[i])
    {
      var v := values[k];
      if v.vtype == UnknownType && !textual {
        v := NumberValue(v);
      } else {
        v := v.(s := Some(StringOf(v, itemText)));
      }
      if v.vtype != NumberType {
        textual := true;
      }
      keys := keys + [v];
    }
  }

  /** sort_compare */
  predicate Greater(textual: bool, a: Value, b: Value, itemText: ItemText) {
    if textual then CompareText(StringOf(a, itemText), StringOf(b, itemText)) > 0 else a.n > b.n
  }

  /** A key is greater if it is the greater number, or the text the other comes before. */
  lemma {:induction false} GreaterMeans(a: Value, b: Value, itemText: ItemText)
    ensures Greater(false, a, b, itemText) <==> b.n < a.n
    ensures Greater(true, a, b, itemText) <==> Precedes(StringOf(b, itemText), StringOf(a, itemText))
  {
    CompareIsOrder(StringOf(a, itemText), StringOf(b, itemText));
  }

  lemma {:induction false} OnlyIndex(s: seq<nat>, d: set<nat>, i: nat, j: nat) returns (k: nat, m: nat)
    requires i < j < |s| && s[i] in d && s[j] in d
    ensures k < m < |Only(s, d)| && Only(s, d)[k] == s[i] && Only(s, d)[m] == s[j]
  {
    if i > 0 {
      k, m := OnlyIndex(s[1..], d, i - 1, j - 1);
      if s[0] in d {
        k, m := k + 1, m + 1;
      }
    } else {
      var after := OnlyHolds(s[1..], d, j - 1);
      k, m := 0, after + 1;
    }
  }

  lemma {:induction false} OnlyHolds(s: seq<nat>, d: set<nat>, j: nat) returns (m: nat)
    requires j < |s| && s[j] in d
    ensures m < |Only(s, d)| && Only(s, d)[m] == s[j]
  {
    if j == 0 {
      m := 0;
    } else {
      m := OnlyHolds(s[1..], d, j - 1);
      if s[0] in d {
        m := m + 1;
      }
    }
  }

  /** The siblings after the sort: the same items, and wherever two items of the scope now stand, the
      earlier one has the smaller number or an equal one, or no text that the later one's comes before. */
  lemma SortedSiblings(s: seq<nat>, scope: seq<nat>, sorted: seq<nat>, textual: bool, key: nat -> Value,
      itemText: ItemText)
    requires Distinct(s) && scope == Only(s, Elements(scope)) && multiset(sorted) == multiset(scope)
    requires forall i, j | 0 <= i < j < |sorted| :: !Greater(textual, key(sorted[i]), key(sorted[j]), itemText)
    ensures var p := Placed(s, Elements(scope), sorted);
            && multiset(p) == multiset(s) && |p| == |s|
            && (forall i | 0 <= i < |s| && s[i] !in Elements(scope) :: p[i] == s[i])
            && (forall i, j | 0 <= i < j < |p| && s[i] in Elements(scope) && s[j] in Elements(scope) ::
                  if textual then !Precedes(StringOf(key(p[j]), itemText), StringOf(key(p[i]), itemText))
                  else key(p[i]).n <= key(p[j]).n)
  {
    var d := Elements(scope);
    var p := Placed(s, d, sorted);
    SortedElements(s, scope, sorted);
    PlacedMeans(s, d, sorted);
    SplitByScope(s, d);
    SplitByScope(p, d);
    forall i, j | 0 <= i < j < |p| && s[i] in d && s[j] in d
      ensures if textual then !Precedes(StringOf(key(p[j]), itemText), StringOf(key(p[i]), itemText))
              else key(p[i]).n <= key(p[j]).n
    {
      var k, m := OnlyIndex(p, d, i, j);
      assert !Greater(textual, key(p[i]), key(p[j]), itemText);
      CompareIsOrder(StringOf(key(p[i]), itemText), StringOf(key(p[j]), itemText));
    }
  }
}
