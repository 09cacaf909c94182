/** Visiting the operands of a concatenation by parent pointers.

    A line's result is a tree whose inner nodes are concatenations.  The walk has no stack: from an
    operand it climbs as long as it comes from a second child, then steps over to the second child
    and down to its first operand. */
module OperandWalk {
  import opened Syntax

  datatype Kind = Concatenation | OtherOperator | Leaf

  datatype Node = Node(kind: Kind, parent: Option<nat>, op1: Option<nat>, op2: Option<nat>, indent: nat)

  // ---------------------------------------------------------------- the tree the nodes form

  datatype Shape = One(id: nat) | Two(id: nat, left: Shape, right: Shape)

  function Ids(t: Shape): set<nat> {
    match t
    case One(id) => {id}
    case Two(id, l, r) => {id} + Ids(l) + Ids(r)
  }

  /** The nodes are linked as `t`, up and down, and no node occurs twice. */
  ghost predicate Forms(a: seq<Node>, t: Shape) {
    && t.id < |a|
    && match t
       case One(id) => a[id].kind == Leaf
       case Two(id, l, r) =>
         && a[id].kind == Concatenation && a[id].op1 == Some(l.id) && a[id].op2 == Some(r.id)
         && Forms(a, l) && Forms(a, r)
         && l.id < |a| && r.id < |a|
         && a[l.id].parent == Some(id) && a[r.id].parent == Some(id)
         && id !in Ids(l) && id !in Ids(r) && Ids(l) !! Ids(r)
  }

  /** The walk does not leave the tree: its root is a concatenation at the top, or belongs to a node
      that is not a concatenation. */
  ghost predicate Enclosed(a: seq<Node>, t: Shape)
    requires t.id < |a|
  {
    match a[t.id].parent
    case None => t.Two?
    case Some(p) => p < |a| && a[p].kind != Concatenation && p !in Ids(t)
  }

  /** The operands from left to right, each with the indentation it takes over: that of the largest
      part of the tree it is the first operand of. */
  function Operands(a: seq<Node>, t: Shape, indent: nat): (s: seq<(nat, nat)>)
    requires Forms(a, t)
    ensures s != []
  {
    match t
    case One(id) => [(id, indent)]
    case Two(_, l, r) => Operands(a, l, indent) + Operands(a, r, a[r.id].indent)
  }

  // ---------------------------------------------------------------- the successor in the tree

  datatype Successor = Absent | Last | Next(id: nat, indent: nat)

  function First(t: Shape): nat {
    match t
    case One(id) => id
    case Two(_, l, _) => First(l)
  }

  /** The operand behind `id` in `t`. */
  function After(a: seq<Node>, t: Shape, id: nat): Successor
    requires Forms(a, t)
  {
    match t
    case One(x) => if x == id then Last else Absent
    case Two(_, l, r) =>
      match After(a, l, id)
      case Absent => After(a, r, id)
      case Last => Next(First(r), a[r.id].indent)
      case Next(n, i) => Next(n, i)
  }

  lemma {:induction false} AbsentOutside(a: seq<Node>, t: Shape, id: nat)
    requires Forms(a, t)
    ensures id !in Ids(t) ==> After(a, t, id) == Absent
  {
    if t.Two? {
      AbsentOutside(a, t.left, id);
      AbsentOutside(a, t.right, id);
    }
  }

  lemma {:induction false} OperandsAreIds(a: seq<Node>, t: Shape, indent: nat)
    requires Forms(a, t)
    ensures forall k | 0 <= k < |Operands(a, t, indent)| :: Operands(a, t, indent)[k].0 in Ids(t)
    ensures Operands(a, t, indent)[0] == (First(t), indent)
  {
    if t.Two? {
      OperandsAreIds(a, t.left, indent);
      OperandsAreIds(a, t.right, a[t.right.id].indent);
    }
  }

  lemma {:induction false} OperandsAreLeaves(a: seq<Node>, t: Shape, indent: nat, k: nat)
    requires Forms(a, t) && k < |Operands(a, t, indent)|
    ensures var id := Operands(a, t, indent)[k].0; id in Ids(t) && id < |a| && a[id].kind == Leaf
    decreases t
  {
    if t.Two? {
      var n := |Operands(a, t.left, indent)|;
      if k < n {
        OperandsAreLeaves(a, t.left, indent, k);
      } else {
        OperandsAreLeaves(a, t.right, a[t.right.id].indent, k - n);
      }
    }
  }

  /** No operand occurs twice. */
  lemma {:induction false} OperandsAreDistinct(a: seq<Node>, t: Shape, indent: nat, i: nat, j: nat)
    requires Forms(a, t) && i < j < |Operands(a, t, indent)|
    ensures Operands(a, t, indent)[i].0 != Operands(a, t, indent)[j].0
    decreases t
  {
    if t.Two? {
      var l, r, n := t.left, t.right, |Operands(a, t.left, indent)|;
      if j < n {
        OperandsAreDistinct(a, l, indent, i, j);
      } else if n <= i {
        OperandsAreDistinct(a, r, a[r.id].indent, i - n, j - n);
      } else {
        OperandsAreLeaves(a, l, indent, i);
        OperandsAreLeaves(a, r, a[r.id].indent, j - n);
      }
    }
  }

  /** The successor of the k-th operand is the next one, and the last has none. */
  lemma {:induction false} AfterFollowsOrder(a: seq<Node>, t: Shape, indent: nat, k: nat)
    requires Forms(a, t) && k < |Operands(a, t, indent)|
    ensures var s := Operands(a, t, indent);
            After(a, t, s[k].0) == if k + 1 < |s| then Next(s[k + 1].0, s[k + 1].1) else Last
    decreases t
  {
    if t.Two? {
      var l, r, n := t.left, t.right, |Operands(a, t.left, indent)|;
      OperandsAreIds(a, l, indent);
      OperandsAreIds(a, r, a[r.id].indent);
      if k < n {
        AfterFollowsOrder(a, l, indent, k);
      } else {
        AbsentOutside(a, l, Operands(a, r, a[r.id].indent)[k - n].0);
        AfterFollowsOrder(a, r, a[r.id].indent, k - n);
      }
    }
  }

  // ---------------------------------------------------------------- the walk

  /** first_operand */
  method FirstOperand(a: seq<Node>, root: nat, ghost t: Shape) returns (r: nat, indent: nat)
    requires Forms(a, t) && t.id == root
    ensures r == First(t) && indent == a[root].indent
  {
    r, indent := root, a[root].indent;
    ghost var s := t;
    while a[r].kind != Leaf
      invariant Forms(a, s) && s.id == r && First(s) == First(t)
      decreases s
    {
      r := a[r].op1.value;
      s := s.left;
    }
  }

  /** Where a part of the tree hangs. */
  datatype Place =
    | Top
    | InLeft(id: nat, right: Shape, up: Place)
    | InRight(id: nat, left: Shape, up: Place)

  function Plug(p: Place, t: Shape): Shape
    decreases p
  {
    match p
    case Top => t
    case InLeft(id, r, up) => Plug(up, Two(id, t, r))
    case InRight(id, l, up) => Plug(up, Two(id, l, t))
  }

  /** What follows everything hung at `p`. */
  function Beyond(a: seq<Node>, p: Place): Successor {
    match p
    case Top => Last
    case InLeft(_, r, _) => if r.id < |a| then Next(First(r), a[r.id].indent) else Absent
    case InRight(_, _, up) => Beyond(a, up)
  }

  lemma {:induction false} PluggedForms(a: seq<Node>, p: Place, t: Shape)
    requires Forms(a, Plug(p, t))
    ensures Forms(a, t) && Ids(t) <= Ids(Plug(p, t))
    decreases p
  {
    match p
    case Top =>
    case InLeft(id, r, up) => PluggedForms(a, up, Two(id, t, r));
    case InRight(id, l, up) => PluggedForms(a, up, Two(id, l, t));
  }

  /** The successor of the last operand of a part is what follows the part. */
  lemma {:induction false} AfterPart(a: seq<Node>, p: Place, t: Shape, id: nat)
    requires Forms(a, Plug(p, t)) && Forms(a, t)
    requires After(a, t, id) != Absent && id in Ids(t)
    ensures After(a, Plug(p, t), id) == if After(a, t, id) == Last then Beyond(a, p) else After(a, t, id)
    decreases p
  {
    match p
    case Top =>
    case InLeft(x, r, up) =>
      PluggedForms(a, up, Two(x, t, r));
      AfterPart(a, up, Two(x, t, r), id);
    case InRight(x, l, up) =>
      PluggedForms(a, up, Two(x, l, t));
      AbsentOutside(a, l, id);
      AfterPart(a, up, Two(x, l, t), id);
  }

  ghost function PlaceOf(t: Shape, id: nat, up: Place): Place {
    match t
    case One(_) => up
    case Two(x, l, r) => if id in Ids(l) then PlaceOf(l, id, InLeft(x, r, up)) else PlaceOf(r, id, InRight(x, l, up))
  }

  lemma {:induction false} PlaceHolds(a: seq<Node>, t: Shape, id: nat, up: Place)
    requires Forms(a, t) && id in Ids(t) && id < |a| && a[id].kind == Leaf
    ensures Plug(PlaceOf(t, id, up), One(id)) == Plug(up, t)
    decreases t
  {
    match t
    case One(_) =>
    case Two(x, l, r) =>
      if id in Ids(l) {
        PlaceHolds(a, l, id, InLeft(x, r, up));
      } else {
        PlaceHolds(a, r, id, InRight(x, l, up));
      }
  }

  /** The links around a part. */
  lemma {:induction false} PlaceParent(a: seq<Node>, p: Place, t: Shape)
    requires Forms(a, Plug(p, t))
    ensures Forms(a, t)
    ensures match p
            case Top => true
            case InLeft(id, r, up) =>
              id < |a| && a[id].kind == Concatenation && a[t.id].parent == Some(id)
              && Forms(a, r) && a[id].op2 == Some(r.id) && r.id != t.id && (up != Top ==> a[id].parent.Some?)
            case InRight(id, l, up) =>
              id < |a| && a[id].kind == Concatenation && a[t.id].parent == Some(id)
              && a[id].op2 == Some(t.id) && (up != Top ==> a[id].parent.Some?)
  {
    PluggedForms(a, p, t);
    match p
    case Top =>
    case InLeft(id, r, up) =>
      PluggedForms(a, up, Two(id, t, r));
      RootIsId(r);
      RootIsId(t);
      if up != Top {
        PluggedForms(a, up.up, if up.InLeft? then Two(up.id, Two(id, t, r), up.right)
            else Two(up.id, up.left, Two(id, t, r)));
      }
    case InRight(id, l, up) =>
      PluggedForms(a, up, Two(id, l, t));
      if up != Top {
        PluggedForms(a, up.up, if up.InLeft? then Two(up.id, Two(id, l, t), up.right)
            else Two(up.id, up.left, Two(id, l, t)));
      }
  }

  lemma RootIsId(t: Shape)
    ensures t.id in Ids(t)
  {
  }

  /** next_operand: without a stack, the walk finds the operand that follows in the tree. */
  method NextOperand(a: seq<Node>, from: nat, ghost t: Shape) returns (next: Option<(nat, nat)>)
    requires Forms(a, t) && Enclosed(a, t)
    requires from in Ids(t) && from < |a| && a[from].kind == Leaf
    ensures After(a, t, from) == match next case None => Last case Some(n) => Next(n.0, n.1)
  {
    ghost var place, part := PlaceOf(t, from, Top), One(from);
    PlaceHolds(a, t, from, Top);
    AfterPart(a, place, part, from);
    var r := from;
    assert place == Top ==> t == part;
    PlaceParent(a, place, part);
    var p := a[r].parent.value;
    while a[p].parent.Some? && a[p].kind == Concatenation && a[p].op2 == Some(r)
      invariant Plug(place, part) == t && part.id == r && Beyond(a, place) == After(a, t, from)
      invariant r < |a| && p < |a| && a[r].parent == Some(p)
      invariant place == Top ==> a[p].kind != Concatenation
      decreases place
    {
      PlaceParent(a, place, part);
      part, place := Two(p, place.left, part), place.up;
      r := p;
      PlaceParent(a, place, part);
      p := a[r].parent.value;
    }
    PlaceParent(a, place, part);
    if a[p].kind == Concatenation && a[p].op2 != Some(r) {
      var n, indent := FirstOperand(a, a[p].op2.value, place.right);
      next := Some((n, indent));
    } else {
      next := None;
    }
  }

  /** The two together visit every operand once, from left to right, as the loops over the operands
      in concatenate_results do. */
  method Visit(a: seq<Node>, root: nat, ghost t: Shape) returns (seen: seq<(nat, nat)>)
    requires Forms(a, t) && t.id == root && Enclosed(a, t)
    ensures seen == Operands(a, t, a[root].indent)
  {
    var r, indent := FirstOperand(a, root, t);
    ghost var all := Operands(a, t, a[root].indent);
    OperandsAreIds(a, t, a[root].indent);
    OperandsAreLeaves(a, t, a[root].indent, 0);
    seen := [(r, indent)];
    var next := NextOperand(a, r, t);
    AfterFollowsOrder(a, t, a[root].indent, 0);
    while next.Some?
      invariant 0 < |seen| <= |all| && seen == all[..|seen|]
      invariant next == if |seen| < |all| then Some(all[|seen|]) else None
      decreases |all| - |seen|
    {
      ghost var k := |seen|;
      seen := seen + [next.value];
      OperandsAreLeaves(a, t, a[root].indent, k);
      AfterFollowsOrder(a, t, a[root].indent, k);
      next := NextOperand(a, next.value.0, t);
    }
  }
}
