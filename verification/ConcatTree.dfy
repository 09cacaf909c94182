/** concatenate_results on the result tree: from linked nodes to the rows of the rectangle. */
module ConcatTree {
  import opened OperandWalk
  import opened ConcatLayout

  /** What a leaf of the result tree holds besides its links and indentation. */
  datatype Piece = Piece(content: Content, width: nat, extend: bool)

  function OperandOf(piece: Piece, indent: nat): Operand {
    Operand(piece.content, indent, piece.width, piece.extend)
  }

  /** The operands of a tree from left to right: every part brings its own indentation to the operand it
      starts with, and the whole brings `indent`. */
  function TreeOperands(a: seq<Node>, t: Shape, pieces: seq<Piece>, indent: nat): seq<Operand>
    requires Forms(a, t) && |pieces| == |a|
  {
    match t
    case One(id) => [OperandOf(pieces[id], indent)]
    case Two(_, l, r) => TreeOperands(a, l, pieces, indent) + TreeOperands(a, r, pieces, a[r.id].indent)
  }

  /** The operands visited by the walk are those of the tree. */
  lemma {:induction false} VisitedOperands(a: seq<Node>, t: Shape, pieces: seq<Piece>, indent: nat, k: nat)
    requires Forms(a, t) && |pieces| == |a| && k < |Operands(a, t, indent)|
    ensures |TreeOperands(a, t, pieces, indent)| == |Operands(a, t, indent)|
    ensures var s := Operands(a, t, indent)[k];
            s.0 < |a| && TreeOperands(a, t, pieces, indent)[k] == OperandOf(pieces[s.0], s.1)
    decreases t
  {
    if t.Two? {
      var n := |Operands(a, t.left, indent)|;
      VisitedOperands(a, t.left, pieces, indent, if k < n then k else 0);
      VisitedOperands(a, t.right, pieces, a[t.right.id].indent, if k < n then 0 else k - n);
    }
  }

  /** Only the first operand takes over the indentation of the whole. */
  lemma {:induction false} FirstIndent(a: seq<Node>, t: Shape, i: nat, j: nat)
    requires Forms(a, t)
    ensures Operands(a, t, j) == [(Operands(a, t, i)[0].0, j)] + Operands(a, t, i)[1..]
  {
    if t.Two? {
      FirstIndent(a, t.left, i, j);
      var r := Operands(a, t.right, a[t.right.id].indent);
      assert Operands(a, t, i)[1..] == Operands(a, t.left, i)[1..] + r;
    }
  }

  /** concatenate_results: the operands are found by parent pointers and laid out.  It fails exactly on an
      undefined operand; otherwise every row is the rows of the tree's operands side by side. */
  method ConcatenateResults(a: seq<Node>, root: nat, ghost t: Shape, pieces: seq<Piece>, shuffle: int, convert: bool)
    returns (ok: bool, rc: array2<char>)
    requires Forms(a, t) && t.id == root && Enclosed(a, t) && |pieces| == |a|
    ensures var ops := TreeOperands(a, t, pieces, if convert then a[root].indent else 0);
            && ok == AllDefined(ops)
            && (ok ==> rc.Length0 == MaxHeight(ops, |ops|) && rc.Length1 == Column(ops, shuffle, |ops|))
            && (ok ==> forall r | 0 <= r < rc.Length0 :: Starts(rc, r, Row(ops, shuffle, |ops|, r)))
  {
    hide MaxHeight, Column, Row;
    var seen := Visit(a, root, t);
    var indent := if convert then a[root].indent else 0;
    FirstIndent(a, t, a[root].indent, indent);
    seen := [(seen[0].0, indent)] + seen[1..];
    var ops := [];
    for k := 0 to |seen|
      invariant |ops| == k
      invariant forall i | 0 <= i < k :: seen[i].0 < |a| && ops[i] == OperandOf(pieces[seen[i].0], seen[i].1)
    {
      VisitedOperands(a, t, pieces, indent, k);
      ops := ops + [OperandOf(pieces[seen[k].0], seen[k].1)];
    }
    SameOperands(a, t, pieces, indent, ops);
    ok, rc := Concatenate(ops, shuffle);
  }

  lemma SameOperands(a: seq<Node>, t: Shape, pieces: seq<Piece>, indent: nat, ops: seq<Operand>)
    requires Forms(a, t) && |pieces| == |a| && |ops| == |Operands(a, t, indent)|
    requires var seen := Operands(a, t, indent);
             forall k | 0 <= k < |ops| :: seen[k].0 < |a| && ops[k] == OperandOf(pieces[seen[k].0], seen[k].1)
    ensures ops == TreeOperands(a, t, pieces, indent)
  {
    VisitedOperands(a, t, pieces, indent, 0);
    forall k | 0 <= k < |ops| ensures ops[k] == TreeOperands(a, t, pieces, indent)[k] {
      VisitedOperands(a, t, pieces, indent, k);
    }
  }
}
