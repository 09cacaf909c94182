/** How the builder groups operators, in terms of the operators' names alone.

    The classes are listed here from the tightest to the loosest; the parser's priority table is not used
    in any statement below, only in the proofs. */
module Precedence {
  import opened Syntax
  import opened ExpressionCursor
  import opened BracketBalance
  import opened RoundTrip

  /** Concatenation, products, sums, choices, comparisons, negation, logic, the argument separator. */
  function Classes(): seq<set<Operator>> {
    [{OpUndefined},
     {OpTimes, OpDivide},
     {OpPlus, OpMinus},
     {OpIif, OpDefault},
     {OpEquals, OpNotEquals, OpGreaterThan, OpLessThan, OpGreaterEqual, OpLessEqual,
      OpSafeEquals, OpSafeNotEquals, OpSafeGreaterThan, OpSafeLessThan, OpSafeGreaterEqual, OpSafeLessEqual},
     {OpNot},
     {OpAnd, OpOr},
     {OpNextArg}]
  }

  /** `a` is of a tighter class than `b`. */
  predicate Tighter(a: Operator, b: Operator) {
    exists i, j :: 0 <= i < j < |Classes()| && a in Classes()[i] && b in Classes()[j]
  }

  function ClassOf(op: Operator): (i: nat)
    ensures i < |Classes()| && op in Classes()[i] && forall j | 0 <= j < |Classes()| && op in Classes()[j] :: j == i
  {
    8 - Priority(op)
  }

  /** The table says what the list says. */
  lemma TableIsClasses(a: Operator, b: Operator)
    ensures Tighter(a, b) <==> Priority(a) > Priority(b)
  {
    assert a in Classes()[ClassOf(a)] && b in Classes()[ClassOf(b)];
  }

  // ---------------------------------------------------------------- grouped trees

  predicate IsBinary(t: Tree) {
    t.kind == OperatorNode && Op1 in t.kids
  }

  /** No operand of an operator is a binary operation of a looser class, no right operand one of the same
      class, and no operand of a unary operator is a binary operation at all. */
  predicate Grouped(t: Tree) {
    && (forall f | f in t.kids :: Grouped(t.kids[f]))
    && (IsBinary(t) && IsBinary(t.kids[Op1]) ==> !Tighter(t.op, t.kids[Op1].op))
    && (IsBinary(t) && Op2 in t.kids && IsBinary(t.kids[Op2]) ==> Tighter(t.kids[Op2].op, t.op))
    && (t.kind == OperatorNode && Op1 !in t.kids && Op2 in t.kids ==> !IsBinary(t.kids[Op2]))
  }

  /** May an operation go into the hole of an open node? */
  predicate FitsHole(f: Frame, binary: bool, op: Operator) {
    f.kind == OperatorNode && binary ==> Op1 in f.kids && Tighter(op, f.op)
  }

  predicate GroupedPath(path: Path) {
    path.In? ==>
      var f := path.frame;
      && (forall k | k in f.kids :: Grouped(f.kids[k]))
      && (f.kind == OperatorNode ==> f.hole == Op2 && f.kids.Keys <= {Op1})
      && (f.kind == OperatorNode && Op1 in f.kids && IsBinary(f.kids[Op1]) ==> !Tighter(f.op, f.kids[Op1].op))
      && (path.outer.In? ==> FitsHole(path.outer.frame, f.kind == OperatorNode && Op1 in f.kids, f.op))
      && GroupedPath(path.outer)
  }

  predicate GroupedState(s: State) {
    && GroupedPath(s.path)
    && (s.focus.Some? ==>
          && Grouped(s.focus.value.tree)
          && (s.path.In? ==> FitsHole(s.path.frame, IsBinary(s.focus.value.tree), s.focus.value.tree.op)))
  }

  /** Climbing keeps things grouped. */
  lemma {:induction false} ClimbIsGrouped(rule: Rule, s: State)
    requires GroupedState(s) && OpenBrackets(s) == 0
    ensures GroupedState(Climb(rule, s).state) && Climb(rule, s).fault == NoFault
    ensures OpenBrackets(Climb(rule, s).state) == 0
    decreases s.path
  {
    if Climbs(rule, s) {
      ClosedIsGrouped(s);
      ClimbIsGrouped(rule, ReturnOneLevel(s).state);
    }
  }

  lemma ClosedIsGrouped(s: State)
    requires GroupedState(s) && OpenBrackets(s) == 0 && s.path.In?
    ensures ReturnOneLevel(s).fault == NoFault && GroupedState(ReturnOneLevel(s).state)
    ensures OpenBrackets(ReturnOneLevel(s).state) == 0
  {
    var f, t := s.path.frame, Closed(s.path.frame, s.focus).tree;
    assert forall k | k in t.kids :: Grouped(t.kids[k]);
  }

  // ---------------------------------------------------------------- one token

  /** May the node in the slot be the left operand of `op`? */
  predicate FitsLeft(focus: Option<Cell>, op: Operator) {
    focus.Some? && IsBinary(focus.value.tree) ==> !Tighter(op, focus.value.tree.op)
  }

  /** The climb for an operator goes past what binds at least as tightly, and stops below what does not. */
  lemma {:induction false} ClimbFitsLeft(op: Operator, s: State)
    requires GroupedState(s) && OpenBrackets(s) == 0 && FitsLeft(s.focus, op)
    ensures FitsLeft(Climb(ForOperator(op), s).state.focus, op)
    ensures var c := Climb(ForOperator(op), s).state; c.path.In? ==> FitsHole(c.path.frame, true, op)
    decreases s.path
  {
    hide Tighter;
    ClimbIsGrouped(ForOperator(op), s);
    if Climbs(ForOperator(op), s) {
      ClosedIsGrouped(s);
      TableIsClasses(op, s.path.frame.op);
      ClimbFitsLeft(op, ReturnOneLevel(s).state);
    } else if s.path.In? {
      TableIsClasses(op, s.path.frame.op);
    }
  }

  /** Between tokens the slot is empty or holds no binary operation. */
  predicate Settled(s: State) {
    GroupedState(s) && OpenBrackets(s) == 0 && (s.focus.Some? ==> !IsBinary(s.focus.value.tree))
  }

  /** An operator opened under a grouped path, with its left operand. */
  function Opened(op: Operator, focus: Option<Cell>, path: Path): Path {
    In(Frame(OperatorNode, op, "", Kid(Op1, focus), 0, Op2), path)
  }

  lemma OpenedIsGrouped(op: Operator, focus: Option<Cell>, path: Path)
    requires GroupedPath(path) && (focus.Some? ==> Grouped(focus.value.tree)) && FitsLeft(focus, op)
    requires path.In? ==> FitsHole(path.frame, true, op)
    ensures GroupedPath(Opened(op, focus, path))
  {
    hide Tighter;
  }

  lemma OperatorIsGrouped(s: State, op: Operator)
    requires Settled(s)
    ensures var r := Then(InsertOperator(s, op), Op2); r.fault == NoFault && Settled(r.state)
  {
    hide Tighter, GroupedPath, FitsLeft, Grouped, FitsHole, Climb;
    var c := Climb(ForOperator(op), s).state;
    SettledFits(s, op);
    ClimbIsGrouped(ForOperator(op), s);
    ClimbFitsLeft(op, s);
    OpenedIsGrouped(op, c.focus, c.path);
    OpensOperator(s, op);
  }

  lemma OpensOperator(s: State, op: Operator)
    requires Climb(ForOperator(op), s).fault == NoFault && OpenBrackets(Climb(ForOperator(op), s).state) == 0
    ensures var c := Climb(ForOperator(op), s).state;
            Then(InsertOperator(s, op), Op2) == Step(State(None, Opened(op, c.focus, c.path), 0), NoFault)
  {
    hide Climb;
    var c := Climb(ForOperator(op), s).state;
    assert Kid(Op1, c.focus) - {Op2} == Kid(Op1, c.focus);
  }

  lemma SettledFits(s: State, op: Operator)
    requires Settled(s)
    ensures FitsLeft(s.focus, op)
  {
  }

  /** An empty slot on top of an operator that misses its left operand as well is left. */
  lemma {:induction false} EmptyStays(rule: Rule, s: State)
    requires GroupedState(s) && OpenBrackets(s) == 0 && rule.ForOperator?
    ensures var c := Climb(rule, s).state;
            c.path.In? && c.path.frame.kind == OperatorNode ==> Op1 in c.path.frame.kids
    decreases s.path
  {
    if Climbs(rule, s) {
      ClosedIsGrouped(s);
      EmptyStays(rule, ReturnOneLevel(s).state);
    }
  }

  lemma SimpleIsGrouped(s: State, kind: Kind, op: Operator, text: string)
    requires Settled(s)
    ensures var r := InsertSimple(s, kind, op, text); r.fault == NoFault && Settled(r.state) && r.state.focus.Some?
    ensures InsertSimple(s, kind, op, text).state.focus.value.tree == Tree(kind, op, text, map[])
  {
    hide Tighter;
    if s.focus.Some? {
      ClimbIsGrouped(ForOperator(OpUndefined), s);
      ClimbFitsLeft(OpUndefined, s);
      EmptyStays(ForOperator(OpUndefined), s);
      assert s.(pending := 0) == s;
      FocusStays(ForOperator(OpUndefined), s);
    }
  }

  lemma {:induction false} FocusStays(rule: Rule, s: State)
    requires s.focus.Some?
    ensures Climb(rule, s).state.focus.Some?
    decreases s.path
  {
    if Climbs(rule, s) && ReturnOneLevel(s).fault == NoFault { FocusStays(rule, ReturnOneLevel(s).state); }
  }

  predicate WithoutBrackets(ts: seq<Token>) {
    forall i | 0 <= i < |ts| :: ts[i] != TOpen && ts[i] != TClose
  }

  lemma FeedIsGrouped(s: State, t: Token)
    requires Settled(s) && t != TOpen && t != TClose
    ensures Feed(s, t).fault == NoFault && Settled(Feed(s, t).state)
  {
    match t
    case TOperand(kind, text) => SimpleIsGrouped(s, kind, OpUndefined, text);
    case TUnary(op) => SimpleIsGrouped(s, OperatorNode, op, "");
    case TBinary(op) => OperatorIsGrouped(s, op);
  }

  /** Main result: whatever tokens without brackets are fed, they are accepted, and whichever of its returns the
      parser then makes, the tree in the slot is grouped by the classes, to the left within a class. */
  lemma {:induction false} RunIsGrouped(s: State, ts: seq<Token>)
    requires Settled(s) && WithoutBrackets(ts)
    ensures Run(s, ts).fault == NoFault && Settled(Run(s, ts).state)
    ensures forall rule: Rule :: var c := Climb(rule, Run(s, ts).state);
              c.fault == NoFault && (c.state.focus.Some? ==> Grouped(c.state.focus.value.tree))
    decreases |ts|
  {
    if ts != [] {
      FeedIsGrouped(s, ts[0]);
      RunIsGrouped(Feed(s, ts[0]).state, ts[1..]);
    } else {
      forall rule: Rule ensures GroupedState(Climb(rule, s).state) && Climb(rule, s).fault == NoFault {
        ClimbIsGrouped(rule, s);
      }
    }
  }

  /** Two operators in a row: the tighter one groups first, and of one class the left one. */
  lemma PairIsGrouped(a: string, op1: Operator, b: string, op2: Operator, c: string)
    requires op1 != OpUndefined && op1 != OpNextArg && op2 != OpUndefined && op2 != OpNextArg
    ensures var x, y, z := Operand(Symbol, a), Operand(Symbol, b), Operand(Symbol, c);
            var ts := [TOperand(Symbol, a), TBinary(op1), TOperand(Symbol, b), TBinary(op2), TOperand(Symbol, c)];
            var tree := if Tighter(op2, op1) then Binary(op1, x, Binary(op2, y, z))
                        else Binary(op2, Binary(op1, x, y), z);
            Climb(ToExpression, Run(State(None, Root, 0), ts).state) == Step(At(ToTree(tree), 0, Root), NoFault)
  {
    hide Tighter;
    var x, y, z := Operand(Symbol, a), Operand(Symbol, b), Operand(Symbol, c);
    TableIsClasses(op2, op1);
    var ts := [TOperand(Symbol, a), TBinary(op1), TOperand(Symbol, b), TBinary(op2), TOperand(Symbol, c)];
    if Tighter(op2, op1) {
      PrintedExpressionIsRebuilt(Binary(op1, x, Binary(op2, y, z)), Root);
      assert Print(Binary(op2, y, z)) == ts[2..];
      assert Print(Binary(op1, x, Binary(op2, y, z))) == ts;
    } else {
      PrintedExpressionIsRebuilt(Binary(op2, Binary(op1, x, y), z), Root);
      assert Print(Binary(op1, x, y)) == ts[..3];
      assert Print(Binary(op2, Binary(op1, x, y), z)) == ts;
    }
  }
}
