/** Printing an expression with only the brackets the priority table requires and
    feeding the tokens to the cursor builder gives the expression back. */
module RoundTrip {
  import opened Syntax
  import opened ExpressionCursor

  datatype Expr =
    | Operand(kind: Kind, text: string)
    | Unary(op: Operator, arg: Expr)
    | Binary(op: Operator, left: Expr, right: Expr)

  /** Expressions the token stream can spell: operands are not operator nodes, binary
      operators have a token, and the argument separator is not an expression operator. */
  predicate Spellable(e: Expr) {
    match e
    case Operand(kind, _) => kind != OperatorNode
    case Unary(op, arg) => op != OpNextArg && Spellable(arg)
    case Binary(op, l, r) => op != OpNextArg && op != OpUndefined && Spellable(l) && Spellable(r)
  }

  function ToTree(e: Expr): Tree {
    match e
    case Operand(kind, text) => Tree(kind, OpUndefined, text, map[])
    case Unary(op, arg) => Tree(OperatorNode, op, "", map[Op2 := ToTree(arg)])
    case Binary(op, l, r) => Tree(OperatorNode, op, "", map[Op1 := ToTree(l), Op2 := ToTree(r)])
  }

  // ---------------------------------------------------------------- printing

  /** A left operand needs brackets if its operator binds less tightly than `op`. */
  predicate LooserThan(e: Expr, op: Operator) {
    e.Binary? && Priority(e.op) < Priority(op)
  }

  /** A right operand also needs them at equal priority: operators associate to the left. */
  predicate NotTighterThan(e: Expr, op: Operator) {
    e.Binary? && Priority(e.op) <= Priority(op)
  }

  function Bracketed(needed: bool, ts: seq<Token>): seq<Token> {
    if needed then [TOpen] + ts + [TClose] else ts
  }

  function Print(e: Expr): seq<Token> {
    match e
    case Operand(kind, text) => [TOperand(kind, text)]
    case Unary(op, arg) => [TUnary(op)] + Bracketed(arg.Binary?, Print(arg))
    case Binary(op, l, r) =>
      Bracketed(LooserThan(l, op), Print(l)) + [TBinary(op)] + Bracketed(NotTighterThan(r, op), Print(r))
  }

  // ---------------------------------------------------------------- where the cursor rests

  function UnaryFrame(op: Operator, k: nat): Frame {
    Frame(OperatorNode, op, "", map[], k, Op2)
  }

  function BinaryFrame(op: Operator, left: Tree, k: nat): Frame {
    Frame(OperatorNode, op, "", map[Op1 := left], k, Op2)
  }

  function At(t: Tree, k: nat, path: Path): State {
    State(Some(Cell(t, k)), path, 0)
  }

  /** The cursor after the tokens of `e`, whose root holds `k` open brackets: at the
      right end of `e`, except that a bracketed operand is not entered again. */
  function CursorAfter(e: Expr, k: nat, path: Path): State {
    match e
    case Operand(_, _) => At(ToTree(e), k, path)
    case Unary(op, arg) => RestingOn(arg, arg.Binary?, In(UnaryFrame(op, k), path))
    case Binary(op, l, r) => RestingOn(r, NotTighterThan(r, op), In(BinaryFrame(op, ToTree(l), k), path))
  }

  function RestingOn(e: Expr, bracketed: bool, path: Path): State
    decreases e
  {
    if bracketed then At(ToTree(e), 0, path) else CursorAfter(e, 0, path)
  }

  /** Does every open node inside `e` let the climb pass? */
  predicate Passes(rule: Rule, e: Expr) {
    match rule
    case ForOperator(op) => !LooserThan(e, op)
    case ForClose | ToRoot | ToExpression => true
    case _ => false
  }

  lemma {:induction false} ClimbOut(rule: Rule, e: Expr, k: nat, path: Path)
    requires Spellable(e) && Passes(rule, e)
    ensures Climb(rule, CursorAfter(e, k, path)) == Climb(rule, At(ToTree(e), k, path))
    decreases e, 0
  {
    match e
    case Operand(_, _) =>
    case Unary(op, arg) =>
      ClimbOver(rule, arg, arg.Binary?, UnaryFrame(op, k), path);
    case Binary(op, l, r) =>
      var f := BinaryFrame(op, ToTree(l), k);
      ClimbOver(rule, r, NotTighterThan(r, op), f, path);
      assert f.kids[Op2 := ToTree(r)] == map[Op1 := ToTree(l), Op2 := ToTree(r)];
  }

  lemma {:induction false} ClimbOver(rule: Rule, e: Expr, bracketed: bool, f: Frame, path: Path)
    requires Spellable(e) && (bracketed || Passes(rule, e))
    requires f.kind == OperatorNode && f.op != OpNextArg && f.hole == Op2
    requires rule.ForOperator? || rule.ForClose? || rule.ToRoot? || rule.ToExpression?
    requires rule.ForOperator? ==> Op1 !in f.kids || Priority(f.op) >= Priority(rule.op)
    ensures Climb(rule, RestingOn(e, bracketed, In(f, path)))
         == Climb(rule, State(Some(Closed(f, Some(Cell(ToTree(e), 0)))), path, 0))
    decreases e, 1
  {
    if !bracketed {
      ClimbOut(rule, e, 0, In(f, path));
    }
    assert Climbs(rule, At(ToTree(e), 0, In(f, path)));
  }

  // ---------------------------------------------------------------- the induction

  /** An operator inserted just below `path` stays below it. */
  predicate StopsAt(op: Operator, path: Path) {
    path.In? && path.frame.kind == OperatorNode ==>
      path.frame.hole != Op1 && Op1 in path.frame.kids && Priority(path.frame.op) < Priority(op)
  }

  predicate Fits(e: Expr, path: Path) {
    e.Binary? ==> StopsAt(e.op, path)
  }

  lemma {:induction false} PrintRuns(e: Expr, k: nat, path: Path)
    requires Spellable(e)
    requires k > 0 || Fits(e, path)
    ensures Run(State(None, path, k), Print(e)) == Step(CursorAfter(e, k, path), NoFault)
    decreases e, 0
  {
    match e
    case Operand(kind, text) =>
      RunOne(State(None, path, k), TOperand(kind, text));
    case Unary(op, arg) =>
      var s, inner := State(None, path, k), In(UnaryFrame(op, k), path);
      RunOne(s, TUnary(op));
      assert UnaryFrame(op, k).kids - {Op2} == map[];
      RunAppend(s, [TUnary(op)], Bracketed(arg.Binary?, Print(arg)));
      OperandRuns(arg, arg.Binary?, 0, inner);
    case Binary(op, l, r) =>
      var s, inner := State(None, path, k), In(BinaryFrame(op, ToTree(l), k), path);
      var first := Bracketed(LooserThan(l, op), Print(l));
      var last := Bracketed(NotTighterThan(r, op), Print(r));
      LeftRuns(op, l, k, path);
      RunAppend(s, first + [TBinary(op)], last);
      OperandRuns(r, NotTighterThan(r, op), 0, inner);
  }

  /** An operand in its slot, with its brackets if it needs them. */
  lemma {:induction false} OperandRuns(e: Expr, bracketed: bool, k: nat, path: Path)
    requires Spellable(e)
    requires bracketed || k > 0 || Fits(e, path)
    ensures Run(State(None, path, k), Bracketed(bracketed, Print(e)))
         == Step(if bracketed then At(ToTree(e), k, path) else CursorAfter(e, k, path), NoFault)
    decreases e, 1
  {
    var s := State(None, path, k);
    if !bracketed {
      PrintRuns(e, k, path);
    } else {
      PrintRuns(e, k + 1, path);
      RunOne(s, TOpen);
      RunAppend(s, [TOpen], Print(e));
      RunAppend(s, [TOpen] + Print(e), [TClose]);
      RunOne(CursorAfter(e, k + 1, path), TClose);
      ClimbOut(ForClose, e, k + 1, path);
    }
  }

  /** The left operand and the operator after it leave the cursor in the right operand's slot. */
  lemma {:induction false} LeftRuns(op: Operator, l: Expr, k: nat, path: Path)
    requires Spellable(l) && op != OpNextArg && op != OpUndefined
    requires k > 0 || StopsAt(op, path)
    ensures Run(State(None, path, k), Bracketed(LooserThan(l, op), Print(l)) + [TBinary(op)])
         == Step(State(None, In(BinaryFrame(op, ToTree(l), k), path), 0), NoFault)
    decreases l, 2
  {
    var s := State(None, path, k);
    var first := Bracketed(LooserThan(l, op), Print(l));
    OperandRuns(l, LooserThan(l, op), k, path);
    RunAppend(s, first, [TBinary(op)]);
    var mid := Run(s, first).state;
    RunOne(mid, TBinary(op));
    if !LooserThan(l, op) {
      ClimbOut(ForOperator(op), l, k, path);
    }
    assert !Climbs(ForOperator(op), At(ToTree(l), k, path));
    assert map[Op1 := ToTree(l)] - {Op2} == map[Op1 := ToTree(l)];
  }

  /** A place where an expression starts: the top of the tree, a field of a command, symbol or
      call node, or an argument slot. */
  predicate ExpressionSlot(path: Path) {
    path.In? && path.frame.kind == OperatorNode ==>
      path.frame.op == OpNextArg && path.frame.hole != Op1 && Op1 in path.frame.kids
  }

  /** Main result: the printed tokens are accepted and, once the parser returns to the
      expression's slot, the slot holds exactly the expression. */
  lemma PrintedExpressionIsRebuilt(e: Expr, path: Path)
    requires Spellable(e) && ExpressionSlot(path)
    ensures var run := Run(State(None, path, 0), Print(e));
            run.fault == NoFault &&
            Climb(ToExpression, run.state) == Step(At(ToTree(e), 0, path), NoFault)
  {
    PrintRuns(e, 0, path);
    ClimbOut(ToExpression, e, 0, path);
  }

  /** Two expressions that print alike are the same expression. */
  lemma PrintIsInjective(a: Expr, b: Expr)
    requires Spellable(a) && Spellable(b) && Print(a) == Print(b)
    ensures a == b
  {
    PrintedExpressionIsRebuilt(a, Root);
    PrintedExpressionIsRebuilt(b, Root);
    ToTreeIsInjective(a, b);
  }

  lemma {:induction false} ToTreeIsInjective(a: Expr, b: Expr)
    requires Spellable(a) && Spellable(b) && ToTree(a) == ToTree(b)
    ensures a == b
  {
    var ka, kb := ToTree(a).kids, ToTree(b).kids;
    match a
    case Operand(_, _) =>
    case Unary(_, x) =>
      assert Op1 !in ka && Op2 in kb;
      ToTreeIsInjective(x, b.arg);
    case Binary(_, l, r) =>
      assert Op1 in kb && Op2 in kb;
      ToTreeIsInjective(l, b.left);
      ToTreeIsInjective(r, b.right);
  }

  // ---------------------------------------------------------------- argument lists

  function PrintArguments(es: seq<Expr>): seq<Token>
    requires es != []
  {
    if |es| == 1 then Print(es[0])
    else PrintArguments(es[..|es| - 1]) + [TBinary(OpNextArg)] + Print(es[|es| - 1])
  }

  function ArgumentsTree(es: seq<Expr>): Tree
    requires es != []
  {
    var last := ToTree(es[|es| - 1]);
    if |es| == 1 then last
    else Tree(OperatorNode, OpNextArg, "", map[Op1 := ArgumentsTree(es[..|es| - 1]), Op2 := last])
  }

  function ArgumentPath(es: seq<Expr>, path: Path): Path
    requires es != []
  {
    if |es| == 1 then path else In(BinaryFrame(OpNextArg, ArgumentsTree(es[..|es| - 1]), 0), path)
  }

  predicate ArgumentSlot(path: Path) {
    path.In? ==> path.frame.kind != OperatorNode
  }

  lemma {:induction false} ArgumentsRun(es: seq<Expr>, path: Path)
    requires es != [] && ArgumentSlot(path) && forall e | e in es :: Spellable(e)
    ensures Run(State(None, path, 0), PrintArguments(es))
         == Step(CursorAfter(es[|es| - 1], 0, ArgumentPath(es, path)), NoFault)
    decreases |es|
  {
    hide Print, CursorAfter, ToTree, Run;
    var n := |es| - 1;
    if n == 0 {
      PrintRuns(es[0], 0, path);
    } else {
      var s, init, last := State(None, path, 0), es[..n], es[n];
      ArgumentsRun(init, path);
      RunAppend(s, PrintArguments(init), [TBinary(OpNextArg)]);
      SeparatorOpensSlot(init, path);
      RunAppend(s, PrintArguments(init) + [TBinary(OpNextArg)], Print(last));
      PrintRuns(last, 0, ArgumentPath(es, path));
    }
  }

  lemma SeparatorOpensSlot(es: seq<Expr>, path: Path)
    requires es != [] && ArgumentSlot(path) && forall e | e in es :: Spellable(e)
    ensures Run(CursorAfter(es[|es| - 1], 0, ArgumentPath(es, path)), [TBinary(OpNextArg)])
         == Step(State(None, In(BinaryFrame(OpNextArg, ArgumentsTree(es), 0), path), 0), NoFault)
  {
    RunOne(CursorAfter(es[|es| - 1], 0, ArgumentPath(es, path)), TBinary(OpNextArg));
    ReturnFromArguments(es, path);
    assert map[Op1 := ArgumentsTree(es)] - {Op2} == map[Op1 := ArgumentsTree(es)];
  }

  lemma ReturnFromArguments(es: seq<Expr>, path: Path)
    requires es != [] && ArgumentSlot(path) && forall e | e in es :: Spellable(e)
    ensures Climb(ForOperator(OpNextArg), CursorAfter(es[|es| - 1], 0, ArgumentPath(es, path)))
         == Step(At(ArgumentsTree(es), 0, path), NoFault)
  {
    var n, rule := |es| - 1, ForOperator(OpNextArg);
    ClimbOut(rule, es[n], 0, ArgumentPath(es, path));
    if n > 0 {
      var f := BinaryFrame(OpNextArg, ArgumentsTree(es[..n]), 0);
      assert f.kids[Op2 := ToTree(es[n])] == ArgumentsTree(es).kids;
      assert Climbs(rule, At(ToTree(es[n]), 0, In(f, path)));
      assert !Climbs(rule, At(ArgumentsTree(es), 0, path));
    }
  }

  /** Printed argument lists come back as the left-nested list of their expressions. */
  lemma PrintedArgumentsAreRebuilt(es: seq<Expr>, path: Path)
    requires es != [] && ArgumentSlot(path) && forall e | e in es :: Spellable(e)
    ensures var run := Run(State(None, path, 0), PrintArguments(es));
            && run.fault == NoFault
            && var mid := Climb(ToExpression, run.state);
            && mid.fault == NoFault
            && Climb(ToArguments, mid.state) == Step(At(ArgumentsTree(es), 0, path), NoFault)
  {
    var n := |es| - 1;
    ArgumentsRun(es, path);
    ClimbOut(ToExpression, es[n], 0, ArgumentPath(es, path));
    if n > 0 {
      var f := BinaryFrame(OpNextArg, ArgumentsTree(es[..n]), 0);
      assert f.kids[Op2 := ToTree(es[n])] == ArgumentsTree(es).kids;
      assert Climbs(ToArguments, At(ToTree(es[n]), 0, In(f, path)));
    }
  }
}
