/** Brackets are conserved by every builder step, and what the parser's return to
    the root does and does not check about them. */
module BracketBalance {
  import opened Syntax
  import opened ExpressionCursor

  function PathBrackets(path: Path): nat {
    if path.Root? then 0 else path.frame.brackets + PathBrackets(path.outer)
  }

  /** Brackets held anywhere: on the focus, on an open node above it, or pending. */
  function OpenBrackets(s: State): nat {
    s.pending + BracketsAt(s.focus) + PathBrackets(s.path)
  }

  lemma {:induction false} ClimbKeepsBrackets(rule: Rule, s: State)
    ensures OpenBrackets(Climb(rule, s).state) == OpenBrackets(s)
    ensures Climb(rule, s).state.pending == s.pending
    decreases s.path
  {
    if Climbs(rule, s) && ReturnOneLevel(s).fault == NoFault {
      ClimbKeepsBrackets(rule, ReturnOneLevel(s).state);
    }
  }

  function Delta(t: Token): int {
    match t
    case TOpen => 1
    case TClose => -1
    case _ => 0
  }

  function Unclosed(ts: seq<Token>): int {
    if ts == [] then 0 else Delta(ts[0]) + Unclosed(ts[1..])
  }

  lemma FeedKeepsBrackets(s: State, t: Token)
    requires Feed(s, t).fault == NoFault
    ensures OpenBrackets(Feed(s, t).state) == OpenBrackets(s) + Delta(t)
  {
    match t
    case TOperand(_, _) => ClimbKeepsBrackets(ForOperator(OpUndefined), s.(pending := 0));
    case TUnary(op) =>
      ClimbKeepsBrackets(ForOperator(OpUndefined), s.(pending := 0));
      assert OpenBrackets(InsertSimple(s, OperatorNode, op, "").state) == OpenBrackets(s);
    case TBinary(op) => ClimbKeepsBrackets(ForOperator(op), s);
    case TOpen =>
    case TClose => ClimbKeepsBrackets(ForClose, s);
  }

  /** After any accepted tokens the brackets held are exactly the unclosed ones. */
  lemma {:induction false} RunKeepsBrackets(s: State, ts: seq<Token>)
    requires Run(s, ts).fault == NoFault
    ensures OpenBrackets(Run(s, ts).state) == OpenBrackets(s) + Unclosed(ts)
    decreases |ts|
  {
    if ts != [] {
      FeedKeepsBrackets(s, ts[0]);
      RunKeepsBrackets(Feed(s, ts[0]).state, ts[1..]);
    }
  }

  // ---------------------------------------------------------------- returning to the root

  function RootBrackets(path: Path): nat
    requires path.In?
  {
    if path.outer.Root? then path.frame.brackets else RootBrackets(path.outer)
  }

  /** return_to_root_node succeeds if and only if no bracket is pending and no node below
      the root holds one; the root's own brackets are not looked at. */
  lemma {:induction false} ReturnToRootSucceedsIff(s: State)
    ensures s.path.Root? ==> Climb(ToRoot, s) == Step(s, NoFault)
    ensures s.path.In? ==>
              (Climb(ToRoot, s).fault == NoFault <==> OpenBrackets(s) == RootBrackets(s.path))
    ensures Climb(ToRoot, s).fault == NoFault ==> Climb(ToRoot, s).state.path.Root?
    decreases s.path
  {
    if s.path.In? {
      RootHoldsPart(s.path);
      var up := ReturnOneLevel(s);
      if up.fault == NoFault {
        ReturnToRootSucceedsIff(up.state);
      }
    }
  }

  lemma {:induction false} RootHoldsPart(path: Path)
    requires path.In?
    ensures RootBrackets(path) <= PathBrackets(path)
  {
    if path.outer.In? {
      RootHoldsPart(path.outer);
    }
  }

  /** The outermost node is a command: it is no operator and holds no bracket. */
  predicate UnderCommand(path: Path) {
    path.In? &&
    if path.outer.Root? then path.frame.kind != OperatorNode && path.frame.brackets == 0 else UnderCommand(path.outer)
  }

  lemma {:induction false} NoRootBrackets(path: Path)
    requires UnderCommand(path)
    ensures RootBrackets(path) == 0
  {
    if path.outer.In? { NoRootBrackets(path.outer); }
  }

  /** The climbs that insertion and closing make stop below a command. */
  lemma {:induction false} ClimbStaysUnder(rule: Rule, s: State)
    requires UnderCommand(s.path) && (rule.ForOperator? || rule.ForClose?)
    ensures UnderCommand(Climb(rule, s).state.path)
    decreases s.path
  {
    if Climbs(rule, s) && ReturnOneLevel(s).fault == NoFault {
      ClimbStaysUnder(rule, ReturnOneLevel(s).state);
    }
  }

  lemma FeedStaysUnder(s: State, t: Token)
    requires UnderCommand(s.path)
    ensures UnderCommand(Feed(s, t).state.path)
  {
    match t
    case TOperand(_, _) => ClimbStaysUnder(ForOperator(OpUndefined), s.(pending := 0));
    case TUnary(op) =>
      ClimbStaysUnder(ForOperator(OpUndefined), s.(pending := 0));
      assert UnderCommand(InsertSimple(s, OperatorNode, op, "").state.path);
    case TBinary(op) => ClimbStaysUnder(ForOperator(op), s);
    case TOpen =>
    case TClose => ClimbStaysUnder(ForClose, s);
  }

  lemma {:induction false} RunStaysUnder(s: State, ts: seq<Token>)
    requires UnderCommand(s.path)
    ensures UnderCommand(Run(s, ts).state.path)
    decreases |ts|
  {
    if ts != [] {
      FeedStaysUnder(s, ts[0]);
      RunStaysUnder(Feed(s, ts[0]).state, ts[1..]);
    }
  }

  /** Inside a command the return is an exact check: whatever tokens have been accepted, it succeeds if
      and only if they have closed every bracket. */
  lemma CommandReturnChecksBalance(s: State, ts: seq<Token>)
    requires UnderCommand(s.path) && OpenBrackets(s) == 0 && Run(s, ts).fault == NoFault
    ensures Climb(ToRoot, Run(s, ts).state).fault == NoFault <==> Unclosed(ts) == 0
  {
    RunKeepsBrackets(s, ts);
    RunStaysUnder(s, ts);
    NoRootBrackets(Run(s, ts).state.path);
    ReturnToRootSucceedsIff(Run(s, ts).state);
  }

  lemma {:induction false} ClimbWithoutBrackets(rule: Rule, s: State)
    requires OpenBrackets(s) == 0
    ensures Climb(rule, s).fault == NoFault
    decreases s.path
  {
    if Climbs(rule, s) { ClimbWithoutBrackets(rule, ReturnOneLevel(s).state); }
  }

  /** A closing bracket with no bracket open is not the expression's, and behind an opening one it is an error. */
  lemma {:induction false} UnmatchedClose(s: State)
    ensures OpenBrackets(s) == 0 ==> Feed(s, TClose).fault == NoBracket
    ensures s.focus.None? && s.pending > 0 ==> Feed(s, TClose).fault == UnexpectedToken
  {
    if OpenBrackets(s) == 0 {
      ClimbWithoutBrackets(ForClose, s);
      ClimbKeepsBrackets(ForClose, s);
    }
  }

  /** `scope.name`: what is in the slot becomes the scope of the new node, with the name beside it, and keeps the
      brackets it has around it. */
  lemma {:induction false} SpecifierIsBuilt(cell: Cell, path: Path, kind: Kind, name: string)
    ensures var named := ReadyFor(InsertDataSpecifier(State(Some(cell), path, 0), kind), Name);
            && named.fault == NoFault
            && var filled := Feed(named.state, TOperand(Symbol, name));
               var kids := map[Scope := cell.tree, Name := Tree(Symbol, OpUndefined, name, map[])];
               && filled.fault == NoFault && filled.state.path.In?
               && ReturnOneLevel(filled.state)
                  == Step(State(Some(Cell(Tree(kind, OpUndefined, "", kids), cell.brackets)), path, 0), NoFault)
  {
    var named := ReadyFor(InsertDataSpecifier(State(Some(cell), path, 0), kind), Name);
    var leaf := Tree(Symbol, OpUndefined, name, map[]);
    assert map[Scope := cell.tree] - {Name} == map[Scope := cell.tree];
    assert map[Scope := cell.tree][Name := leaf] == map[Scope := cell.tree, Name := leaf];
  }

  /** A bare expression has no command above it, so an unclosed bracket around the whole
      of it goes unnoticed: `( a + b` is accepted. */
  lemma UnclosedExpressionIsAccepted()
    ensures var ts := [TOpen, TOperand(Symbol, "a"), TBinary(OpPlus), TOperand(Symbol, "b")];
            var run := Run(State(None, Root, 0), ts);
            && Unclosed(ts) == 1
            && run.fault == NoFault
            && Climb(ToRoot, run.state).fault == NoFault
            && OpenBrackets(Climb(ToRoot, run.state).state) == 1
  {
  }

  // ---------------------------------------------------------------- template lines

  function Leaves(texts: seq<string>): seq<Token> {
    if texts == [] then [] else Leaves(texts[..|texts| - 1]) + [TOperand(Text, texts[|texts| - 1])]
  }

  function Leaf(text: string): Tree {
    Tree(Text, OpUndefined, text, map[])
  }

  /** The left-nested concatenation of a line's pieces. */
  function Concatenation(texts: seq<string>): Tree
    requires texts != []
  {
    var last := Leaf(texts[|texts| - 1]);
    if |texts| == 1 then last
    else Tree(OperatorNode, OpUndefined, "", map[Op1 := Concatenation(texts[..|texts| - 1]), Op2 := last])
  }

  /** A line's pieces, inserted one after another without operators between them, form
      the left-nested concatenation once the parser has returned from the string. */
  lemma {:induction false} PiecesConcatenate(texts: seq<string>, path: Path)
    requires texts != [] && (path.In? ==> path.frame.kind != OperatorNode)
    ensures var run := Run(State(None, path, 0), Leaves(texts));
            && run.fault == NoFault
            && Climb(ToString, run.state) == Step(State(Some(Cell(Concatenation(texts), 0)), path, 0), NoFault)
            && Climb(ForOperator(OpUndefined), run.state) == Climb(ToString, run.state)
            && run.state.pending == 0 && run.state.focus.Some?
    decreases |texts|
  {
    var n, s := |texts| - 1, State(None, path, 0);
    var piece := TOperand(Text, texts[n]);
    if n == 0 {
      assert Leaves(texts[..0]) == [];
      assert Leaves(texts) == [piece];
      RunOne(s, piece);
    } else {
      var init := texts[..n];
      PiecesConcatenate(init, path);
      RunAppend(s, Leaves(init), [piece]);
      var mid := Run(s, Leaves(init)).state;
      RunOne(mid, piece);
      var f := Frame(OperatorNode, OpUndefined, "", map[Op1 := Concatenation(init)], 0, Op2);
      assert f.kids[Op2 := Leaf(texts[n])] == Concatenation(texts).kids;
      assert Run(s, Leaves(texts)).state == State(Some(Cell(Leaf(texts[n]), 0)), In(f, path), 0);
    }
  }
}
