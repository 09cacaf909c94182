/** The parser's tree-building steps as functions on a zipper.

    The parser keeps two variables, the slot being filled and the node that owns it.
    A `State` is what they denote: the node in the slot (`focus`), the open nodes above it
    (`path`, innermost first) and the opening brackets not yet attached to a node
    (`pending`).  `ExpressionHeap` shows that the pointer code computes these functions. */
module ExpressionCursor {
  import opened Syntax

  /** A finished subtree: nothing below it carries an open bracket. */
  datatype Tree = Tree(kind: Kind, op: Operator, text: string, kids: map<Field, Tree>)

  datatype Cell = Cell(tree: Tree, brackets: nat)

  /** An open node: its finished children, and the field the cursor went down through. */
  datatype Frame = Frame(kind: Kind, op: Operator, text: string, kids: map<Field, Tree>, brackets: nat, hole: Field)

  datatype Path = Root | In(frame: Frame, outer: Path)

  datatype State = State(focus: Option<Cell>, path: Path, pending: nat)

  /** Exceptions the steps can raise; `NoBracket` is how the parser learns that a
      closing bracket belongs to an enclosing construct. */
  datatype Fault = NoFault | UnexpectedToken | MismatchedBrackets | NoBracket | Occupied

  datatype Step = Step(state: State, fault: Fault)

  // ---------------------------------------------------------------- moving up

  function Closed(f: Frame, focus: Option<Cell>): Cell {
    var kids := if focus.Some? then f.kids[f.hole := focus.value.tree] else f.kids;
    Cell(Tree(f.kind, f.op, f.text, kids), f.brackets)
  }

  /** return_one_level */
  function ReturnOneLevel(s: State): Step
    requires s.path.In?
  {
    if s.pending > 0 then Step(s, UnexpectedToken)
    else if s.focus.Some? && s.focus.value.brackets > 0 then Step(s, MismatchedBrackets)
    else Step(State(Some(Closed(s.path.frame, s.focus)), s.path.outer, 0), NoFault)
  }

  /** The loops that climb: one rule per loop in the parser. */
  datatype Rule =
    | ForOperator(op: Operator)  // find_operator_insertion_point
    | ForClose                   // close_one_bracket
    | ToRoot
    | ToString
    | ToArguments
    | ToExpression
    | ToDataSpecifier

  predicate Op1IsNull(s: State)
    requires s.path.In?
  {
    if s.path.frame.hole == Op1 then s.focus.None? else Op1 !in s.path.frame.kids
  }

  predicate Climbs(rule: Rule, s: State) {
    s.path.In? &&
    var f := s.path.frame;
    match rule
    case ForOperator(op) =>
      && f.kind == OperatorNode
      && (s.focus.Some? ==> s.focus.value.brackets == 0)
      && (Op1IsNull(s) || Priority(f.op) >= Priority(op))
    case ForClose =>
      && s.focus.Some? && s.focus.value.brackets == 0
      && f.kind == OperatorNode && f.op != OpNextArg
    case ToRoot => true
    case ToString => f.kind == OperatorNode && f.op == OpUndefined
    case ToArguments => f.kind == OperatorNode && f.op == OpNextArg
    case ToExpression => f.kind == OperatorNode && f.op != OpNextArg
    case ToDataSpecifier => f.kind == Member || f.kind == Attribute
  }

  function Climb(rule: Rule, s: State): Step
    decreases s.path
  {
    if !Climbs(rule, s) then Step(s, NoFault)
    else
      var up := ReturnOneLevel(s);
      if up.fault != NoFault then up else Climb(rule, up.state)
  }

  // ---------------------------------------------------------------- inserting

  function Kid(f: Field, c: Option<Cell>): map<Field, Tree> {
    if c.Some? then map[f := c.value.tree] else map[]
  }

  function BracketsAt(c: Option<Cell>): nat {
    if c.Some? then c.value.brackets else 0
  }

  /** insert_operator_node: climb, put the operator above the focus, migrate its brackets.
      A fault in the climb is raised, but the node is inserted all the same. */
  function InsertOperator(s: State, op: Operator): Step {
    var c := Climb(ForOperator(op), s);
    var focus := c.state.focus;
    var cell := Cell(Tree(OperatorNode, op, "", Kid(Op1, focus)), BracketsAt(focus) + c.state.pending);
    Step(State(Some(cell), c.state.path, 0), c.fault)
  }

  /** insert_simple_node: fill the empty slot, or concatenate with what is there. */
  function InsertSimple(s: State, kind: Kind, op: Operator, text: string): Step {
    var leaf := Some(Cell(Tree(kind, op, text, map[]), s.pending));
    if s.focus.None? then Step(State(leaf, s.path, 0), NoFault)
    else
      var c := Climb(ForOperator(OpUndefined), s.(pending := 0));
      var focus := c.state.focus;
      var f := Frame(OperatorNode, OpUndefined, "", Kid(Op1, focus), BracketsAt(focus), Op2);
      Step(State(leaf, In(f, c.state.path), 0), c.fault)
  }

  /** insert_member_node and insert_attribute_node */
  function InsertDataSpecifier(s: State, kind: Kind): State {
    s.(focus := Some(Cell(Tree(kind, OpUndefined, "", Kid(Scope, s.focus)), BracketsAt(s.focus))))
  }

  /** ready_for_..._field: step down into a field, which must be empty. */
  function ReadyFor(s: State, field: Field): Step
    requires s.focus.Some?
  {
    var Cell(Tree(kind, op, text, kids), brackets) := s.focus.value;
    var f := Frame(kind, op, text, kids - {field}, brackets, field);
    if field in kids then Step(State(Some(Cell(kids[field], 0)), In(f, s.path), s.pending), Occupied)
    else Step(State(None, In(f, s.path), s.pending), NoFault)
  }

  // ---------------------------------------------------------------- brackets

  function AddBracket(s: State): State {
    s.(pending := s.pending + 1)
  }

  /** close_one_bracket */
  function CloseBracket(s: State): Step {
    if s.focus.None? then Step(s, if s.pending > 0 then UnexpectedToken else NoBracket)
    else
      var c := Climb(ForClose, s);
      if c.fault != NoFault then c
      else if BracketsAt(c.state.focus) > 0 then
        var cell := c.state.focus.value;
        Step(c.state.(focus := Some(cell.(brackets := cell.brackets - 1))), NoFault)
      else Step(c.state, NoBracket)
  }

  // ---------------------------------------------------------------- tokens

  datatype Token =
    | TOperand(kind: Kind, text: string)
    | TUnary(op: Operator)
    | TBinary(op: Operator)
    | TOpen
    | TClose

  function Then(a: Step, field: Field): Step
    requires a.state.focus.Some?
  {
    if a.fault != NoFault then a else ReadyFor(a.state, field)
  }

  function Feed(s: State, t: Token): Step {
    match t
    case TOperand(kind, text) => InsertSimple(s, kind, OpUndefined, text)
    case TUnary(op) => Then(InsertSimple(s, OperatorNode, op, ""), Op2)
    case TBinary(op) => Then(InsertOperator(s, op), Op2)
    case TOpen => Step(AddBracket(s), NoFault)
    case TClose => CloseBracket(s)
  }

  /** Feeding stops at the first fault. */
  function Run(s: State, ts: seq<Token>): Step
    decreases |ts|
  {
    if ts == [] then Step(s, NoFault)
    else
      var r := Feed(s, ts[0]);
      if r.fault != NoFault then r else Run(r.state, ts[1..])
  }

  lemma {:induction false} RunAppend(s: State, a: seq<Token>, b: seq<Token>)
    requires Run(s, a).fault == NoFault
    ensures Run(s, a + b) == Run(Run(s, a).state, b)
    decreases |a|
  {
    if a == [] {
      assert a + b == b;
    } else {
      assert (a + b)[0] == a[0] && (a + b)[1..] == a[1..] + b;
      RunAppend(Feed(s, a[0]).state, a[1..], b);
    }
  }

  lemma RunOne(s: State, t: Token)
    ensures Run(s, [t]) == Feed(s, t)
  {
    assert [t][1..] == [];
    assert Run(Feed(s, t).state, []) == Step(Feed(s, t).state, NoFault);
  }
}
