/** Evaluating expressions with constant results cached in the parse tree.

    `Eval` evaluates a tree from scratch, with the flag by which the evaluator calls a result
    constant.  `ScriptNode.Evaluate` is the evaluator: it takes the result of a node already
    marked constant from the node, and marks a node whose result turns out constant.  The
    environment, symbol lookup and the text of items, may be different at every call. */
module ConstantCache {
  import opened Syntax
  import opened Values
  import TemplateText

  /** Symbol lookup by scope and name, `None` for an error; and the text of an item. */
  datatype Env = Env(lookup: (Option<Value>, Option<Value>) -> Option<Value>, text: nat -> string)

  /** What a node evaluates, apart from its operands; a symbol's scope and name are its operands. */
  datatype NodeKind =
    | TextKind(sign: string, text: string)
    | NumberKind(negative: bool)
    | LiteralKind(indent: nat)
    | SymbolKind
    | OperatorKind(op: Operator)

  datatype Tree = Tree(kind: NodeKind, op1: Option<Tree>, op2: Option<Tree>)

  /** A result with its constant flag, or an error that has been reported. */
  datatype Outcome = Fault | Done(value: Value, constant: bool)

  predicate IsComparison(op: Operator) {
    op in {OpEquals, OpNotEquals, OpGreaterThan, OpLessThan, OpGreaterEqual, OpLessEqual,
           OpSafeEquals, OpSafeNotEquals, OpSafeGreaterThan, OpSafeLessThan, OpSafeGreaterEqual, OpSafeLessEqual}
  }

  predicate IsArithmetic(op: Operator) {
    op in {OpTimes, OpDivide, OpPlus, OpMinus, OpNot, OpOr, OpAnd}
  }

  /** Trees the parser builds for expressions, without concatenation and argument lists. */
  predicate WellFormed(t: Tree) {
    && (t.op1.Some? ==> WellFormed(t.op1.value)) && (t.op2.Some? ==> WellFormed(t.op2.value))
    && match t.kind
       case TextKind(_, text) => t.op1.None? && t.op2.None? && TemplateText.Escaped(text)
       case NumberKind(_) => true
       case LiteralKind(_) => t.op1.Some? && t.op2.None?
       case SymbolKind => true
       case OperatorKind(op) =>
         && (IsArithmetic(op) || IsComparison(op) || op == OpDefault || op == OpIif)
         && (op != OpDefault ==> t.op2.Some?)
         && (t.op1.Some? || op in {OpNot, OpPlus, OpMinus})
  }

  // ---------------------------------------------------------------- the operators

  function Truth(b: bool): Value {
    NumberOf(if b then 1.0 else 0.0)
  }

  function Repeat(s: string, k: nat): string {
    if k == 0 then "" else Repeat(s, k - 1) + s
  }

  /** The operands of `+` and of a comparison: if one is not a string, a text of unknown type in
      the other is tried as a number. */
  function Converted(v: Value, other: Value): Value {
    if other.vtype != StringType && v.vtype == UnknownType then NumberValue(v) else v
  }

  function Binary(op: Operator, v1: Value, v2: Value, env: Env): Option<Value> {
    match op
    case OpPlus =>
      var w2 := Converted(v2, v1);
      var w1 := Converted(v1, w2);
      if w1.vtype == NumberType && w2.vtype == NumberType then Some(NumberOf(w1.n + w2.n))
      else Some(TextOf(StringOf(w1, env.text) + StringOf(w2, env.text)))
    case OpTimes =>
      var w2 := NumberValue(v2);
      if w2.vtype != NumberType then None
      else
        var w1 := if v1.vtype != StringType then NumberValue(v1) else v1;
        if w1.vtype != StringType then Some(NumberOf(w1.n * w2.n))
        else if Trunc(w2.n) < 0 then None
        else Some(TextOf(Repeat(StringOf(w1, env.text), Trunc(w2.n))))
    case _ =>
      var w1, w2 := NumberValue(v1), NumberValue(v2);
      if w1.vtype != NumberType || w2.vtype != NumberType then None else Numeric(op, w1.n, w2.n)
  }

  /** Operators on numbers only. */
  function Numeric(op: Operator, a: real, b: real): Option<Value> {
    if op == OpMinus then Some(NumberOf(a - b))
    else if op == OpDivide then if b == 0.0 then None else Some(NumberOf(a / b))
    else if op == OpOr then Some(Truth(Trunc(a) != 0 || Trunc(b) != 0))
    else if op == OpAnd then Some(Truth(Trunc(a) != 0 && Trunc(b) != 0))
    else None
  }

  function Unary(op: Operator, v: Value): Option<Value> {
    var w := NumberValue(v);
    if w.vtype != NumberType then None
    else
      match op
      case OpNot => Some(Truth(Trunc(w.n) == 0))
      case OpPlus => Some(NumberOf(w.n))
      case OpMinus => Some(NumberOf(-w.n))
      case _ => None
  }

  function Arithmetic(op: Operator, v1: Option<Value>, v2: Value, env: Env): Option<Value> {
    if (v1.Some? && v1.value.vtype == UndefinedType) || v2.vtype == UndefinedType then Some(UNDEFINED)
    else if v1.Some? then Binary(op, v1.value, v2, env)
    else Unary(op, v2)
  }

  /** Does the comparison hold, given how the operands compare? */
  function Holds(op: Operator, less: bool, equal: bool): bool {
    match op
    case OpEquals | OpSafeEquals => equal
    case OpNotEquals | OpSafeNotEquals => !equal
    case OpGreaterThan | OpSafeGreaterThan => !less && !equal
    case OpLessThan | OpSafeLessThan => less
    case OpGreaterEqual | OpSafeGreaterEqual => !less
    case _ => less || equal
  }

  predicate IsSafe(op: Operator) {
    op in {OpSafeEquals, OpSafeNotEquals, OpSafeGreaterThan, OpSafeLessThan, OpSafeGreaterEqual, OpSafeLessEqual}
  }

  function Comparison(op: Operator, v1: Value, v2: Value, env: Env): Option<Value> {
    var undefined1, undefined2 := v1.vtype == UndefinedType, v2.vtype == UndefinedType;
    if undefined1 || undefined2 then
      if !IsSafe(op) then Some(UNDEFINED) else Some(Truth(undefined1 && undefined2 && op == OpSafeEquals))
    else if v1.vtype == PointerType && v2.vtype == PointerType then
      if op in {OpEquals, OpSafeEquals} then Some(Truth(v1.item == v2.item))
      else if op in {OpNotEquals, OpSafeNotEquals} then Some(Truth(v1.item != v2.item))
      else Some(UNDEFINED)
    else if v1.vtype == PointerType || v2.vtype == PointerType then None
    else
      var w2 := Converted(v2, v1);
      var w1 := Converted(v1, w2);
      if w1.vtype == NumberType && w2.vtype == NumberType then Some(Truth(Holds(op, w1.n < w2.n, w1.n == w2.n)))
      else
        var c := CompareText(StringOf(w1, env.text), StringOf(w2, env.text));
        Some(Truth(Holds(op, c < 0, c == 0)))
  }

  // ---------------------------------------------------------------- evaluation from scratch

  /** The result that the first operand alone decides, with whether its flag is passed on. */
  function Early(kind: NodeKind, v1: Option<Value>): Option<(Value, bool)> {
    if !kind.OperatorKind? || v1.None? then None
    else
      var v := v1.value;
      match kind.op
      case OpDefault => if v.vtype != UndefinedType then Some((v, true)) else None
      case OpOr => if v.vtype != UndefinedType && NumberIn(v) != 0.0 then Some((NumberOf(1.0), false)) else None
      case OpAnd => if v.vtype != UndefinedType && NumberIn(v) == 0.0 then Some((NumberOf(0.0), false)) else None
      case OpIif => if v.vtype == UndefinedType || NumberIn(v) == 0.0 then Some((UNDEFINED, false)) else None
      case _ => None
  }

  function TextIn(v: Option<Value>, absent: string): string {
    if v.None? then absent else if v.value.s.Some? then v.value.s.value else ""
  }

  /** The result of both operands; `None` for an error. */
  function Finish(kind: NodeKind, v1: Option<Value>, v2: Option<Value>, env: Env): Option<Value> {
    match kind
    case TextKind(sign, text) =>
      Some(UnknownText(sign + if TemplateText.Escaped(text) then TemplateText.Unescape(text) else text))
    case NumberKind(negative) =>
      Some(NumberValue(UnknownText((if negative then "-" else "") + TextIn(v1, "0")
                                   + if v2.Some? then "." + TextIn(v2, "") else "")))
    case LiteralKind(indent) =>
      if v1.None? || v1.value.vtype == UndefinedType || v1.value.vtype == PointerType then Some(UNDEFINED)
      else Some(TextOf(TemplateText.Blanks(indent) + StringOf(v1.value, env.text)))
    case SymbolKind =>
      if v1.Some? && v1.value.vtype == UndefinedType then Some(UNDEFINED) else env.lookup(v1, v2)
    case OperatorKind(op) =>
      if op == OpDefault || op == OpIif then Some(if v2.Some? then v2.value else UNDEFINED)
      else if v2.None? then None
      else if IsComparison(op) then if v1.None? then None else Comparison(op, v1.value, v2.value, env)
      else Arithmetic(op, v1, v2.value, env)
  }

  /** May a result of this kind be marked constant when its operands are? */
  predicate Cacheable(kind: NodeKind) {
    !kind.SymbolKind? && (kind.OperatorKind? ==> !IsComparison(kind.op))
  }

  function Operand(o: Option<Outcome>): Option<Value> {
    if o.Some? && o.value.Done? then Some(o.value.value) else None
  }

  predicate Flag(o: Option<Outcome>) {
    o.None? || (o.value.Done? && o.value.constant)
  }

  /** A node's outcome from those of its operands; the second is asked for only if needed. */
  function Conclude(kind: NodeKind, o1: Option<Outcome>, o2: Option<Outcome>, env: Env): Outcome {
    if o1 == Some(Fault) then Fault
    else
      match Early(kind, Operand(o1))
      case Some((v, pass)) => Done(v, pass && Flag(o1))
      case None =>
        if o2 == Some(Fault) then Fault
        else
          match Finish(kind, Operand(o1), Operand(o2), env)
          case None => Fault
          case Some(v) => Done(v, Cacheable(kind) && Flag(o1) && Flag(o2))
  }

  function Eval(t: Tree, env: Env): Outcome {
    Conclude(t.kind, EvalOperand(t.op1, env), EvalOperand(t.op2, env), env)
  }

  function EvalOperand(t: Option<Tree>, env: Env): Option<Outcome> {
    if t.None? then None else Some(Eval(t.value, env))
  }

  // ---------------------------------------------------------------- constant results

  predicate Plain(v: Value) {
    v.vtype != UndefinedType && v.vtype != PointerType
  }

  predicate PlainOperand(v: Option<Value>) {
    v.Some? ==> Plain(v.value)
  }

  /** On plain operands the operators do not look at the environment and give plain results. */
  lemma FinishIsFixed(kind: NodeKind, v1: Option<Value>, v2: Option<Value>, env: Env, env': Env)
    requires Cacheable(kind) && PlainOperand(v1) && PlainOperand(v2)
    requires kind.LiteralKind? ==> v1.Some?
    requires kind.OperatorKind? && kind.op in {OpDefault, OpIif} ==> v2.Some?
    ensures Finish(kind, v1, v2, env) == Finish(kind, v1, v2, env')
    ensures Finish(kind, v1, v2, env).Some? ==> Plain(Finish(kind, v1, v2, env).value)
  {
  }

  /** A result marked constant is defined, is not an item, and is what every environment gives. */
  lemma {:induction false} ConstantIsFixed(t: Tree, env: Env, env': Env)
    requires WellFormed(t) && Eval(t, env).Done? && Eval(t, env).constant
    ensures Plain(Eval(t, env).value) && Eval(t, env') == Eval(t, env)
    decreases t
  {
    var o1, o2 := EvalOperand(t.op1, env), EvalOperand(t.op2, env);
    if t.op1.Some? { ConstantIsFixed(t.op1.value, env, env'); }
    if Early(t.kind, Operand(o1)).None? {
      if t.op2.Some? { ConstantIsFixed(t.op2.value, env, env'); }
      FinishIsFixed(t.kind, Operand(o1), Operand(o2), env, env');
    }
  }

  /** An expression without symbols, comparisons and operators that may leave their second operand out. */
  predicate Literal(t: Tree) {
    && !t.kind.SymbolKind?
    && (t.kind.OperatorKind? ==> t.kind.op in {OpTimes, OpDivide, OpPlus, OpMinus, OpNot, OpDefault})
    && (t.op1.Some? ==> Literal(t.op1.value)) && (t.op2.Some? ==> Literal(t.op2.value))
  }

  /** The result of such an expression is constant. */
  lemma {:induction false} LiteralIsConstant(t: Tree, env: Env)
    requires Literal(t) && Eval(t, env).Done?
    ensures Eval(t, env).constant
    decreases t
  {
    hide Finish;
    if t.op1.Some? { LiteralIsConstant(t.op1.value, env); }
    if Early(t.kind, Operand(EvalOperand(t.op1, env))).None? {
      if t.op2.Some? { LiteralIsConstant(t.op2.value, env); }
    }
  }

  // ---------------------------------------------------------------- evaluation with the cache

  /** Same value or error; a result marked constant would be marked from scratch too. */
  predicate Agrees(o: Outcome, scratch: Outcome) {
    if o.Fault? then scratch.Fault?
    else scratch.Done? && o.value == scratch.value && (o.constant ==> scratch.constant)
  }

  predicate OperandAgrees(o: Option<Outcome>, scratch: Option<Outcome>) {
    if o.None? then scratch.None? else scratch.Some? && Agrees(o.value, scratch.value)
  }

  predicate NeedsSecond(kind: NodeKind, o1: Option<Outcome>) {
    o1 != Some(Fault) && Early(kind, Operand(o1)).None?
  }

  lemma {:induction false} SameNeed(kind: NodeKind, o1: Option<Outcome>, p1: Option<Outcome>)
    requires OperandAgrees(o1, p1)
    ensures NeedsSecond(kind, o1) <==> NeedsSecond(kind, p1)
  {
  }

  lemma ConcludeAgrees(kind: NodeKind, o1: Option<Outcome>, o2: Option<Outcome>, p1: Option<Outcome>,
      p2: Option<Outcome>, env: Env)
    requires OperandAgrees(o1, p1) && (NeedsSecond(kind, o1) ==> OperandAgrees(o2, p2))
    ensures Agrees(Conclude(kind, o1, o2, env), Conclude(kind, p1, p2, env))
  {
  }

  lemma {:induction false} SecondIsSkipped(kind: NodeKind, o1: Option<Outcome>, o2: Option<Outcome>,
      p2: Option<Outcome>, env: Env)
    requires NeedsSecond(kind, o1) ==> o2 == p2
    ensures Conclude(kind, o1, o2, env) == Conclude(kind, o1, p2, env)
  {
  }

  /** `v` may stand for the tree for ever: it is the constant result in every environment. */
  ghost predicate StandsFor(t: Tree, v: Value) {
    forall env: Env :: Eval(t, env) == Done(v, true)
  }

  lemma ConstantStands(t: Tree, env: Env)
    requires WellFormed(t) && Eval(t, env).Done? && Eval(t, env).constant
    ensures StandsFor(t, Eval(t, env).value)
  {
    forall env': Env ensures Eval(t, env') == Done(Eval(t, env).value, true) {
      ConstantIsFixed(t, env, env');
    }
  }

  class ScriptNode {
    const kind: NodeKind
    const op1: ScriptNode?
    const op2: ScriptNode?
    ghost const tree: Tree
    ghost const repr: set<ScriptNode>
    var constant: bool
    var result: Value

    /** The node and its operands are laid out as `tree`. */
    ghost predicate Built()
      decreases tree
    {
      && this in repr && tree.kind == kind && WellFormed(tree)
      && (if op1 == null then tree.op1.None?
          else tree.op1 == Some(op1.tree) && op1.repr <= repr - {this} && op1.Built())
      && (if op2 == null then tree.op2.None?
          else tree.op2 == Some(op2.tree) && op2.repr <= repr - {this} && op2.Built())
      && (op1 != null && op2 != null ==> op1.repr !! op2.repr)
    }

    /** Whatever is cached may be used in any environment. */
    ghost predicate Sound()
      reads repr
    {
      forall n | n in repr :: n.constant ==> StandsFor(n.tree, n.result)
    }

    /** Nothing has been marked yet. */
    ghost predicate Fresh()
      reads repr
    {
      forall n | n in repr :: !n.constant
    }

    constructor (kind: NodeKind, op1: ScriptNode?, op2: ScriptNode?)
      requires op1 != null ==> op1.Built() && op1.Sound()
      requires op2 != null ==> op2.Built() && op2.Sound()
      requires op1 != null && op2 != null ==> op1.repr !! op2.repr
      requires WellFormed(Tree(kind, if op1 == null then None else Some(op1.tree), if op2 == null then None
                 else Some(op2.tree)))
      ensures Built() && Sound() && this.kind == kind && this.op1 == op1 && this.op2 == op2
    {
      this.kind, this.op1, this.op2 := kind, op1, op2;
      tree := Tree(kind, if op1 == null then None else Some(op1.tree), if op2 == null then None else Some(op2.tree));
      repr := {this} + (if op1 == null then {} else op1.repr) + (if op2 == null then {} else op2.repr);
      constant, result := false, UNDEFINED;
    }

    /** begin_evaluating_node to finish_evaluating_node: the outcome is that of a fresh tree in the
        present environment, and the cache stays usable in all others.  A result with the flag is marked, and
        the first evaluation gives the flag exactly as evaluation from scratch does.  The second operand is
        evaluated only if the result of the first asks for it. */
    method Evaluate(env: Env) returns (r: Outcome)
      requires Built() && Sound()
      modifies repr
      ensures Sound()
      ensures Agrees(r, Eval(tree, env))
      ensures forall n | n in repr :: old(n.constant) ==> n.constant && n.result == old(n.result)
      ensures r.Done? && r.constant ==> constant && result == r.value
      ensures old(Fresh()) ==> r == Eval(tree, env)
      ensures op2 != null && (old(constant) || !NeedsSecond(kind, EvalOperand(tree.op1, env))) ==>
                forall n | n in op2.repr :: n.constant == old(n.constant) && n.result == old(n.result)
      decreases tree
    {
      hide Eval, Conclude, WellFormed, StandsFor;
      if constant {
        CachedIsFresh(tree, result, env);
        return Done(result, false);
      }
      var o1, o2 := None, None;
      if op1 != null {
        assert old(Fresh()) ==> op1.Fresh();
        var x := op1.Evaluate(env);
        o1 := Some(x);
      }
      SameNeed(kind, o1, EvalOperand(tree.op1, env));
      if NeedsSecond(kind, o1) && op2 != null {
        assert old(Fresh()) ==> op2.Fresh();
        var x := op2.Evaluate(env);
        o2 := Some(x);
      }
      r := Conclude(kind, o1, o2, env);
      ConcludeAgrees(kind, o1, o2, EvalOperand(tree.op1, env), EvalOperand(tree.op2, env), env);
      EvalConcludes(tree, env);
      if old(Fresh()) { SecondIsSkipped(kind, o1, o2, EvalOperand(tree.op2, env), env); }
      if r.Done? && r.constant {
        ConstantStands(tree, env);
        constant, result := true, r.value;
      }
    }
  }

  lemma CachedIsFresh(t: Tree, v: Value, env: Env)
    requires StandsFor(t, v)
    ensures Eval(t, env) == Done(v, true)
  {
  }

  lemma EvalConcludes(t: Tree, env: Env)
    ensures Eval(t, env) == Conclude(t.kind, EvalOperand(t.op1, env), EvalOperand(t.op2, env), env)
  {
  }
}
