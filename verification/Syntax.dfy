/** The vocabulary shared by the GSL parser and evaluator models: operators with
    their priority table, node kinds, and the child fields of a parse node. */
module Syntax {

  datatype Option<+T> = None | Some(value: T)

  datatype Operator =
    | OpUndefined | OpTimes | OpDivide | OpPlus | OpMinus | OpIif | OpDefault
    | OpEquals | OpNotEquals | OpGreaterThan | OpLessThan | OpGreaterEqual | OpLessEqual
    | OpSafeEquals | OpSafeNotEquals | OpSafeGreaterThan | OpSafeLessThan
    | OpSafeGreaterEqual | OpSafeLessEqual
    | OpNot | OpOr | OpAnd | OpNextArg

  /** The parser's priority table: a larger number binds more tightly. */
  function Priority(op: Operator): nat {
    match op
    case OpUndefined => 8
    case OpTimes | OpDivide => 7
    case OpPlus | OpMinus => 6
    case OpIif | OpDefault => 5
    case OpNot => 3
    case OpOr | OpAnd => 2
    case OpNextArg => 1
    case _ => 4
  }

  /** Kinds of parse node; every command (.if, .for, a template line, ...) is a `Command`. */
  datatype Kind =
    | Text | Substitute | OperatorNode | Literal | Number
    | Symbol | Member | Attribute | Call | Command

  datatype Field = Scope | Name | Op1 | Op2 | As | To | Before | After
}
