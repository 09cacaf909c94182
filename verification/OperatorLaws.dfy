/** What expressions evaluate to: laws of `Eval` for every kind of node, in terms of the operands' results. */
module OperatorLaws {
  import opened Syntax
  import opened Values
  import opened NumberText
  import opened ConstantCache
  import TemplateText

  // ---------------------------------------------------------------- expressions and results

  function On(op: Operator, a: Tree, b: Tree): Tree {
    Tree(OperatorKind(op), Some(a), Some(b))
  }

  function Prefix(op: Operator, b: Tree): Tree {
    Tree(OperatorKind(op), None, Some(b))
  }

  /** The operand has this value. */
  predicate Has(t: Tree, env: Env, v: Value) {
    Eval(t, env).Done? && Eval(t, env).value == v
  }

  predicate IsNumber(o: Outcome, n: real) {
    o.Done? && o.value.vtype == NumberType && o.value.n == n
  }

  predicate IsTruth(o: Outcome, b: bool) {
    IsNumber(o, if b then 1.0 else 0.0)
  }

  predicate IsText(o: Outcome, s: string) {
    o.Done? && o.value.vtype == StringType && o.value.s == Some(s)
  }

  predicate IsUndefined(o: Outcome) {
    o.Done? && o.value.vtype == UndefinedType
  }

  predicate Defined(v: Value) {
    v.vtype != UndefinedType
  }

  /** The value is a number, or a text that spells one. */
  predicate Spells(v: Value, n: real) {
    if v.vtype == NumberType then v.n == n
    else v.s.Some? && v.s.value != "" && ScanNumber(v.s.value) == Some(n)
  }

  /** For an addition or comparison a value counts as a number if it is one, or a text of unknown type that spells
      one. */
  predicate Counts(v: Value, n: real) {
    (v.vtype == NumberType || v.vtype == UnknownType) && Spells(v, n)
  }

  lemma {:induction false} Unfold(op: Operator, a: Option<Tree>, b: Tree, env: Env)
    ensures Eval(Tree(OperatorKind(op), a, Some(b)), env)
         == Conclude(OperatorKind(op), EvalOperand(a, env), Some(Eval(b, env)), env)
  {
  }

  ghost predicate Numerical(v: Value) {
    exists n: real :: Spells(v, n)
  }

  ghost predicate Nonzero(v: Value) {
    exists n: real :: Spells(v, n) && n != 0.0
  }

  lemma {:induction false} SpelledIs(v: Value)
    requires Defined(v)
    ensures Numerical(v) <==> NumberValue(v).vtype == NumberType
    ensures Nonzero(v) <==> NumberIn(v) != 0.0
  {
    var n := NumberValue(v).n;
    assert NumberValue(v).vtype == NumberType ==> Spells(v, n);
  }

  // ---------------------------------------------------------------- arithmetic

  /** `+` adds numbers. */
  lemma {:induction false} PlusAdds(a: Tree, b: Tree, env: Env, v: Value, w: Value, x: real, y: real)
    requires Has(a, env, v) && Has(b, env, w) && Counts(v, x) && Counts(w, y)
    ensures IsNumber(Eval(On(OpPlus, a, b), env), x + y)
  {
  }

  /** Everything else that is defined is joined as text. */
  lemma {:induction false} PlusJoins(a: Tree, b: Tree, env: Env, v: Value, w: Value)
    requires Has(a, env, v) && Has(b, env, w) && Defined(v) && Defined(w)
    requires !(exists x, y :: Counts(v, x) && Counts(w, y))
    ensures IsText(Eval(On(OpPlus, a, b), env), StringOf(v, env.text) + StringOf(w, env.text))
  {
    assert NumberValue(v).vtype == NumberType && (v.vtype == NumberType || v.vtype == UnknownType) ==>
        Counts(v, NumberValue(v).n);
    assert NumberValue(w).vtype == NumberType && (w.vtype == NumberType || w.vtype == UnknownType) ==>
        Counts(w, NumberValue(w).n);
  }

  /** `-` takes away: adding what was taken away gives the first operand back. */
  lemma {:induction false} MinusUndoesPlus(a: Tree, b: Tree, env: Env, v: Value, w: Value, x: real, y: real)
    requires Has(a, env, v) && Has(b, env, w) && Defined(v) && Defined(w) && Spells(v, x) && Spells(w, y)
    ensures IsNumber(Eval(On(OpMinus, a, b), env), x - y)
    ensures IsNumber(Eval(On(OpPlus, On(OpMinus, a, b), Prefix(OpPlus, b)), env), x)
  {
    MinusSubtracts(a, b, env, v, w, x, y);
    SignLaws(b, env, w, y);
    hide Eval;
    var d, u := Eval(On(OpMinus, a, b), env).value, Eval(Prefix(OpPlus, b), env).value;
    PlusAdds(On(OpMinus, a, b), Prefix(OpPlus, b), env, d, u, x - y, y);
  }

  lemma {:induction false} MinusSubtracts(a: Tree, b: Tree, env: Env, v: Value, w: Value, x: real, y: real)
    requires Has(a, env, v) && Has(b, env, w) && Defined(v) && Defined(w) && Spells(v, x) && Spells(w, y)
    ensures IsNumber(Eval(On(OpMinus, a, b), env), x - y)
  {
  }

  /** `/` divides: multiplying by the divisor gives the first operand back; division by zero is an error. */
  lemma {:induction false} DivideUndoesTimes(a: Tree, b: Tree, env: Env, v: Value, w: Value, x: real, y: real)
    requires Has(a, env, v) && Has(b, env, w) && Defined(v) && Defined(w) && Spells(v, x) && Spells(w, y)
    ensures y == 0.0 <==> Eval(On(OpDivide, a, b), env) == Fault
    ensures y != 0.0 ==> IsNumber(Eval(On(OpTimes, On(OpDivide, a, b), b), env), x)
  {
    if y == 0.0 {
      DivideByZero(a, b, env, v, w, x);
    } else {
      var q := Divides(a, b, env, v, w, x, y);
      hide Eval, ScanNumber;
      TimesMultiplies(On(OpDivide, a, b), b, env, Eval(On(OpDivide, a, b), env).value, w, q, y);
    }
  }

  lemma {:induction false} DivideByZero(a: Tree, b: Tree, env: Env, v: Value, w: Value, x: real)
    requires Has(a, env, v) && Has(b, env, w) && Defined(v) && Defined(w) && Spells(v, x) && Spells(w, 0.0)
    ensures Eval(On(OpDivide, a, b), env) == Fault
  {
  }

  lemma {:induction false} Divides(a: Tree, b: Tree, env: Env, v: Value, w: Value, x: real, y: real)
    returns (q: real)
    requires Has(a, env, v) && Has(b, env, w) && Defined(v) && Defined(w) && Spells(v, x) && Spells(w, y) && y != 0.0
    ensures q * y == x && IsNumber(Eval(On(OpDivide, a, b), env), q)
  {
    hide *;
    q := x / y;
    Multiplied(x, y);
    Quotient(a, b, env, v, w, x, y);
  }

  lemma {:induction false} Multiplied(x: real, y: real)
    requires y != 0.0
    ensures x / y * y == x
  {
  }

  lemma {:induction false} Quotient(a: Tree, b: Tree, env: Env, v: Value, w: Value, x: real, y: real)
    requires Has(a, env, v) && Has(b, env, w) && Defined(v) && Defined(w) && Spells(v, x) && Spells(w, y) && y != 0.0
    ensures IsNumber(Eval(On(OpDivide, a, b), env), x / y)
  {
  }

  /** `*` multiplies numbers. */
  lemma {:induction false} TimesMultiplies(a: Tree, b: Tree, env: Env, v: Value, w: Value, x: real, y: real)
    requires Has(a, env, v) && Has(b, env, w) && Defined(w) && v.vtype in {NumberType, UnknownType}
    requires Spells(v, x) && Spells(w, y)
    ensures IsNumber(Eval(On(OpTimes, a, b), env), x * y)
  {
    Unfold(OpTimes, Some(a), b, env);
    hide Eval, ScanNumber, Repeat, FormatNumber;
  }

  lemma {:induction false} RepeatLength(s: string, k: nat)
    ensures |Repeat(s, k)| == |s| * k
  {
    if k > 0 { RepeatLength(s, k - 1); }
  }

  /** A string times a number is the string that often, the number cut off to an integer; a negative count is an
      error, as is a second operand that spells no number. */
  lemma {:induction false} TimesRepeats(a: Tree, b: Tree, env: Env, v: Value, w: Value, s: string, y: real)
    requires Has(a, env, v) && Has(b, env, w) && v.vtype == StringType && v.s == Some(s) && Defined(w) && Spells(w, y)
    ensures y <= -1.0 <==> Eval(On(OpTimes, a, b), env) == Fault
    ensures y > -1.0 ==>
              var k := if y < 0.0 then 0 else y.Floor;
              exists t: string :: IsText(Eval(On(OpTimes, a, b), env), t) && |t| == |s| * k && Repeats(t, s)
  {
    if y > -1.0 {
      var k := if y < 0.0 then 0 else y.Floor;
      RepeatLength(s, k);
      RepeatRepeats(s, k);
      assert IsText(Eval(On(OpTimes, a, b), env), Repeat(s, k));
    }
  }

  /** `t` begins with `s` and repeats it. */
  ghost predicate Repeats(t: string, s: string) {
    && (t != [] ==> s <= t)
    && (forall i | |s| <= i < |t| :: t[i] == t[i - |s|])
  }

  lemma {:induction false} RepeatRepeats(s: string, k: nat)
    ensures Repeats(Repeat(s, k), s)
  {
    if k > 1 {
      RepeatRepeats(s, k - 1);
      var u, r, t := Repeat(s, k - 2), Repeat(s, k - 1), Repeat(s, k);
      assert r == u + s && t == r + s;
      forall i | |s| <= i < |t| ensures t[i] == t[i - |s|] {
        if i >= |r| { assert t[i] == s[i - |r|] && t[i - |s|] == r[i - |s|] == s[i - |r|]; }
      }
    } else if k == 1 {
      assert Repeat(s, 1) == Repeat(s, 0) + s == s;
    }
  }

  /** A prefixed sign. */
  lemma {:induction false} SignLaws(b: Tree, env: Env, w: Value, y: real)
    requires Has(b, env, w) && Defined(w) && Spells(w, y)
    ensures IsNumber(Eval(Prefix(OpPlus, b), env), y)
    ensures IsNumber(Eval(Prefix(OpMinus, b), env), 0.0 - y)
    ensures IsTruth(Eval(Prefix(OpNot, b), env), -1.0 < y < 1.0)
  {
    Unfold(OpPlus, None, b, env);
    Unfold(OpMinus, None, b, env);
    Unfold(OpNot, None, b, env);
    hide Eval, ScanNumber, Comparison;
  }

  /** What is not a number is an error to every operator that wants one, and what is undefined makes the result
      undefined. */
  lemma {:induction false} BadOperands(op: Operator, a: Tree, b: Tree, env: Env, v: Value, w: Value)
    requires Has(a, env, v) && Has(b, env, w)
    ensures op in {OpPlus, OpMinus, OpTimes, OpDivide} && (!Defined(v) || !Defined(w)) ==>
              IsUndefined(Eval(On(op, a, b), env))
    ensures op in {OpMinus, OpDivide} && Defined(v) && Defined(w)
              && (!Numerical(v) || !Numerical(w)) ==>
              Eval(On(op, a, b), env) == Fault
    ensures op == OpTimes && Defined(v) && Defined(w) && !Numerical(w) ==>
              Eval(On(op, a, b), env) == Fault
  {
    if Defined(v) { SpelledIs(v); }
    if Defined(w) { SpelledIs(w); }
    hide Numerical, Nonzero, ScanNumber;
  }

  // ---------------------------------------------------------------- comparison

  /** The comparisons by name. */
  predicate Compares(op: Operator) {
    match op
    case OpEquals | OpNotEquals | OpLessThan | OpLessEqual | OpGreaterThan | OpGreaterEqual => true
    case OpSafeEquals | OpSafeNotEquals | OpSafeLessThan | OpSafeLessEqual => true
    case OpSafeGreaterThan | OpSafeGreaterEqual => true
    case _ => false
  }

  lemma {:induction false} ComparisonsAre(op: Operator)
    ensures Compares(op) <==> IsComparison(op)
  {
  }

  /** What a comparison gives if the first operand is less, or equal. */
  predicate ComparesBy(op: Operator, r: Outcome, less: bool, equal: bool) {
    match op
    case OpEquals | OpSafeEquals => IsTruth(r, equal)
    case OpNotEquals | OpSafeNotEquals => IsTruth(r, !equal)
    case OpLessThan | OpSafeLessThan => IsTruth(r, less)
    case OpLessEqual | OpSafeLessEqual => IsTruth(r, less || equal)
    case OpGreaterThan | OpSafeGreaterThan => IsTruth(r, !less && !equal)
    case OpGreaterEqual | OpSafeGreaterEqual => IsTruth(r, !less)
    case _ => true
  }

  lemma {:induction false} Concludes(op: Operator, a: Tree, b: Tree, env: Env, v: Value, w: Value)
    requires Has(a, env, v) && Has(b, env, w) && IsComparison(op)
    ensures var r := Eval(On(op, a, b), env);
            match Comparison(op, v, w, env)
            case None => r == Fault
            case Some(x) => r.Done? && r.value == x
  {
    hide Comparison;
  }

  lemma {:induction false} HoldsBy(op: Operator, r: Outcome, less: bool, equal: bool)
    requires IsComparison(op) && IsTruth(r, Holds(op, less, equal))
    ensures ComparesBy(op, r, less, equal)
  {
  }

  /** Numbers compare as numbers. */
  lemma {:induction false} NumbersCompare(
    op: Operator, a: Tree, b: Tree, env: Env, v: Value, w: Value, x: real, y: real)
    requires Has(a, env, v) && Has(b, env, w) && Counts(v, x) && Counts(w, y) && Compares(op)
    ensures ComparesBy(op, Eval(On(op, a, b), env), x < y, x == y)
  {
    ComparisonsAre(op);
    hide Compares;
    Concludes(op, a, b, env, v, w);
    hide Eval, Holds, IsComparison, ScanNumber, ComparesBy;
    HoldsBy(op, Eval(On(op, a, b), env), x < y, x == y);
  }

  /** Everything else that is defined and no item compares as text, by the first character that differs. */
  lemma {:induction false} TextsCompare(op: Operator, a: Tree, b: Tree, env: Env, v: Value, w: Value)
    requires Has(a, env, v) && Has(b, env, w) && Defined(v) && Defined(w) && Compares(op)
    requires v.vtype != PointerType && w.vtype != PointerType && !(exists x, y :: Counts(v, x) && Counts(w, y))
    ensures var s, t := StringOf(v, env.text), StringOf(w, env.text);
            ComparesBy(op, Eval(On(op, a, b), env), Precedes(s, t), s == t)
  {
    ComparisonsAre(op);
    hide Compares;
    Concludes(op, a, b, env, v, w);
    TextComparison(op, v, w, env);
    hide Eval, Holds, IsComparison, ComparesBy, CompareText, Comparison, Precedes, StringOf;
    var s, t := StringOf(v, env.text), StringOf(w, env.text);
    CompareIsOrder(s, t);
    HoldsBy(op, Eval(On(op, a, b), env), Precedes(s, t), s == t);
  }

  lemma {:induction false} TextComparison(op: Operator, v: Value, w: Value, env: Env)
    requires Defined(v) && Defined(w) && v.vtype != PointerType && w.vtype != PointerType
    requires !(exists x, y :: Counts(v, x) && Counts(w, y))
    ensures var c := CompareText(StringOf(v, env.text), StringOf(w, env.text));
            Comparison(op, v, w, env) == Some(Truth(Holds(op, c < 0, c == 0)))
  {
    NotBothCount(v, w);
    hide Holds, ScanNumber, CompareText, FormatNumber, Counts;
  }

  lemma {:induction false} NotBothCount(v: Value, w: Value)
    requires !(exists x, y :: Counts(v, x) && Counts(w, y))
    ensures !(v.vtype in {NumberType, UnknownType} && NumberValue(v).vtype == NumberType
              && w.vtype in {NumberType, UnknownType} && NumberValue(w).vtype == NumberType)
  {
    assert v.vtype in {NumberType, UnknownType} && NumberValue(v).vtype == NumberType ==> Counts(v, NumberValue(v).n);
    assert w.vtype in {NumberType, UnknownType} && NumberValue(w).vtype == NumberType ==> Counts(w, NumberValue(w).n);
  }

  /** Of `<`, `==` and `>` exactly one holds between defined values that are no items. */
  lemma {:induction false} ExactlyOne(a: Tree, b: Tree, env: Env, v: Value, w: Value)
    requires Has(a, env, v) && Has(b, env, w) && Defined(v) && Defined(w)
    requires v.vtype != PointerType && w.vtype != PointerType
    ensures exists less, equal, greater ::
              && IsTruth(Eval(On(OpLessThan, a, b), env), less) && IsTruth(Eval(On(OpEquals, a, b), env), equal)
              && IsTruth(Eval(On(OpGreaterThan, a, b), env), greater)
              && (less || equal || greater) && !(less && equal) && !(less && greater) && !(equal && greater)
  {
    var less, equal;
    if x, y :| Counts(v, x) && Counts(w, y) {
      less, equal := x < y, x == y;
      NumbersCompare(OpLessThan, a, b, env, v, w, x, y);
      NumbersCompare(OpEquals, a, b, env, v, w, x, y);
      NumbersCompare(OpGreaterThan, a, b, env, v, w, x, y);
    } else {
      var s, t := StringOf(v, env.text), StringOf(w, env.text);
      less, equal := Precedes(s, t), s == t;
      CompareIsOrder(s, t);
      TextsCompare(OpLessThan, a, b, env, v, w);
      TextsCompare(OpEquals, a, b, env, v, w);
      TextsCompare(OpGreaterThan, a, b, env, v, w);
    }
    hide Eval, Precedes, StringOf, CompareText, Counts;
    assert IsTruth(Eval(On(OpLessThan, a, b), env), less) && IsTruth(Eval(On(OpEquals, a, b), env), equal)
        && IsTruth(Eval(On(OpGreaterThan, a, b), env), !less && !equal);
  }

  /** Items are equal if they are the same item and have no order; an item and another value are an error. */
  lemma {:induction false} ItemsCompare(op: Operator, a: Tree, b: Tree, env: Env, v: Value, w: Value)
    requires Has(a, env, v) && Has(b, env, w) && Defined(v) && Defined(w) && Compares(op)
    ensures v.vtype == PointerType && w.vtype == PointerType ==>
              var r := Eval(On(op, a, b), env);
              if op in {OpEquals, OpSafeEquals} then IsTruth(r, v.item == w.item)
              else if op in {OpNotEquals, OpSafeNotEquals} then IsTruth(r, v.item != w.item)
              else IsUndefined(r)
    ensures (v.vtype == PointerType) != (w.vtype == PointerType) ==> Eval(On(op, a, b), env) == Fault
  {
    ComparisonsAre(op);
    hide Compares;
  }

  /** With an undefined operand a comparison is undefined; a safe one is false, unless it asks whether two undefined
      values are equal. */
  lemma {:induction false} UndefinedCompare(op: Operator, a: Tree, b: Tree, env: Env, v: Value, w: Value)
    requires Has(a, env, v) && Has(b, env, w) && (!Defined(v) || !Defined(w))
    ensures op in {OpEquals, OpNotEquals, OpLessThan, OpLessEqual, OpGreaterThan, OpGreaterEqual} ==>
              IsUndefined(Eval(On(op, a, b), env))
    ensures op in {OpSafeNotEquals, OpSafeLessThan, OpSafeLessEqual, OpSafeGreaterThan, OpSafeGreaterEqual} ==>
              IsTruth(Eval(On(op, a, b), env), false)
    ensures op == OpSafeEquals ==> IsTruth(Eval(On(op, a, b), env), !Defined(v) && !Defined(w))
  {
  }

  // ---------------------------------------------------------------- logic and choice

  /** A first operand that decides is enough, even before an error. */
  lemma {:induction false} FirstDecides(a: Tree, b: Tree, env: Env, v: Value)
    requires Has(a, env, v)
    ensures Defined(v) && Nonzero(v) ==> IsTruth(Eval(On(OpOr, a, b), env), true)
    ensures Defined(v) && !Nonzero(v) ==> IsTruth(Eval(On(OpAnd, a, b), env), false)
    ensures !Defined(v) || !Nonzero(v) ==> IsUndefined(Eval(On(OpIif, a, b), env))
    ensures Defined(v) ==> Has(On(OpDefault, a, b), env, v)
    ensures Defined(v) ==> Has(Tree(OperatorKind(OpDefault), Some(a), None), env, v)
  {
    if Defined(v) { SpelledIs(v); }
    hide Numerical, Nonzero, ScanNumber;
  }

  /** Otherwise the second operand decides; as a truth value a number between -1 and 1 is false there. */
  lemma {:induction false} SecondDecides(a: Tree, b: Tree, env: Env, v: Value, w: Value, x: real, y: real)
    requires Has(a, env, v) && Has(b, env, w) && Defined(v) && Defined(w) && Spells(v, x) && Spells(w, y)
    ensures x == 0.0 ==> IsTruth(Eval(On(OpOr, a, b), env), !(-1.0 < y < 1.0))
    ensures x != 0.0 ==> IsTruth(Eval(On(OpAnd, a, b), env), !(-1.0 < x < 1.0) && !(-1.0 < y < 1.0))
  {
    Unfold(OpOr, Some(a), b, env);
    Unfold(OpAnd, Some(a), b, env);
    hide Eval, ScanNumber, Comparison;
  }

  /** What `?` and a choice give if the first operand does not decide. */
  lemma {:induction false} SecondTaken(a: Tree, b: Tree, env: Env, v: Value, w: Value)
    requires Has(a, env, v) && Has(b, env, w)
    ensures Defined(v) && Nonzero(v) ==> Has(On(OpIif, a, b), env, w)
    ensures !Defined(v) ==> Has(On(OpDefault, a, b), env, w)
  {
    if Defined(v) { SpelledIs(v); }
    Unfold(OpIif, Some(a), b, env);
    Unfold(OpDefault, Some(a), b, env);
    hide Numerical, Nonzero, NumberIn, Eval, Comparison, Binary;
  }

  /** An undefined first operand makes `|` and `&` undefined. */
  lemma {:induction false} UndefinedLogic(op: Operator, a: Tree, b: Tree, env: Env, v: Value, w: Value)
    requires Has(a, env, v) && Has(b, env, w) && !Defined(v) && op in {OpOr, OpAnd}
    ensures IsUndefined(Eval(On(op, a, b), env))
  {
  }

  /** Without a second operand `?` gives an undefined value for one. */
  lemma {:induction false} DefaultAlone(a: Tree, env: Env, v: Value)
    requires Has(a, env, v) && !Defined(v)
    ensures IsUndefined(Eval(Tree(OperatorKind(OpDefault), Some(a), None), env))
  {
  }

  /** An error in an operand that is needed is an error of the whole. */
  lemma {:induction false} ErrorsPass(op: Operator, a: Tree, b: Tree, env: Env)
    ensures Eval(a, env) == Fault ==> Eval(On(op, a, b), env) == Fault
    ensures Eval(a, env).Done? && Eval(b, env) == Fault && op !in {OpOr, OpAnd, OpIif, OpDefault} ==>
              Eval(On(op, a, b), env) == Fault
  {
  }

  /** The second operand is not evaluated where the first decides or is an error. */
  lemma {:induction false} SecondIsLeftOut(a: Tree, env: Env)
    ensures Eval(a, env) == Fault ==> forall kind: NodeKind :: !NeedsSecond(kind, Some(Eval(a, env)))
    ensures forall v: Value | Has(a, env, v) && Defined(v) ::
              && (Nonzero(v) ==> !NeedsSecond(OperatorKind(OpOr), Some(Eval(a, env))))
              && (!Nonzero(v) ==> !NeedsSecond(OperatorKind(OpAnd), Some(Eval(a, env))))
              && (!Nonzero(v) ==> !NeedsSecond(OperatorKind(OpIif), Some(Eval(a, env))))
              && !NeedsSecond(OperatorKind(OpDefault), Some(Eval(a, env)))
    ensures IsUndefined(Eval(a, env)) ==> !NeedsSecond(OperatorKind(OpIif), Some(Eval(a, env)))
  {
    if Eval(a, env).Done? && Defined(Eval(a, env).value) { SpelledIs(Eval(a, env).value); }
    hide Eval, Nonzero, Numerical, ScanNumber;
  }

  /** Every operator the evaluator knows, with operands, and a sign or `!` without the first, is an expression. */
  lemma {:induction false} OperatorsAreCovered(op: Operator, a: Tree, b: Tree)
    requires WellFormed(a) && WellFormed(b)
    ensures Compares(op) || op in {OpTimes, OpDivide, OpPlus, OpMinus, OpNot, OpOr, OpAnd, OpDefault, OpIif} ==>
              WellFormed(On(op, a, b))
    ensures op in {OpPlus, OpMinus, OpNot} ==> WellFormed(Prefix(op, b))
    ensures WellFormed(Tree(OperatorKind(OpDefault), Some(a), None))
    ensures WellFormed(Tree(LiteralKind(0), Some(a), None))
  {
    ComparisonsAre(op);
    hide Compares;
  }

  // ---------------------------------------------------------------- leaves

  /** A number in a script: an optional minus sign and digits. */
  lemma {:induction false} NumberNode(negative: bool, a: Tree, env: Env, whole: string)
    requires Has(a, env, UnknownText(whole)) && Digits(whole) && whole != ""
    ensures IsNumber(Eval(Tree(NumberKind(negative), Some(a), None), env),
                     (if negative then -1.0 else 1.0) * Whole(whole, 0.0))
  {
    NoFraction();
    SignedNumber(negative, whole, "");
    hide NumberValue, Whole, Fraction;
    assert Spelled(whole, "") == whole;
    assert (if negative then "-" else "") + whole + "" == (if negative then "-" else "") + whole;
  }

  /** And with a point and digits behind it. */
  lemma {:induction false} PointNode(negative: bool, a: Tree, b: Tree, env: Env, whole: string, part: string)
    requires Has(a, env, UnknownText(whole)) && Digits(whole) && whole != ""
    requires Has(b, env, UnknownText(part)) && Digits(part) && part != ""
    ensures IsNumber(Eval(Tree(NumberKind(negative), Some(a), Some(b)), env),
                     (if negative then -1.0 else 1.0) * (Whole(whole, 0.0) + Fraction(part, 0)))
  {
    SignedNumber(negative, whole, part);
    hide NumberValue, Whole, Fraction;
    assert (if negative then "-" else "") + whole + ("." + part)
        == (if negative then "-" else "") + Spelled(whole, part);
  }

  lemma {:induction false} SignedNumber(negative: bool, d: string, p: string)
    requires Digits(d) && d != "" && Digits(p)
    ensures var v := NumberValue(UnknownText((if negative then "-" else "") + Spelled(d, p)));
            v.vtype == NumberType && v.n == (if negative then -1.0 else 1.0) * (Whole(d, 0.0) + Fraction(p, 0))
  {
    SignedScans(negative, d, p);
    hide ScanNumber, Whole, Fraction;
    assert (if negative then "-" else "") + Spelled(d, p) != "";
  }

  /** A value's text: the one it has; an item's comes from its class; a number's reads back as the number, within
      half a billionth. */
  lemma {:induction false} TextMeans(v: Value, env: Env)
    ensures v.s.Some? ==> StringOf(v, env.text) == v.s.value
    ensures v.s.None? && v.vtype == PointerType ==> StringOf(v, env.text) == env.text(v.item)
    ensures v.s.None? && v.vtype == NumberType ==>
              exists n: real :: Spells(UnknownText(StringOf(v, env.text)), n)
                                && -0.5 <= (n - v.n) * BILLION as real <= 0.5
  {
    NumberRoundTrip(v.n);
    hide ScanNumber, FormatNumber;
    if v.s.None? && v.vtype == NumberType {
      var t := UnknownText(StringOf(v, env.text));
      var n := NumberValue(t).n;
      assert Spells(t, n) && -0.5 <= (n - v.n) * BILLION as real <= 0.5;
    }
  }

  /** A text, written with escapes, is itself, of a type not known yet. */
  lemma {:induction false} TextNode(sign: string, s: string, env: Env)
    ensures Has(Tree(TextKind(sign, TemplateText.Protect(s)), None, None), env, UnknownText(sign + s))
  {
    var kind := TextKind(sign, TemplateText.Protect(s));
    TemplateText.ProtectedReads(s);
    hide TemplateText.Protect, TemplateText.Unescape, TemplateText.Escaped;
    assert Eval(Tree(kind, None, None), env) == Conclude(kind, None, None, env);
    assert Finish(kind, None, None, env) == Some(UnknownText(sign + s));
  }

  /** A symbol is looked up with its scope and its name, unless its scope is undefined. */
  lemma {:induction false} SymbolNode(a: Tree, b: Tree, env: Env, v: Value, w: Value)
    requires Has(a, env, v) && Has(b, env, w)
    ensures var r := Eval(Tree(SymbolKind, Some(a), Some(b)), env);
            if !Defined(v) then IsUndefined(r)
            else match env.lookup(Some(v), Some(w)) case None => r == Fault case Some(u) => r == Done(u, false)
    ensures match env.lookup(None, Some(w))
            case None => Eval(Tree(SymbolKind, None, Some(b)), env) == Fault
            case Some(u) => Eval(Tree(SymbolKind, None, Some(b)), env) == Done(u, false)
  {
  }

  /** A literal is its text behind the blanks before it. */
  lemma {:induction false} LiteralNode(indent: nat, a: Tree, env: Env, v: Value)
    requires Has(a, env, v) && v.vtype !in {UndefinedType, PointerType}
    ensures IsText(Eval(Tree(LiteralKind(indent), Some(a), None), env),
                   seq(indent, _ => ' ') + StringOf(v, env.text))
  {
  }
}
