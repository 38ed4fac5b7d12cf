/** The expression tree of a discount rule and its evaluator: the five
    `IExpression` node kinds with their `Interpret`, and `DiscountRule`
    with its `Evaluate`. */
module Expressions {
  import opened Wrappers
  import opened Literals
  import opened Values
  import opened Carts

  /** The comparison operators `>`, `<`, `=`, `>=` and `<=`. */
  datatype CmpOp = Gt | Lt | Eq | Ge | Le

  /** The logical connectives `E` (and) and `OU` (or). */
  datatype LogicOp = And | Or

  /** One node per `IExpression` implementation. */
  datatype Expr =
    | Const(value: Value)
    | Var(name: string)
    | Compare(left: Expr, op: CmpOp, right: Expr)
    | Logic(left: Expr, conn: LogicOp, right: Expr)
    | Not(inner: Expr)

  /** The exceptions `Interpret` can end in: an unknown variable name, a
      failed `Convert.ChangeType`, and an invalid cast of a non-boolean
      value to `bool`. */
  datatype EvalError =
    | UnknownVariable(name: string)
    | ConversionFailed(value: Value, target: Ty)
    | NotBoolean(value: Value)

  /** `DiscountRule`: a condition, the percentage it grants, and the text the
      rule was parsed from. */
  datatype Rule = Rule(condition: Expr, discountPercentage: Decimal, ruleText: string)

  /** The type a cart variable has, and `None` for a name that is not one. */
  function VariableType(name: string): Option<Ty> {
    if name == "quantidade" then Some(TInt)
    else if name == "valor" then Some(TDec)
    else if name == "categoria" then Some(TStr)
    else if name == "primeiraCompra" then Some(TBool)
    else None
  }

  /** `VariableExpression.Interpret`: the cart field a variable names. */
  function Lookup(name: string, cart: Cart): (r: Result<Value, EvalError>)
    ensures r.Success? <==> VariableType(name).Some?
    ensures r.Success? ==> TypeOf(r.value) == VariableType(name).value
    ensures r.Failure? ==> r.error == UnknownVariable(name)
  {
    match name
    case "quantidade" => Success(Int(cart.itemQuantity))
    case "valor" => Success(Dec(cart.totalValue))
    case "categoria" => Success(Str(cart.customerCategory))
    case "primeiraCompra" => Success(Bool(cart.isFirstPurchase))
    case _ => Failure(UnknownVariable(name))
  }

  /** The operator `switch` applied to the result of `CompareTo`. */
  function Holds(op: CmpOp, comparison: int): bool {
    match op
    case Gt => comparison > 0
    case Lt => comparison < 0
    case Eq => comparison == 0
    case Ge => comparison >= 0
    case Le => comparison <= 0
  }

  /** The standard meaning of each operator on two numbers. */
  predicate RealHolds(op: CmpOp, x: real, y: real) {
    match op
    case Gt => x > y
    case Lt => x < y
    case Eq => x == y
    case Ge => x >= y
    case Le => x <= y
  }

  /** `Convert.ChangeType(v, t)` as an evaluation step. */
  function ConvertTo(v: Value, t: Ty): (r: Result<Value, EvalError>)
    ensures r.Success? ==> TypeOf(r.value) == t
    ensures r.Failure? ==> r.error == ConversionFailed(v, t)
  {
    match ChangeType(v, t)
    case Some(w) => Success(w)
    case None => Failure(ConversionFailed(v, t))
  }

  /** The unboxing cast `(bool)v`. */
  function AsBool(v: Value): (r: Result<bool, EvalError>)
    ensures r.Success? <==> v.Bool?
    ensures r.Success? ==> v == Bool(r.value)
    ensures r.Failure? ==> r.error == NotBoolean(v)
  {
    match v
    case Bool(b) => Success(b)
    case _ => Failure(NotBoolean(v))
  }

  /** `IExpression.Interpret(cart)`. A comparison evaluates its left operand,
      then its right one, converts the right value to the left value's type
      and compares; a logical node casts its left value to `bool` and only
      evaluates its right operand when that does not decide the result. */
  function Eval(e: Expr, cart: Cart): (r: Result<Value, EvalError>)
    ensures r.Success? && (e.Compare? || e.Logic? || e.Not?) ==> r.value.Bool?
  {
    match e
    case Const(v) => Success(v)
    case Var(name) => Lookup(name, cart)
    case Compare(left, op, right) =>
      var lv :- Eval(left, cart);
      var rv :- Eval(right, cart);
      var cv :- ConvertTo(rv, TypeOf(lv));
      Success(Bool(Holds(op, CompareTo(lv, cv))))
    case Logic(left, conn, right) =>
      var lv :- Eval(left, cart);
      var lb :- AsBool(lv);
      if conn == And && !lb then Success(Bool(false))
      else if conn == Or && lb then Success(Bool(true))
      else
        var rv :- Eval(right, cart);
        var rb :- AsBool(rv);
        Success(Bool(rb))
    case Not(inner) =>
      var v :- Eval(inner, cart);
      var b :- AsBool(v);
      Success(Bool(!b))
  }

  /** `DiscountRule.Evaluate(cart)`: the rule's percentage when its condition
      holds and zero when it does not. */
  function EvaluateRule(rule: Rule, cart: Cart): (r: Result<Decimal, EvalError>)
    ensures r.Success? ==> r.value == rule.discountPercentage || r.value == Decimal(0, 0)
    ensures r.Success? <==> Eval(rule.condition, cart).Success? && Eval(rule.condition, cart).value.Bool?
  {
    var v :- Eval(rule.condition, cart);
    var b :- AsBool(v);
    Success(if b then rule.discountPercentage else Decimal(0, 0))
  }

  /** The value of a number as a real. */
  function NumberOf(v: Value): real
    requires v.Int? || v.Dec?
  {
    if v.Int? then v.i as real else ValueOf(v.d)
  }

  // ---------------------------------------------------------------- lemmas

  /** A constant evaluates to its own value whatever the cart. */
  lemma ConstantIgnoresCart(v: Value, a: Cart, b: Cart)
    ensures Eval(Const(v), a) == Eval(Const(v), b) == Success(v)
  {
  }

  /** The four variables expose the whole cart: two carts are equal exactly
      when every variable name looks up the same result in both. */
  lemma LookupDeterminesCart(a: Cart, b: Cart)
    ensures (forall name :: Lookup(name, a) == Lookup(name, b)) <==> a == b
  {
    if forall name :: Lookup(name, a) == Lookup(name, b) {
      assert Lookup("quantidade", a) == Lookup("quantidade", b);
      assert Lookup("valor", a) == Lookup("valor", b);
      assert Lookup("categoria", a) == Lookup("categoria", b);
      assert Lookup("primeiraCompra", a) == Lookup("primeiraCompra", b);
    }
  }

  /** Each variable name reads its own field of the cart. */
  lemma VariablesReadFields(cart: Cart)
    ensures Eval(Var("quantidade"), cart) == Success(Int(cart.itemQuantity))
    ensures Eval(Var("valor"), cart) == Success(Dec(cart.totalValue))
    ensures Eval(Var("categoria"), cart) == Success(Str(cart.customerCategory))
    ensures Eval(Var("primeiraCompra"), cart) == Success(Bool(cart.isFirstPurchase))
  {
  }

  /** A comparison evaluates its left operand first, then its right one, and
      then converts; a failed conversion is an error and never `false`. */
  lemma ComparisonErrorOrder(left: Expr, op: CmpOp, right: Expr, cart: Cart)
    ensures Eval(left, cart).Failure? ==>
      Eval(Compare(left, op, right), cart) == Failure(Eval(left, cart).error)
    ensures Eval(left, cart).Success? && Eval(right, cart).Failure? ==>
      Eval(Compare(left, op, right), cart) == Failure(Eval(right, cart).error)
    ensures (Eval(left, cart).Success? && Eval(right, cart).Success?
      && ChangeType(Eval(right, cart).value, TypeOf(Eval(left, cart).value)).None?) ==>
      Eval(Compare(left, op, right), cart)
        == Failure(ConversionFailed(Eval(right, cart).value, TypeOf(Eval(left, cart).value)))
  {
  }

  /** The operator only decides the boolean outcome: with the same operands a
      comparison fails, and fails with the same error, whatever its operator. */
  lemma ComparisonFailsIndependentlyOfOperator(left: Expr, op1: CmpOp, op2: CmpOp, right: Expr, cart: Cart)
    ensures Eval(Compare(left, op1, right), cart).Failure? <==> Eval(Compare(left, op2, right), cart).Failure?
    ensures Eval(Compare(left, op1, right), cart).Failure? ==>
      Eval(Compare(left, op1, right), cart) == Eval(Compare(left, op2, right), cart)
  {
  }

  /** The operators read a comparison result the way they read two numbers. */
  lemma HoldsMeansRealHolds(op: CmpOp, c: int, x: real, y: real)
    requires c < 0 <==> x < y
    requires c == 0 <==> x == y
    ensures Holds(op, c) == RealHolds(op, x, y)
  {
  }

  /** A `decimal` left operand compares with a number by value; an `int`
      right operand becomes a `decimal` without loss. */
  lemma DecimalComparison(left: Expr, op: CmpOp, right: Expr, cart: Cart, x: Decimal, y: Value)
    requires Eval(left, cart) == Success(Dec(x))
    requires Eval(right, cart) == Success(y) && (y.Int? || y.Dec?)
    ensures Eval(Compare(left, op, right), cart) == Success(Bool(RealHolds(op, ValueOf(x), NumberOf(y))))
  {
    var cv := ChangeType(y, TDec).value;
    assert ValueOf(cv.d) == NumberOf(y);
    HoldsMeansRealHolds(op, CompareTo(Dec(x), cv), ValueOf(x), NumberOf(y));
  }

  /** An `int` left operand compares with a number rounded half to even; a
      `decimal` whose rounding leaves the `int` range is an error. */
  lemma IntComparison(left: Expr, op: CmpOp, right: Expr, cart: Cart, i: Int32, y: Value)
    requires Eval(left, cart) == Success(Int(i))
    requires Eval(right, cart) == Success(y) && (y.Int? || y.Dec?)
    ensures y.Dec? && DecimalToInt32(y.d).None? ==>
      Eval(Compare(left, op, right), cart) == Failure(ConversionFailed(y, TInt))
    ensures y.Int? || DecimalToInt32(y.d).Some? ==>
      Eval(Compare(left, op, right), cart)
        == Success(Bool(RealHolds(op, i as real, RoundHalfEven(NumberOf(y)) as real)))
  {
    if y.Int? {
      RoundsIntegerToItself(y.i);
      HoldsMeansRealHolds(op, CompareTo(Int(i), y), i as real, y.i as real);
    } else if DecimalToInt32(y.d).Some? {
      var n := DecimalToInt32(y.d).value;
      HoldsMeansRealHolds(op, CompareTo(Int(i), Int(n)), i as real, n as real);
    }
  }

  /** Rounding a whole number gives the number itself. */
  lemma RoundsIntegerToItself(n: int)
    ensures RoundHalfEven(n as real) == n
  {
  }

  /** `>=` holds exactly when `>` or `=` holds. */
  lemma GeIsGtOrEq(left: Expr, right: Expr, cart: Cart)
    ensures Eval(Compare(left, Ge, right), cart) == Success(Bool(true)) <==>
      Eval(Compare(left, Gt, right), cart) == Success(Bool(true))
      || Eval(Compare(left, Eq, right), cart) == Success(Bool(true))
  {
  }

  /** `<=` holds exactly when `<` or `=` holds. */
  lemma LeIsLtOrEq(left: Expr, right: Expr, cart: Cart)
    ensures Eval(Compare(left, Le, right), cart) == Success(Bool(true)) <==>
      Eval(Compare(left, Lt, right), cart) == Success(Bool(true))
      || Eval(Compare(left, Eq, right), cart) == Success(Bool(true))
  {
  }

  /** Operands of the same type can be swapped by mirroring the operator. */
  lemma SwappedOperands(left: Expr, right: Expr, cart: Cart)
    requires Eval(left, cart).Success? && Eval(right, cart).Success?
    requires TypeOf(Eval(left, cart).value) == TypeOf(Eval(right, cart).value)
    ensures Eval(Compare(left, Gt, right), cart) == Eval(Compare(right, Lt, left), cart)
    ensures Eval(Compare(left, Ge, right), cart) == Eval(Compare(right, Le, left), cart)
    ensures Eval(Compare(left, Eq, right), cart) == Eval(Compare(right, Eq, left), cart)
  {
    CompareToAntisymmetric(Eval(left, cart).value, Eval(right, cart).value);
  }

  /** `E` with a false left operand is false without looking at the right
      one, which may even be unevaluable. */
  lemma AndShortCircuits(left: Expr, right: Expr, cart: Cart)
    requires Eval(left, cart) == Success(Bool(false))
    ensures Eval(Logic(left, And, right), cart) == Success(Bool(false))
  {
  }

  /** `OU` with a true left operand is true without looking at the right one. */
  lemma OrShortCircuits(left: Expr, right: Expr, cart: Cart)
    requires Eval(left, cart) == Success(Bool(true))
    ensures Eval(Logic(left, Or, right), cart) == Success(Bool(true))
  {
  }

  /** On two boolean operands the connectives are conjunction and disjunction. */
  lemma LogicTruthTable(left: Expr, conn: LogicOp, right: Expr, cart: Cart, a: bool, b: bool)
    requires Eval(left, cart) == Success(Bool(a)) && Eval(right, cart) == Success(Bool(b))
    ensures Eval(Logic(left, conn, right), cart) == Success(Bool(if conn == And then a && b else a || b))
  {
  }

  /** A non-boolean operand of a connective is an invalid cast: on the left
      always, on the right whenever the left one does not decide. */
  lemma LogicNeedsBooleans(left: Expr, conn: LogicOp, right: Expr, cart: Cart)
    ensures Eval(left, cart).Success? && !Eval(left, cart).value.Bool? ==>
      Eval(Logic(left, conn, right), cart) == Failure(NotBoolean(Eval(left, cart).value))
    ensures (Eval(left, cart) == Success(Bool(conn == And))
      && Eval(right, cart).Success? && !Eval(right, cart).value.Bool?) ==>
      Eval(Logic(left, conn, right), cart) == Failure(NotBoolean(Eval(right, cart).value))
  {
  }

  /** `NÃO` negates a boolean and rejects anything else. */
  lemma NotNegates(inner: Expr, cart: Cart)
    ensures Eval(inner, cart).Success? && Eval(inner, cart).value.Bool? ==>
      Eval(Not(inner), cart) == Success(Bool(!Eval(inner, cart).value.b))
    ensures Eval(inner, cart).Success? && !Eval(inner, cart).value.Bool? ==>
      Eval(Not(inner), cart) == Failure(NotBoolean(Eval(inner, cart).value))
    ensures Eval(inner, cart).Failure? ==> Eval(Not(inner), cart) == Eval(inner, cart)
  {
  }

  /** Negating twice gives back a boolean value. */
  lemma DoubleNegation(inner: Expr, cart: Cart)
    requires Eval(inner, cart).Success? && Eval(inner, cart).value.Bool?
    ensures Eval(Not(Not(inner)), cart) == Eval(inner, cart)
  {
  }

  /** A rule grants its percentage when its condition is true, zero when it
      is false, and fails when the condition fails or is not boolean. */
  lemma RuleOutcome(rule: Rule, cart: Cart)
    ensures Eval(rule.condition, cart) == Success(Bool(true)) ==>
      EvaluateRule(rule, cart) == Success(rule.discountPercentage)
    ensures Eval(rule.condition, cart) == Success(Bool(false)) ==>
      EvaluateRule(rule, cart) == Success(Decimal(0, 0))
    ensures Eval(rule.condition, cart).Success? && !Eval(rule.condition, cart).value.Bool? ==>
      EvaluateRule(rule, cart) == Failure(NotBoolean(Eval(rule.condition, cart).value))
    ensures Eval(rule.condition, cart).Failure? ==>
      EvaluateRule(rule, cart) == Failure(Eval(rule.condition, cart).error)
  {
  }

  // ------------------------------------------------------- static typing

  /** The type an expression evaluates to on every cart, when that can be
      read off the tree: variables have their field's type, comparisons need
      a conversion of the right type to the left one that cannot throw, and
      connectives and negation need boolean operands. */
  function StaticType(e: Expr): Option<Ty> {
    match e
    case Const(v) => Some(TypeOf(v))
    case Var(name) => VariableType(name)
    case Compare(left, _, right) =>
      (match (StaticType(left), StaticType(right))
       case (Some(tl), Some(tr)) => if SafeConversion(tr, tl) then Some(TBool) else None
       case _ => None)
    case Logic(left, _, right) =>
      if StaticType(left) == Some(TBool) && StaticType(right) == Some(TBool) then Some(TBool) else None
    case Not(inner) =>
      if StaticType(inner) == Some(TBool) then Some(TBool) else None
  }

  /** A well-typed expression evaluates without error on every cart, to a
      value of its static type. */
  lemma {:induction false} WellTypedEvaluates(e: Expr, cart: Cart)
    requires StaticType(e).Some?
    ensures Eval(e, cart).Success?
    ensures TypeOf(Eval(e, cart).value) == StaticType(e).value
  {
    match e
    case Const(_) =>
    case Var(_) =>
    case Compare(left, _, right) =>
      WellTypedEvaluates(left, cart);
      WellTypedEvaluates(right, cart);
      SafeConversionSucceeds(Eval(right, cart).value, StaticType(left).value);
    case Logic(left, _, right) =>
      WellTypedEvaluates(left, cart);
      WellTypedEvaluates(right, cart);
    case Not(inner) =>
      WellTypedEvaluates(inner, cart);
  }

  /** A rule whose condition is a well-typed boolean never fails. */
  lemma WellTypedRuleNeverFails(rule: Rule, cart: Cart)
    requires StaticType(rule.condition) == Some(TBool)
    ensures EvaluateRule(rule, cart).Success?
  {
    WellTypedEvaluates(rule.condition, cart);
  }

  // ------------------------------------------------- strict evaluation

  /** Evaluation without short circuits: both operands of a connective are
      always evaluated, left first. */
  function StrictEval(e: Expr, cart: Cart): Result<Value, EvalError> {
    match e
    case Const(v) => Success(v)
    case Var(name) => Lookup(name, cart)
    case Compare(left, op, right) =>
      var lv :- StrictEval(left, cart);
      var rv :- StrictEval(right, cart);
      var cv :- ConvertTo(rv, TypeOf(lv));
      Success(Bool(Holds(op, CompareTo(lv, cv))))
    case Logic(left, conn, right) =>
      var lv :- StrictEval(left, cart);
      var lb :- AsBool(lv);
      var rv :- StrictEval(right, cart);
      var rb :- AsBool(rv);
      Success(Bool(if conn == And then lb && rb else lb || rb))
    case Not(inner) =>
      var v :- StrictEval(inner, cart);
      var b :- AsBool(v);
      Success(Bool(!b))
  }

  /** Short circuits only ever avoid errors: whenever strict evaluation
      succeeds, the evaluator gives the same value. */
  lemma {:induction false} StrictSuccessAgrees(e: Expr, cart: Cart)
    requires StrictEval(e, cart).Success?
    ensures Eval(e, cart) == StrictEval(e, cart)
  {
    match e
    case Const(_) =>
    case Var(_) =>
    case Compare(left, _, right) =>
      StrictSuccessAgrees(left, cart);
      StrictSuccessAgrees(right, cart);
    case Logic(left, _, right) =>
      StrictSuccessAgrees(left, cart);
      StrictSuccessAgrees(right, cart);
    case Not(inner) =>
      StrictSuccessAgrees(inner, cart);
  }

  /** The short circuit is observable: `false E x` with an unknown variable
      `x` is false, while evaluating both sides would fail. */
  lemma ShortCircuitAvoidsError(cart: Cart)
    ensures Eval(Logic(Const(Bool(false)), And, Var("x")), cart) == Success(Bool(false))
    ensures StrictEval(Logic(Const(Bool(false)), And, Var("x")), cart) == Failure(UnknownVariable("x"))
  {
  }
}
