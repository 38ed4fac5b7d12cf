/** The five rules and three carts of the demonstration program, and what
    the model says about them: how each rule text parses and what each rule
    grants each cart. */
module Samples {
  import opened Wrappers
  import opened Literals
  import opened Values
  import opened Carts
  import opened Expressions
  import opened RuleParser
  import opened Printer

  // ------------------------------------------------------------ the carts

  /** A regular customer buying 15 items for 1500.00. */
  const Cart1: Cart := Cart(Decimal(150000, 2), 15, "Regular", false)

  /** A VIP customer buying 5 items for 500.00. */
  const Cart2: Cart := Cart(Decimal(50000, 2), 5, "VIP", false)

  /** A regular customer's first purchase: 2 items for 200.00. */
  const Cart3: Cart := Cart(Decimal(20000, 2), 2, "Regular", true)

  // ------------------------------------------------------------ the rules

  /** The literal the parser builds from a whole-number text. */
  function Number(n: int): Expr {
    Const(Dec(Decimal(n, 0)))
  }

  /** Each rule text below is the demonstration program's string, written as
      the pieces the printer joins (`AndSep` is `" E "`, `OrSep` is
      `" OU "`, `Then` is `ENTAO` and `NotPrefix` is `"NÃO "`), so that
      the text and the printed rule agree piece by piece. */
  const Rule1Text: string := "quantidade > 10" + AndSep + "valor > 1000" + " " + Then + " " + "15"
  const Rule1Condition: Expr :=
    Logic(Compare(Var("quantidade"), Gt, Number(10)), And, Compare(Var("valor"), Gt, Number(1000)))
  const Rule1: Rule := Rule(Rule1Condition, Decimal(15, 0), Rule1Text)

  const Rule2Text: string := "categoria = \"VIP\"" + " " + Then + " " + "20"
  const Rule2Condition: Expr := Compare(Var("categoria"), Eq, Const(Str("VIP")))
  const Rule2: Rule := Rule(Rule2Condition, Decimal(20, 0), Rule2Text)

  const Rule3Text: string := "primeiraCompra = true" + " " + Then + " " + "10"
  const Rule3Condition: Expr := Compare(Var("primeiraCompra"), Eq, Const(Bool(true)))
  const Rule3: Rule := Rule(Rule3Condition, Decimal(10, 0), Rule3Text)

  /** The parentheses are not part of the grammar: they stay inside the
      operand texts, so the rule compares a variable named `(quantidade`
      and the variable `valor` against a variable named `500)`. */
  const Rule4Text: string := "(quantidade > 10" + OrSep + ("valor > 500)" + AndSep + "categoria = \"VIP\"") + " " + Then + " " + "25"
  const Rule4Condition: Expr :=
    Logic(Compare(Var("(quantidade"), Gt, Number(10)), Or,
          Logic(Compare(Var("valor"), Gt, Var("500)")), And, Rule2Condition))
  const Rule4: Rule := Rule(Rule4Condition, Decimal(25, 0), Rule4Text)

  const Rule5Text: string := NotPrefix + "primeiraCompra" + AndSep + "quantidade >= 5" + " " + Then + " " + "5"
  const Rule5Condition: Expr :=
    Logic(Not(Var("primeiraCompra")), And, Compare(Var("quantidade"), Ge, Number(5)))
  const Rule5: Rule := Rule(Rule5Condition, Decimal(5, 0), Rule5Text)

  // ------------------------------------------------------------ parsing

  /** A character that may appear in the sample variable names. */
  predicate NameChar(c: char) {
    || ('a' <= c <= 'z')
    || ('A' <= c <= 'Z' && c != 'E' && c != 'T' && c != 'U')
    || IsDigit(c) || c == '(' || c == ')'
  }

  /** A name of such characters that does not read as a number and does not
      start like `true` or `false` is read back as a variable. */
  lemma SampleName(name: string)
    requires name != [] && forall i :: 0 <= i < |name| ==> NameChar(name[i])
    requires NotNumeric(name) && name[0] !in "tfTF"
    ensures VariableName(name)
  {
    assert AsciiLower(name)[0] != 't' && AsciiLower(name)[0] != 'f';
  }

  /** A whole number prints as its digits. */
  lemma WholeText(n: nat)
    ensures DecimalToString(Decimal(n, 0)) == NatToDigits(n)
  {
  }

  /** The variable names of the sample rules all read back as variables. */
  lemma QuantityName()
    ensures VariableName("quantidade")
  {
    SampleName("quantidade");
  }

  lemma ValueName()
    ensures VariableName("valor")
  {
    SampleName("valor");
  }

  lemma CategoryName()
    ensures VariableName("categoria")
  {
    SampleName("categoria");
  }

  lemma FirstPurchaseName()
    ensures VariableName("primeiraCompra")
  {
    SampleName("primeiraCompra");
  }

  lemma OpenedQuantityName()
    ensures VariableName("(quantidade")
  {
    SampleName("(quantidade");
  }

  lemma ClosedNumberName()
    ensures VariableName("500)")
  {
    assert AllDigits("500)"[..3]);
    SampleName("500)");
  }

  lemma Rule1Printable()
    ensures Printable(Rule1Condition)
  {
    QuantityName();
    ValueName();
  }

  lemma Rule1Left()
    ensures Show(Compare(Var("quantidade"), Gt, Number(10))) == "quantidade > 10"
  {
    WholeText(10);
  }

  lemma Rule1Right()
    ensures Show(Compare(Var("valor"), Gt, Number(1000))) == "valor > 1000"
  {
    ThousandText();
  }

  lemma ThousandText()
    ensures DecimalToString(Decimal(1000, 0)) == "1000"
  {
    WholeText(1000);
    assert NatToDigits(1000) == "1000";
  }

  lemma Rule1Shown()
    ensures ShowRule(Rule1.condition, Rule1.discountPercentage) == Rule1Text
  {
    Rule1Left();
    Rule1Right();
    WholeText(15);
  }

  /** The first rule text parses to `quantidade > 10 E valor > 1000` with 15%. */
  lemma ParsesRule1()
    ensures Parse(Rule1Text) == Success(Rule1)
  {
    Rule1Printable();
    Rule1Shown();
    RuleRoundTrip(Rule1.condition, Rule1.discountPercentage);
  }

  lemma Rule2Printable()
    ensures Printable(Rule2Condition)
  {
    CategoryName();
  }

  lemma Rule2Shown()
    ensures ShowRule(Rule2.condition, Rule2.discountPercentage) == Rule2Text
  {
    WholeText(20);
  }

  /** The second rule text parses to a comparison of `categoria` with the
      string `VIP`, granting 20%. */
  lemma ParsesRule2()
    ensures Parse(Rule2Text) == Success(Rule2)
  {
    Rule2Printable();
    Rule2Shown();
    RuleRoundTrip(Rule2.condition, Rule2.discountPercentage);
  }

  lemma Rule3Printable()
    ensures Printable(Rule3Condition)
  {
    FirstPurchaseName();
  }

  lemma Rule3Shown()
    ensures ShowRule(Rule3.condition, Rule3.discountPercentage) == Rule3Text
  {
    WholeText(10);
  }

  /** The third rule text parses to a comparison of `primeiraCompra` with
      the boolean `true`, granting 10%. */
  lemma ParsesRule3()
    ensures Parse(Rule3Text) == Success(Rule3)
  {
    Rule3Printable();
    Rule3Shown();
    RuleRoundTrip(Rule3.condition, Rule3.discountPercentage);
  }

  lemma Rule4Printable()
    ensures Printable(Rule4Condition)
  {
    OpenedQuantityName();
    ValueName();
    ClosedNumberName();
    Rule2Printable();
  }

  lemma Rule4Left()
    ensures Show(Compare(Var("(quantidade"), Gt, Number(10))) == "(quantidade > 10"
  {
    WholeText(10);
  }

  lemma Rule4Middle()
    ensures Show(Compare(Var("valor"), Gt, Var("500)"))) == "valor > 500)"
  {
  }

  lemma Rule4Right()
    ensures Show(Rule2Condition) == "categoria = \"VIP\""
  {
  }

  lemma Rule4Shown()
    ensures ShowRule(Rule4.condition, Rule4.discountPercentage) == Rule4Text
  {
    Rule4Left();
    Rule4Middle();
    Rule4Right();
    WholeText(25);
  }

  /** The fourth rule text parses, but not as its parentheses suggest. */
  lemma ParsesRule4()
    ensures Parse(Rule4Text) == Success(Rule4)
  {
    Rule4Printable();
    Rule4Shown();
    RuleRoundTrip(Rule4.condition, Rule4.discountPercentage);
  }

  lemma Rule5Printable()
    ensures Printable(Rule5Condition)
  {
    FirstPurchaseName();
    QuantityName();
  }

  lemma Rule5Right()
    ensures Show(Compare(Var("quantidade"), Ge, Number(5))) == "quantidade >= 5"
  {
    WholeText(5);
  }

  lemma Rule5Shown()
    ensures ShowRule(Rule5.condition, Rule5.discountPercentage) == Rule5Text
  {
    Rule5Right();
    WholeText(5);
  }

  /** The fifth rule text parses to `NÃO primeiraCompra E quantidade >= 5`
      with 5%. */
  lemma ParsesRule5()
    ensures Parse(Rule5Text) == Success(Rule5)
  {
    Rule5Printable();
    Rule5Shown();
    RuleRoundTrip(Rule5.condition, Rule5.discountPercentage);
  }

  // ------------------------------------------------------------ evaluation

  /** `quantidade` against a whole number: the number becomes an `int` and
      the comparison is the ordinary one. */
  lemma QuantityAgainst(op: CmpOp, n: nat, cart: Cart)
    requires n <= INT32_MAX
    ensures Eval(Compare(Var("quantidade"), op, Number(n)), cart)
      == Success(Bool(RealHolds(op, cart.itemQuantity as real, n as real)))
  {
    VariablesReadFields(cart);
    assert ValueOf(Decimal(n, 0)) == n as real;
    RoundsIntegerToItself(n);
    IntComparison(Var("quantidade"), op, Number(n), cart, cart.itemQuantity, Dec(Decimal(n, 0)));
  }

  /** `valor` against a whole number compares the amounts. */
  lemma ValueAgainst(op: CmpOp, n: nat, cart: Cart)
    ensures Eval(Compare(Var("valor"), op, Number(n)), cart)
      == Success(Bool(RealHolds(op, ValueOf(cart.totalValue), n as real)))
  {
    VariablesReadFields(cart);
    assert ValueOf(Decimal(n, 0)) == n as real;
    DecimalComparison(Var("valor"), op, Number(n), cart, cart.totalValue, Dec(Decimal(n, 0)));
  }

  /** The first rule grants 15% to carts of more than 10 items worth more
      than 1000, and nothing to the others. */
  lemma Rule1Grants(cart: Cart)
    ensures EvaluateRule(Rule1, cart)
      == Success(if cart.itemQuantity > 10 && ValueOf(cart.totalValue) > 1000.0 then Decimal(15, 0) else Decimal(0, 0))
  {
    QuantityAgainst(Gt, 10, cart);
    ValueAgainst(Gt, 1000, cart);
  }

  /** The second rule grants 20% to VIP customers and nothing to the others. */
  lemma Rule2Grants(cart: Cart)
    ensures EvaluateRule(Rule2, cart)
      == Success(if cart.customerCategory == "VIP" then Decimal(20, 0) else Decimal(0, 0))
  {
    VariablesReadFields(cart);
    assert Eval(Rule2Condition, cart) == Success(Bool(cart.customerCategory == "VIP"));
    RuleOutcome(Rule2, cart);
  }

  /** The third rule grants 10% on a first purchase and nothing otherwise. */
  lemma Rule3Grants(cart: Cart)
    ensures EvaluateRule(Rule3, cart)
      == Success(if cart.isFirstPurchase then Decimal(10, 0) else Decimal(0, 0))
  {
    VariablesReadFields(cart);
    assert ConvertTo(Bool(true), TBool) == Success(Bool(true));
    assert CompareTo(Bool(cart.isFirstPurchase), Bool(true)) == 0 <==> cart.isFirstPurchase;
    assert Eval(Rule3Condition, cart) == Success(Bool(cart.isFirstPurchase));
    RuleOutcome(Rule3, cart);
  }

  /** The fourth rule fails on every cart: its first comparison names the
      unknown variable `(quantidade`, and the `OU` evaluates that side
      first. */
  lemma Rule4AlwaysFails(cart: Cart)
    ensures EvaluateRule(Rule4, cart) == Failure(UnknownVariable("(quantidade"))
  {
    var name := "(quantidade";
    assert name[0] == '(' && VariableType(name) == None;
    assert Eval(Var(name), cart) == Failure(UnknownVariable(name));
    assert Eval(Rule4Condition, cart) == Failure(UnknownVariable(name));
    RuleOutcome(Rule4, cart);
  }

  /** The fifth rule grants 5% to a returning customer buying at least five
      items, and nothing otherwise. */
  lemma Rule5Grants(cart: Cart)
    ensures EvaluateRule(Rule5, cart)
      == Success(if !cart.isFirstPurchase && cart.itemQuantity >= 5 then Decimal(5, 0) else Decimal(0, 0))
  {
    VariablesReadFields(cart);
    QuantityAgainst(Ge, 5, cart);
    var first := Not(Var("primeiraCompra"));
    assert Eval(first, cart) == Success(Bool(!cart.isFirstPurchase));
    LogicTruthTable(first, And, Compare(Var("quantidade"), Ge, Number(5)), cart,
      !cart.isFirstPurchase, cart.itemQuantity >= 5);
    RuleOutcome(Rule5, cart);
  }

  /** The first cart gets 15% from the first rule and 5% from the fifth;
      the fourth rule fails on it. */
  lemma FirstCartOutcomes()
    ensures EvaluateRule(Rule1, Cart1) == Success(Decimal(15, 0))
    ensures EvaluateRule(Rule2, Cart1) == Success(Decimal(0, 0))
    ensures EvaluateRule(Rule3, Cart1) == Success(Decimal(0, 0))
    ensures EvaluateRule(Rule4, Cart1) == Failure(UnknownVariable("(quantidade"))
    ensures EvaluateRule(Rule5, Cart1) == Success(Decimal(5, 0))
  {
    assert ValueOf(Cart1.totalValue) == 1500.0;
    Rule1Grants(Cart1);
    Rule2Grants(Cart1);
    Rule3Grants(Cart1);
    Rule4AlwaysFails(Cart1);
    Rule5Grants(Cart1);
  }

  /** The second cart gets 20% from the second rule and 5% from the fifth. */
  lemma SecondCartOutcomes()
    ensures EvaluateRule(Rule1, Cart2) == Success(Decimal(0, 0))
    ensures EvaluateRule(Rule2, Cart2) == Success(Decimal(20, 0))
    ensures EvaluateRule(Rule3, Cart2) == Success(Decimal(0, 0))
    ensures EvaluateRule(Rule5, Cart2) == Success(Decimal(5, 0))
  {
    Rule1Grants(Cart2);
    Rule2Grants(Cart2);
    Rule3Grants(Cart2);
    Rule5Grants(Cart2);
  }

  /** The third cart, a first purchase, gets 10% from the third rule only. */
  lemma ThirdCartOutcomes()
    ensures EvaluateRule(Rule1, Cart3) == Success(Decimal(0, 0))
    ensures EvaluateRule(Rule2, Cart3) == Success(Decimal(0, 0))
    ensures EvaluateRule(Rule3, Cart3) == Success(Decimal(10, 0))
    ensures EvaluateRule(Rule5, Cart3) == Success(Decimal(0, 0))
  {
    Rule1Grants(Cart3);
    Rule2Grants(Cart3);
    Rule3Grants(Cart3);
    Rule5Grants(Cart3);
  }
}
