/** `RuleParser`: turns `"<condition> ENTAO <percentage>"` into a rule. The
    condition is parsed by first-occurrence splits only, in a fixed order:
    `" OU "`, then `" E "`, then a leading `"NÃO "`, then the first comparison
    operator of `>=`, `<=`, `>`, `<`, `=` that occurs, then a single operand.
    Parentheses have no meaning and stay inside operand text. */
module RuleParser {
  import opened Wrappers
  import opened Text
  import opened Literals
  import opened Values
  import opened Expressions

  /** The exceptions `Parse` can end in: the text does not split into two
      pieces around `ENTAO`, the percentage is not a number, or an operand is
      a lone `"`, whose quotes cannot be stripped. */
  datatype ParseError = MissingThen | BadDiscount | BadQuotedOperand

  const Then: string := "ENTAO"
  const OrSep: string := " OU "
  const AndSep: string := " E "
  const NotPrefix: string := "N\U{00C3}O "
  const Quote: string := "\""

  /** The comparison operators in the order they are tried. */
  const ComparisonOps: seq<(string, CmpOp)> := [(">=", Ge), ("<=", Le), (">", Gt), ("<", Lt), ("=", Eq)]

  /** The position in `ops` of the first operator that occurs in `text`. */
  function FirstOperator(text: string, ops: seq<(string, CmpOp)>): (r: Option<nat>)
    ensures r.Some? ==> r.value < |ops| && Contains(text, ops[r.value].0)
    ensures r.Some? ==> forall j :: 0 <= j < r.value ==> !Contains(text, ops[j].0)
    ensures r.None? ==> forall j :: 0 <= j < |ops| ==> !Contains(text, ops[j].0)
  {
    if ops == [] then None
    else if Contains(text, ops[0].0) then Some(0)
    else
      match FirstOperator(text, ops[1..])
      case None => None
      case Some(k) => Some(k + 1)
  }

  /** `ParseOperand`: a number, then `true`/`false`, then a quoted string,
      and otherwise a variable name, taken as it is. */
  function ParseOperand(text: string): (r: Result<Expr, ParseError>)
    ensures r.Success? ==> r.value.Const? || r.value.Var?
    ensures r.Failure? <==> text == Quote
    ensures r.Failure? ==> r.error == BadQuotedOperand
  {
    match ParseDecimal(text)
    case Some(d) => Success(Const(Dec(d)))
    case None =>
      match ParseBool(text)
      case Some(b) => Success(Const(Bool(b)))
      case None =>
        if StartsWith(text, Quote) && EndsWith(text, Quote) then
          if |text| < 2 then Failure(BadQuotedOperand)
          else Success(Const(Str(text[1..|text| - 1])))
        else Success(Var(text))
  }

  /** `ParseCondition`. */
  function ParseCondition(text: string): (r: Result<Expr, ParseError>)
    ensures r.Failure? ==> r.error == BadQuotedOperand
    decreases |text|
  {
    if Contains(text, OrSep) then
      var (before, after) := SplitOnce(text, OrSep);
      var left :- ParseCondition(before);
      var right :- ParseCondition(after);
      Success(Logic(left, Or, right))
    else if Contains(text, AndSep) then
      var (before, after) := SplitOnce(text, AndSep);
      var left :- ParseCondition(before);
      var right :- ParseCondition(after);
      Success(Logic(left, And, right))
    else if StartsWith(text, NotPrefix) then
      var inner :- ParseCondition(text[|NotPrefix|..]);
      Success(Not(inner))
    else
      ParseComparison(text)
  }

  /** The last two steps of `ParseCondition`: a comparison around the first
      operator that occurs or, with no operator, one operand. */
  function ParseComparison(text: string): (r: Result<Expr, ParseError>)
    ensures r.Success? ==> IsAtom(r.value)
    ensures r.Failure? ==> r.error == BadQuotedOperand
  {
    match FirstOperator(text, ComparisonOps)
    case Some(k) =>
      var (symbol, op) := ComparisonOps[k];
      assert symbol in [">=", "<=", ">", "<", "="];
      ParseComparisonAt(text, symbol, op)
    case None => ParseOperand(text)
  }

  /** A comparison with the operator `symbol`: its operands are the first two
      pieces of the text split at every `symbol`, trimmed; later pieces are
      dropped. */
  function ParseComparisonAt(text: string, symbol: string, op: CmpOp): (r: Result<Expr, ParseError>)
    requires symbol != [] && Contains(text, symbol)
    ensures r.Success? ==> r.value.Compare? && r.value.op == op
    ensures r.Success? ==> IsOperand(r.value.left) && IsOperand(r.value.right)
    ensures r.Failure? ==> r.error == BadQuotedOperand
  {
    ContainsSplitsInTwoOrMore(text, symbol);
    var parts := Split(text, symbol);
    var left :- ParseOperand(Trim(parts[0]));
    var right :- ParseOperand(Trim(parts[1]));
    Success(Compare(left, op, right))
  }

  /** `Parse`: the rule text must split into exactly two pieces around
      `ENTAO`; the trimmed second piece is the percentage and the trimmed
      first piece the condition. The rule keeps the text it came from. */
  function Parse(ruleText: string): (r: Result<Rule, ParseError>)
    ensures r.Success? ==> r.value.ruleText == ruleText
  {
    var mainParts := Split(ruleText, Then);
    if |mainParts| != 2 then Failure(MissingThen)
    else
      var conditionText := Trim(mainParts[0]);
      var discount :- ParsePercentage(Trim(mainParts[1]));
      var condition :- ParseCondition(conditionText);
      Success(Rule(condition, discount, ruleText))
  }

  /** `decimal.Parse`, which throws where `decimal.TryParse` returns false. */
  function ParsePercentage(text: string): (r: Result<Decimal, ParseError>)
    ensures r.Success? <==> ParseDecimal(text).Some?
    ensures r.Success? ==> ParseDecimal(text) == Some(r.value)
    ensures r.Failure? ==> r.error == BadDiscount
  {
    match ParseDecimal(text)
    case Some(d) => Success(d)
    case None => Failure(BadDiscount)
  }

  /** The percentage reads the text of any `decimal` back as that number. */
  lemma PercentageRoundTrip(d: Decimal)
    ensures ParsePercentage(DecimalToString(d)) == Success(d)
  {
    DecimalTextRoundTrip(d);
  }

  // ------------------------------------------------------------- grammar

  /** A leaf: a constant or a variable. */
  predicate IsOperand(e: Expr) {
    e.Const? || e.Var?
  }

  /** A leaf, or a comparison of two leaves. */
  predicate IsAtom(e: Expr) {
    IsOperand(e) || (e.Compare? && IsOperand(e.left) && IsOperand(e.right))
  }

  /** Atoms under any number of negations. */
  predicate NotLevel(e: Expr) {
    IsAtom(e) || (e.Not? && NotLevel(e.inner))
  }

  /** A right-leaning chain of `E` over negated atoms. */
  predicate AndLevel(e: Expr) {
    NotLevel(e) || (e.Logic? && e.conn == And && NotLevel(e.left) && AndLevel(e.right))
  }

  /** A right-leaning chain of `OU` over `E` chains. */
  predicate OrLevel(e: Expr) {
    AndLevel(e) || (e.Logic? && e.conn == Or && AndLevel(e.left) && OrLevel(e.right))
  }

  /** The connectives that occur anywhere in a tree. */
  function Connectives(e: Expr): set<LogicOp> {
    match e
    case Const(_) => {}
    case Var(_) => {}
    case Compare(left, _, right) => Connectives(left) + Connectives(right)
    case Logic(left, conn, right) => {conn} + Connectives(left) + Connectives(right)
    case Not(inner) => Connectives(inner)
  }

  /** No `OU` below an `E`, and no connective below a `NÃO`. */
  predicate WellNested(e: Expr) {
    match e
    case Const(_) => true
    case Var(_) => true
    case Compare(left, _, right) => WellNested(left) && WellNested(right)
    case Logic(left, conn, right) =>
      && WellNested(left) && WellNested(right)
      && (conn == And ==> Or !in Connectives(left) + Connectives(right))
    case Not(inner) => WellNested(inner) && Connectives(inner) == {}
  }

  // ---------------------------------------------------------------- lemmas

  /** `ENTAO` cannot overlap itself, so its occurrences are disjoint. */
  lemma ThenNoSelfOverlap()
    ensures NoSelfOverlap(Then)
  {
    forall d | 0 < d < |Then|
      ensures Then[d..] != Then[..|Then| - d]
    {
      assert Then[d..][0] != Then[..|Then| - d][0];
    }
  }

  /** Parsing fails for want of `ENTAO` exactly when the text does not contain
      it exactly once. */
  lemma MissingThenUnlessOnce(ruleText: string)
    ensures Parse(ruleText) == Failure(MissingThen) <==> !OccursOnce(ruleText, Then)
  {
    ThenNoSelfOverlap();
    SplitInTwoIffOnce(ruleText, Then);
    MissingThenIffNotTwoPieces(ruleText);
  }

  /** `MissingThen` is the error of a split into other than two pieces, and
      of nothing else. */
  lemma MissingThenIffNotTwoPieces(ruleText: string)
    ensures Parse(ruleText) == Failure(MissingThen) <==> |Split(ruleText, Then)| != 2
  {
    var parts := Split(ruleText, Then);
    if |parts| == 2 {
      var discount := ParsePercentage(Trim(parts[1]));
      var condition := ParseCondition(Trim(parts[0]));
      assert discount.Failure? ==> Parse(ruleText) == Failure(BadDiscount);
      assert discount.Success? && condition.Failure? ==> Parse(ruleText) == Failure(BadQuotedOperand);
    }
  }

  /** A text with exactly one `ENTAO` parses into the condition written before
      it and the percentage written after it, both trimmed; a percentage that
      is not a number fails before the condition is looked at. */
  lemma ParseAroundThen(ruleText: string, before: string, after: string)
    requires ruleText == before + Then + after
    requires !Contains(before, Then) && !Contains(after, Then)
    ensures ParseDecimal(Trim(after)).None? ==> Parse(ruleText) == Failure(BadDiscount)
    ensures Parse(ruleText).Success? <==>
      ParseDecimal(Trim(after)).Some? && ParseCondition(Trim(before)).Success?
    ensures Parse(ruleText).Success? ==>
      Parse(ruleText).value
        == Rule(ParseCondition(Trim(before)).value, ParseDecimal(Trim(after)).value, ruleText)
  {
    ThenNoSelfOverlap();
    SplitAtOnly(ruleText, Then, before, after);
    var discount := ParsePercentage(Trim(after));
    var condition := ParseCondition(Trim(before));
    if discount.Success? && condition.Success? {
      assert Parse(ruleText) == Success(Rule(condition.value, discount.value, ruleText));
    }
  }

  /** A condition containing `" OU "` is an `OU` node split at the first
      occurrence, so its left piece contains no `" OU "`. */
  lemma OrSplitsAtFirst(text: string)
    requires Contains(text, OrSep)
    ensures var (before, after) := SplitOnce(text, OrSep);
      && text == before + OrSep + after
      && !Contains(before, OrSep)
      && (ParseCondition(text).Success? <==> ParseCondition(before).Success? && ParseCondition(after).Success?)
      && (ParseCondition(text).Success? ==>
           ParseCondition(text).value
             == Logic(ParseCondition(before).value, Or, ParseCondition(after).value))
  {
    PrefixBeforeFirstLacksSep(text, OrSep, |SplitOnce(text, OrSep).0|);
    assert SplitOnce(text, OrSep).0 == text[..|SplitOnce(text, OrSep).0|];
  }

  /** A condition containing `" E "` but no `" OU "` is an `E` node split at
      the first `" E "`; neither piece contains `" OU "`. */
  lemma AndSplitsAtFirst(text: string)
    requires !Contains(text, OrSep) && Contains(text, AndSep)
    ensures var (before, after) := SplitOnce(text, AndSep);
      && text == before + AndSep + after
      && !Contains(before, AndSep)
      && !Contains(before, OrSep) && !Contains(after, OrSep)
      && (ParseCondition(text).Success? <==> ParseCondition(before).Success? && ParseCondition(after).Success?)
      && (ParseCondition(text).Success? ==>
           ParseCondition(text).value
             == Logic(ParseCondition(before).value, And, ParseCondition(after).value))
  {
    var (before, after) := SplitOnce(text, AndSep);
    assert before == text[..|before|];
    assert after == text[|before| + |AndSep|..];
    PrefixBeforeFirstLacksSep(text, AndSep, |before|);
    InfixLacksSep(text, OrSep, 0, |before|);
    InfixLacksSep(text, OrSep, |before| + |AndSep|, |text|);
    assert text[|before| + |AndSep|..|text|] == after;
  }

  /** A leading `"NÃO "` makes a negation of the rest only when the text has
      neither connective; the rest has none either. */
  lemma NotStripsPrefix(text: string)
    requires !Contains(text, OrSep) && !Contains(text, AndSep) && StartsWith(text, NotPrefix)
    ensures !Contains(text[|NotPrefix|..], OrSep) && !Contains(text[|NotPrefix|..], AndSep)
    ensures ParseCondition(text).Success? <==> ParseCondition(text[|NotPrefix|..]).Success?
    ensures ParseCondition(text).Success? ==>
      ParseCondition(text).value == Not(ParseCondition(text[|NotPrefix|..]).value)
  {
    InfixLacksSep(text, OrSep, |NotPrefix|, |text|);
    InfixLacksSep(text, AndSep, |NotPrefix|, |text|);
    assert text[|NotPrefix|..|text|] == text[|NotPrefix|..];
  }

  /** Without a connective or a leading `"NÃO "`, a condition is one
      comparison or one operand. */
  lemma AtomWithoutConnectives(text: string)
    requires !Contains(text, OrSep) && !Contains(text, AndSep) && !StartsWith(text, NotPrefix)
    ensures ParseCondition(text) == ParseComparison(text)
  {
  }

  /** A comparison of two pieces around one operator symbol: the operands
      are the two pieces, trimmed, and the only failure is a lone-quote
      operand on either side. */
  lemma ComparisonOfFirstPieces(a: string, symbol: string, b: string, op: CmpOp)
    requires symbol != [] && NoSelfOverlap(symbol)
    requires !Contains(a, symbol) && !Contains(b, symbol)
    ensures Contains(a + symbol + b, symbol)
    ensures var left := ParseOperand(Trim(a));
            var right := ParseOperand(Trim(b));
            ParseComparisonAt(a + symbol + b, symbol, op)
              == if left.Success? && right.Success? then Success(Compare(left.value, op, right.value))
                 else Failure(BadQuotedOperand)
  {
    FirstOccurrenceAfter(a + symbol + b, symbol, a, b);
    SplitAtOnly(a + symbol + b, symbol, a, b);
    ComparisonOfSplit(a + symbol + b, symbol, op, a, b);
  }

  /** Pieces after the second are dropped: `a > b > c` compares `a` with `b`
      whatever `c` is. */
  lemma ComparisonDropsLaterPieces(a: string, symbol: string, b: string, c: string, op: CmpOp)
    requires symbol != [] && NoSelfOverlap(symbol)
    requires !Contains(a, symbol) && !Contains(b, symbol)
    ensures Contains(a + symbol + b, symbol) && Contains(a + symbol + b + symbol + c, symbol)
    ensures ParseComparisonAt(a + symbol + b + symbol + c, symbol, op)
      == ParseComparisonAt(a + symbol + b, symbol, op)
  {
    SplitKeepsFirstTwo(a, symbol, b, c);
    ComparisonOfSplit(a + symbol + b + symbol + c, symbol, op, a, b);
    ComparisonOfFirstPieces(a, symbol, b, op);
  }

  /** A comparison reads its operands from the first two pieces of the split,
      whatever they are. */
  lemma ComparisonOfSplit(text: string, symbol: string, op: CmpOp, l: string, r: string)
    requires symbol != [] && Contains(text, symbol)
    requires |Split(text, symbol)| >= 2 && Split(text, symbol)[0] == l && Split(text, symbol)[1] == r
    ensures var left := ParseOperand(Trim(l));
            var right := ParseOperand(Trim(r));
            ParseComparisonAt(text, symbol, op)
              == if left.Success? && right.Success? then Success(Compare(left.value, op, right.value))
                 else Failure(BadQuotedOperand)
  {
  }

  /** Splitting `a sym b sym c` at `sym`, where `a` and `b` lack it, gives
      `a` and `b` as the first two pieces. */
  lemma SplitKeepsFirstTwo(a: string, symbol: string, b: string, c: string)
    requires symbol != [] && NoSelfOverlap(symbol)
    requires !Contains(a, symbol) && !Contains(b, symbol)
    ensures Contains(a + symbol + b + symbol + c, symbol)
    ensures var parts := Split(a + symbol + b + symbol + c, symbol);
            |parts| >= 2 && parts[0] == a && parts[1] == b
  {
    var rest := b + symbol + c;
    assert a + symbol + b + symbol + c == a + symbol + rest;
    SplitHead(a, symbol, rest);
    SplitHead(b, symbol, c);
  }

  /** Every parsed condition is an `OU` chain of `E` chains of negated
      atoms; without `" OU "` in the text it is an `E` chain, and without
      either connective it is a negated atom. */
  lemma {:induction false} ParsedConditionShape(text: string)
    requires ParseCondition(text).Success?
    ensures OrLevel(ParseCondition(text).value)
    ensures !Contains(text, OrSep) ==> AndLevel(ParseCondition(text).value)
    ensures !Contains(text, OrSep) && !Contains(text, AndSep) ==> NotLevel(ParseCondition(text).value)
    decreases |text|
  {
    if Contains(text, OrSep) {
      OrSplitsAtFirst(text);
      var (before, after) := SplitOnce(text, OrSep);
      ParsedConditionShape(before);
      ParsedConditionShape(after);
    } else if Contains(text, AndSep) {
      AndSplitsAtFirst(text);
      var (before, after) := SplitOnce(text, AndSep);
      ParsedConditionShape(before);
      ParsedConditionShape(after);
    } else if StartsWith(text, NotPrefix) {
      NotStripsPrefix(text);
      ParsedConditionShape(text[|NotPrefix|..]);
    } else {
      AtomWithoutConnectives(text);
    }
  }

  /** Negated atoms hold no connective. */
  lemma {:induction false} NotLevelHasNoConnective(e: Expr)
    requires NotLevel(e)
    ensures Connectives(e) == {} && WellNested(e)
  {
    if !IsAtom(e) {
      NotLevelHasNoConnective(e.inner);
    }
  }

  /** An `E` chain holds no `OU`. */
  lemma {:induction false} AndLevelHasNoOr(e: Expr)
    requires AndLevel(e)
    ensures Or !in Connectives(e) && WellNested(e)
  {
    if NotLevel(e) {
      NotLevelHasNoConnective(e);
    } else {
      NotLevelHasNoConnective(e.left);
      AndLevelHasNoOr(e.right);
    }
  }

  /** An `OU` chain of `E` chains is well nested. */
  lemma {:induction false} OrLevelWellNested(e: Expr)
    requires OrLevel(e)
    ensures WellNested(e)
  {
    if AndLevel(e) {
      AndLevelHasNoOr(e);
    } else {
      AndLevelHasNoOr(e.left);
      OrLevelWellNested(e.right);
    }
  }

  /** No parsed condition has an `OU` below an `E` or a connective below a
      `NÃO`. */
  lemma ParsedConditionWellNested(text: string)
    requires ParseCondition(text).Success?
    ensures WellNested(ParseCondition(text).value)
  {
    ParsedConditionShape(text);
    OrLevelWellNested(ParseCondition(text).value);
  }

  /** The text `decimal.ToString` writes for a number reads back as a number
      constant with the same digits and scale. */
  lemma NumberOperandRoundTrip(d: Decimal)
    ensures ParseOperand(DecimalToString(d)) == Success(Const(Dec(d)))
  {
    DecimalTextRoundTrip(d);
  }

  /** `True` and `False` read as boolean constants, not as variables. */
  lemma BoolOperandRoundTrip(b: bool)
    ensures ParseOperand(BoolToString(b)) == Success(Const(Bool(b)))
  {
    NotANumber(BoolToString(b));
    BoolTextRoundTrip(b);
  }

  /** Any text between double quotes reads as that string constant, even one
      that spells a number, a boolean or a variable. */
  lemma QuotedOperandRoundTrip(s: string)
    ensures ParseOperand(Quote + s + Quote) == Success(Const(Str(s)))
  {
    var t := Quote + s + Quote;
    NotANumber(t);
    TrimNoMargins(t, IsWhiteOrNul);
    assert AsciiLower(t)[0] == '"';
    assert t[1..|t| - 1] == s;
  }

  /** A text that is neither a number, `true` nor `false` and does not start
      with a quote reads as a variable of that very name: one that starts
      with a character that cannot begin a number or a quoted string, does
      not end in white space, and is not `true` or `false` in any case. */
  lemma NameOperand(name: string)
    requires name != [] && !IsWhiteOrNul(name[0]) && !IsWhiteOrNul(name[|name| - 1])
    requires !IsDigit(name[0]) && name[0] !in "+-.\""
    requires AsciiLower(name) != "true" && AsciiLower(name) != "false"
    ensures ParseOperand(name) == Success(Var(name))
  {
    NotANumber(name);
    TrimNoMargins(name, IsWhiteOrNul);
  }

  /** The comparison operators are tried in the order `>=`, `<=`, `>`, `<`,
      `=`: a two-character operator wins over its one-character prefix, and
      `=` is chosen only when no `<` or `>` occurs. */
  lemma OperatorPrecedence(text: string)
    ensures Contains(text, ">=") ==> FirstOperator(text, ComparisonOps) == Some(0)
    ensures !Contains(text, ">=") && Contains(text, "<=") ==> FirstOperator(text, ComparisonOps) == Some(1)
    ensures '=' !in text && Contains(text, ">") ==> FirstOperator(text, ComparisonOps) == Some(2)
    ensures '=' !in text && '>' !in text && Contains(text, "<") ==> FirstOperator(text, ComparisonOps) == Some(3)
    ensures '>' !in text && '<' !in text && Contains(text, "=") ==> FirstOperator(text, ComparisonOps) == Some(4)
    ensures '>' !in text && '<' !in text && '=' !in text ==> FirstOperator(text, ComparisonOps) == None
  {
    var ops := ComparisonOps;
    assert ops[1..][1..] == ops[2..] && ops[2..][1..] == ops[3..] && ops[3..][1..] == ops[4..];
    assert ops[4..] == [("=", Eq)];
    if '=' !in text {
      LacksMarkedChar(text, ">=", 1);
      LacksMarkedChar(text, "<=", 1);
      if Contains(text, ">") {
        assert FirstOperator(text, ops[2..]) == Some(0);
        assert FirstOperator(text, ops[1..]) == Some(1);
      } else if '>' !in text && Contains(text, "<") {
        assert FirstOperator(text, ops[3..]) == Some(0);
        assert FirstOperator(text, ops[2..]) == Some(1);
        assert FirstOperator(text, ops[1..]) == Some(2);
      }
    }
    if '>' !in text && '<' !in text && '=' !in text {
      LacksMarkedChar(text, ">=", 0);
      LacksMarkedChar(text, ">", 0);
      LacksMarkedChar(text, "<=", 0);
      LacksMarkedChar(text, "<", 0);
      LacksMarkedChar(text, "=", 0);
      assert FirstOperator(text, ops[4..]) == None;
      assert FirstOperator(text, ops[3..]) == None;
      assert FirstOperator(text, ops[2..]) == None;
      assert FirstOperator(text, ops[1..]) == None;
    }
    if '>' !in text && '<' !in text && Contains(text, "=") {
      LacksMarkedChar(text, ">=", 0);
      LacksMarkedChar(text, ">", 0);
      LacksMarkedChar(text, "<=", 0);
      LacksMarkedChar(text, "<", 0);
      assert FirstOperator(text, ops[4..]) == Some(0);
      assert FirstOperator(text, ops[3..]) == Some(1);
      assert FirstOperator(text, ops[2..]) == Some(2);
      assert FirstOperator(text, ops[1..]) == Some(3);
    }
  }
}
