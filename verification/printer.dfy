/** A printer for rule conditions, the inverse of the rule parser on the
    expressions it can read back: operands separated from the operator by
    single spaces, `E` chains nested to the right inside `OU` chains nested to
    the right, and names and strings free of the characters that mark the
    separators. `Parse(ShowRule(r))` gives `r` back for every such rule. */
module Printer {
  import opened Wrappers
  import opened Text
  import opened Literals
  import opened Values
  import opened Expressions
  import opened RuleParser

  // ------------------------------------------------------------ printing

  /** Where an operator sits in the parser's table of operators. */
  function OpIndex(op: CmpOp): nat {
    match op
    case Ge => 0
    case Le => 1
    case Gt => 2
    case Lt => 3
    case Eq => 4
  }

  /** The symbol the parser reads as `op`. */
  function Symbol(op: CmpOp): (s: string)
    ensures OpIndex(op) < |ComparisonOps| && ComparisonOps[OpIndex(op)] == (s, op)
  {
    match op
    case Ge => ">="
    case Le => "<="
    case Gt => ">"
    case Lt => "<"
    case Eq => "="
  }

  /** The text of a constant: a number as `decimal.ToString` writes it,
      `true` or `false`, a string between double quotes. */
  function ValueText(v: Value): string {
    match v
    case Int(i) => IntToString(i)
    case Dec(d) => DecimalToString(d)
    case Bool(b) => if b then "true" else "false"
    case Str(s) => Quote + s + Quote
  }

  /** The text of a condition, single-spaced. */
  function Show(e: Expr): string {
    match e
    case Const(v) => ValueText(v)
    case Var(name) => name
    case Compare(left, op, right) => Show(left) + " " + Symbol(op) + " " + Show(right)
    case Logic(left, And, right) => Show(left) + AndSep + Show(right)
    case Logic(left, Or, right) => Show(left) + OrSep + Show(right)
    case Not(inner) => NotPrefix + Show(inner)
  }

  /** The text of a rule: its condition, `ENTAO` and its percentage. */
  function ShowRule(condition: Expr, percentage: Decimal): string {
    Show(condition) + " " + Then + " " + DecimalToString(percentage)
  }

  // ------------------------------------------------------- what prints

  /** The letters of the separators `" OU "`, `" E "`, `ENTAO` and `"NÃO "`
      that a printed operand must not contain so that no separator appears
      inside it. */
  predicate IsMark(c: char) {
    c == 'U' || c == 'E' || c == 'T' || c == NotPrefix[1]
  }

  predicate IsOperatorChar(c: char) {
    c == '<' || c == '>' || c == '='
  }

  /** Text with no separator letter and no operator character. */
  predicate Plain(s: string) {
    forall i :: 0 <= i < |s| ==> !IsMark(s[i]) && !IsOperatorChar(s[i])
  }

  /** Text that does not read as a number: its first character cannot
      start one, or a run of digits is followed by something other than a
      digit or a decimal point. */
  predicate NotNumeric(s: string) {
    || (s != [] && !IsDigit(s[0]) && s[0] != '+' && s[0] != '-' && s[0] != '.')
    || exists k :: 0 < k < |s| && AllDigits(s[..k]) && !IsDigit(s[k]) && s[k] != '.'
  }

  /** A name the parser reads back as this very variable: nothing to trim,
      not a number, not `true` or `false` in any case, not quoted. */
  predicate VariableName(name: string) {
    && name != [] && !IsWhiteOrNul(name[0]) && !IsWhiteOrNul(name[|name| - 1])
    && name[0] != '"' && NotNumeric(name)
    && AsciiLower(name) != "true" && AsciiLower(name) != "false"
    && Plain(name)
  }

  /** An operand that prints and reads back: a variable with such a name, a
      `decimal` or boolean constant, or a string constant without separator
      letters or operator characters. `int` constants never come out of the
      parser, which reads every number as a `decimal`. */
  predicate PrintableOperand(e: Expr) {
    match e
    case Var(name) => VariableName(name)
    case Const(Dec(_)) => true
    case Const(Bool(_)) => true
    case Const(Str(s)) => Plain(s)
    case _ => false
  }

  predicate PrintableAtom(e: Expr) {
    || PrintableOperand(e)
    || (e.Compare? && PrintableOperand(e.left) && PrintableOperand(e.right))
  }

  predicate PrintableNot(e: Expr) {
    match e
    case Not(inner) => PrintableNot(inner)
    case _ => PrintableAtom(e)
  }

  predicate PrintableAnd(e: Expr) {
    match e
    case Logic(left, And, right) => PrintableNot(left) && PrintableAnd(right)
    case _ => PrintableNot(e)
  }

  /** An `OU` chain, nested to the right, of `E` chains, nested to the right,
      of negated atoms: the shape `ParseCondition` builds. */
  predicate Printable(e: Expr) {
    match e
    case Logic(left, Or, right) => PrintableAnd(left) && Printable(right)
    case _ => PrintableAnd(e)
  }

  /** Text with no separator letter; operator characters may occur. */
  predicate Unmarked(s: string) {
    forall i :: 0 <= i < |s| ==> !IsMark(s[i])
  }

  /** Text that `Trim` leaves as it is. */
  predicate Tight(s: string) {
    s != [] && !IsWhiteSpace(s[0]) && !IsWhiteSpace(s[|s| - 1])
  }

  // ---------------------------------------------------------- operands

  /** A printable operand reads back as itself, and its text has nothing
      to trim, no separator letter and no operator character. */
  lemma OperandRoundTrip(e: Expr)
    requires PrintableOperand(e)
    ensures Tight(Show(e)) && Plain(Show(e))
    ensures ParseOperand(Show(e)) == Success(e)
  {
    match e
    case Var(name) =>
      VariableNameOperand(name);
    case Const(Dec(d)) =>
      DecimalPlain(d);
      NumberOperandRoundTrip(d);
    case Const(Bool(b)) =>
      BoolWordPlain(b);
      WordOperand(Show(e), b);
    case Const(Str(s)) =>
      QuotedPlain(s);
      QuotedOperandRoundTrip(s);
  }

  lemma DecimalPlain(d: Decimal)
    ensures Tight(DecimalToString(d)) && Plain(DecimalToString(d))
  {
    DecimalTextChars(d);
  }

  lemma BoolWordPlain(b: bool)
    ensures var w := if b then "true" else "false";
            Tight(w) && Plain(w) && AsciiLower(w) == w
  {
  }

  lemma QuotedPlain(s: string)
    requires Plain(s)
    ensures Tight(Quote + s + Quote) && Plain(Quote + s + Quote)
  {
    var t := Quote + s + Quote;
    forall i | 0 <= i < |t|
      ensures !IsMark(t[i]) && !IsOperatorChar(t[i])
    {
      if 0 < i < |t| - 1 {
        assert t[i] == s[i - 1];
      }
    }
  }

  /** A variable name reads back as that variable. */
  lemma VariableNameOperand(name: string)
    requires VariableName(name)
    ensures ParseOperand(name) == Success(Var(name))
  {
    if !IsDigit(name[0]) && name[0] != '+' && name[0] != '-' && name[0] != '.' {
      NotANumber(name);
    } else {
      var k :| 0 < k < |name| && AllDigits(name[..k]) && !IsDigit(name[k]) && name[k] != '.';
      DigitsThenOtherNotANumber(name, k);
    }
    TrimNoMargins(name, IsWhiteOrNul);
  }

  /** `true` and `false` in any letter case read as boolean constants. */
  lemma WordOperand(operand: string, b: bool)
    requires AsciiLower(operand) == (if b then "true" else "false")
    ensures ParseOperand(operand) == Success(Const(Bool(b)))
  {
    WordEnds(operand, if b then "true" else "false");
    NotANumber(operand);
    WordIsBool(operand, b);
  }

  lemma WordEnds(operand: string, word: string)
    requires word == "true" || word == "false"
    requires AsciiLower(operand) == word
    ensures operand != [] && operand[0] in "tTfF" && operand[|operand| - 1] in "eE"
  {
    var lower := AsciiLower(operand);
    assert lower[0] == word[0] && lower[|lower| - 1] == word[|word| - 1];
  }

  lemma WordIsBool(operand: string, b: bool)
    requires operand != [] && operand[0] in "tTfF" && operand[|operand| - 1] in "eE"
    requires AsciiLower(operand) == (if b then "true" else "false")
    ensures ParseBool(operand) == Some(b)
  {
    TrimNoMargins(operand, IsWhiteOrNul);
  }

  // ------------------------------------------------------------- atoms

  /** A printable atom reads back as itself; its text has nothing to trim
      and no separator letter. */
  lemma AtomRoundTrip(e: Expr)
    requires PrintableAtom(e)
    ensures Tight(Show(e)) && Unmarked(Show(e))
    ensures ParseComparison(Show(e)) == Success(e)
  {
    if PrintableOperand(e) {
      OperandRoundTrip(e);
      OperandAtom(Show(e), e);
    } else {
      var Compare(left, op, right) := e;
      OperandRoundTrip(left);
      OperandRoundTrip(right);
      ComparisonText(Show(left), op, Show(right));
      ComparisonOfOperands(Show(left), op, Show(right), left, right);
    }
  }

  /** Text without operator characters is parsed as one operand. */
  lemma OperandAtom(text: string, e: Expr)
    requires Plain(text) && ParseOperand(text) == Success(e)
    ensures ParseComparison(text) == Success(e)
  {
    OperatorPrecedence(text);
  }

  /** The operator's symbol: operator characters only, and no proper
      suffix equal to a prefix. */
  lemma SymbolFacts(op: CmpOp)
    ensures Symbol(op) != [] && NoSelfOverlap(Symbol(op))
    ensures forall i :: 0 <= i < |Symbol(op)| ==> IsOperatorChar(Symbol(op)[i])
  {
    match op
    case Ge => assert Symbol(op)[1..] == "=" && Symbol(op)[..1] == ">";
    case Le => assert Symbol(op)[1..] == "=" && Symbol(op)[..1] == "<";
    case _ =>
  }

  /** No operator tried before the `k`-th can occur in `text`, judged by
      the characters it lacks. */
  predicate NothingEarlier(text: string, k: nat) {
    || k == 0
    || (k == 1 && '>' !in text)
    || (k == 2 && '=' !in text)
    || (k == 3 && '=' !in text && '>' !in text)
    || (k == 4 && '>' !in text && '<' !in text)
  }

  /** The text of a comparison of two plain operands: nothing to trim, no
      separator letter, split in two by its operator, which is the first
      one the parser tries that occurs. */
  lemma ComparisonText(left: string, op: CmpOp, right: string)
    requires Tight(left) && Plain(left) && Tight(right) && Plain(right)
    ensures var text := left + " " + Symbol(op) + " " + right;
            && Tight(text) && Unmarked(text)
            && FirstOperator(text, ComparisonOps) == Some(OpIndex(op))
            && Split(text, Symbol(op)) == [left + " ", " " + right]
  {
    var symbol := Symbol(op);
    var text := left + " " + symbol + " " + right;
    SymbolFacts(op);
    ComparisonChars(left, op, right);
    LacksMarkedChar(left + " ", symbol, 0);
    LacksMarkedChar(" " + right, symbol, 0);
    FirstOccurrenceMarked(text, symbol, left + " ", " " + right, 0);
    OperatorChosen(text, OpIndex(op));
    SplitAtOnly(text, symbol, left + " ", " " + right);
  }

  lemma ComparisonChars(left: string, op: CmpOp, right: string)
    requires Tight(left) && Plain(left) && Tight(right) && Plain(right)
    ensures var text := left + " " + Symbol(op) + " " + right;
            && Tight(text) && Unmarked(text) && NothingEarlier(text, OpIndex(op))
            && Symbol(op)[0] !in left + " " && Symbol(op)[0] !in " " + right
  {
    var symbol := Symbol(op);
    var text := left + " " + symbol + " " + right;
    SymbolFacts(op);
    assert text[0] == left[0] && text[|text| - 1] == right[|right| - 1];
    forall i | 0 <= i < |text|
      ensures !IsMark(text[i])
      ensures IsOperatorChar(text[i]) ==> text[i] in symbol
    {
      if i < |left| {
        assert text[i] == left[i];
      } else if |left| < i < |left| + 1 + |symbol| {
        assert text[i] == symbol[i - |left| - 1];
      } else if |left| + |symbol| + 1 < i {
        assert text[i] == right[i - |left| - |symbol| - 2];
      }
    }
  }

  lemma OperatorChosen(text: string, k: nat)
    requires k < |ComparisonOps| && NothingEarlier(text, k) && Contains(text, ComparisonOps[k].0)
    ensures FirstOperator(text, ComparisonOps) == Some(k)
  {
    OperatorPrecedence(text);
    if k == 1 {
      LacksMarkedChar(text, ">=", 0);
    }
    assert k == 0 || k == 1 || k == 2 || k == 3 || k == 4;
  }

  /** A comparison whose text has been split around its operator reads as
      the comparison of the two trimmed pieces. */
  lemma ComparisonOfOperands(left: string, op: CmpOp, right: string, l: Expr, r: Expr)
    requires Tight(left) && Tight(right)
    requires ParseOperand(left) == Success(l) && ParseOperand(right) == Success(r)
    requires var text := left + " " + Symbol(op) + " " + right;
             && FirstOperator(text, ComparisonOps) == Some(OpIndex(op))
             && Split(text, Symbol(op)) == [left + " ", " " + right]
    ensures ParseComparison(left + " " + Symbol(op) + " " + right) == Success(Compare(l, op, r))
  {
    TrimmedBeforeSpace(left);
    TrimmedAfterSpace(right);
  }

  lemma TrimmedBeforeSpace(s: string)
    requires Tight(s)
    ensures Trim(s + " ") == s
  {
    TrimPadded("", s, " ", IsWhiteSpace);
    assert "" + s + " " == s + " ";
  }

  lemma TrimmedAfterSpace(s: string)
    requires Tight(s)
    ensures Trim(" " + s) == s
  {
    TrimPadded(" ", s, "", IsWhiteSpace);
    assert " " + s + "" == " " + s;
  }

  // ------------------------------------------------------- connectives

  /** Text with none of the letters of `" OU "`, `" E "` and `ENTAO` that
      the splits look for. */
  predicate NoConnective(s: string) {
    'U' !in s && 'E' !in s && 'T' !in s
  }

  /** A printable negation chain reads back as itself. */
  lemma {:induction false} NotRoundTrip(e: Expr)
    requires PrintableNot(e)
    ensures Tight(Show(e)) && NoConnective(Show(e))
    ensures ParseCondition(Show(e)) == Success(e)
  {
    match e
    case Not(inner) =>
      NotRoundTrip(inner);
      NotText(Show(inner));
      NotStripsPrefix(Show(e));
    case _ =>
      AtomRoundTrip(e);
      UnmarkedLacksLetters(Show(e));
      AtomCondition(Show(e));
  }

  lemma UnmarkedLacksLetters(s: string)
    requires Unmarked(s)
    ensures NoConnective(s) && NotPrefix[1] !in s
  {
  }

  /** `"NÃO "` before a tight text without connective letters. */
  lemma NotText(inner: string)
    requires Tight(inner) && NoConnective(inner)
    ensures var text := NotPrefix + inner;
            && Tight(text) && NoConnective(text)
            && !Contains(text, OrSep) && !Contains(text, AndSep) && StartsWith(text, NotPrefix)
            && text[|NotPrefix|..] == inner
  {
    var text := NotPrefix + inner;
    assert text[|text| - 1] == inner[|inner| - 1];
    assert text[..|NotPrefix|] == NotPrefix;
    LacksMarkedChar(text, OrSep, 2);
    LacksMarkedChar(text, AndSep, 1);
  }

  /** A condition text without a connective letter or `Ã` is parsed as one
      comparison or operand. */
  lemma AtomCondition(text: string)
    requires NoConnective(text) && NotPrefix[1] !in text
    ensures ParseCondition(text) == ParseComparison(text)
  {
    LacksMarkedChar(text, OrSep, 2);
    LacksMarkedChar(text, AndSep, 1);
    if |NotPrefix| <= |text| {
      assert text[..|NotPrefix|][1] != NotPrefix[1];
    }
    AtomWithoutConnectives(text);
  }

  /** A printable `E` chain reads back as itself. */
  lemma {:induction false} AndRoundTrip(e: Expr)
    requires PrintableAnd(e)
    ensures Tight(Show(e)) && 'U' !in Show(e) && 'T' !in Show(e)
    ensures ParseCondition(Show(e)) == Success(e)
  {
    match e
    case Logic(left, And, right) =>
      NotRoundTrip(left);
      AndRoundTrip(right);
      AndText(Show(left), Show(right));
      SplitCondition(Show(e), AndSep, Show(left), Show(right), left, And, right);
    case _ =>
      NotRoundTrip(e);
  }

  /** A printable condition reads back as itself. */
  lemma {:induction false} ConditionRoundTrip(e: Expr)
    requires Printable(e)
    ensures Tight(Show(e)) && 'T' !in Show(e)
    ensures ParseCondition(Show(e)) == Success(e)
  {
    match e
    case Logic(left, Or, right) =>
      AndRoundTrip(left);
      ConditionRoundTrip(right);
      OrText(Show(left), Show(right));
      SplitCondition(Show(e), OrSep, Show(left), Show(right), left, Or, right);
    case _ =>
      AndRoundTrip(e);
  }

  /** The text of an `E` node: its first `" E "` is the join, and it has
      no `" OU "`. */
  lemma AndText(left: string, right: string)
    requires Tight(left) && NoConnective(left) && Tight(right) && 'U' !in right && 'T' !in right
    ensures var text := left + AndSep + right;
            && Tight(text) && 'U' !in text && 'T' !in text
            && !Contains(text, OrSep) && Contains(text, AndSep) && SplitOnce(text, AndSep) == (left, right)
  {
    JoinedText(left, AndSep, 1, right);
    LacksMarkedChar(left + AndSep + right, OrSep, 2);
  }

  /** The text of an `OU` node: its first `" OU "` is the join. */
  lemma OrText(left: string, right: string)
    requires Tight(left) && 'U' !in left && 'T' !in left && Tight(right) && 'T' !in right
    ensures var text := left + OrSep + right;
            && Tight(text) && 'T' !in text
            && Contains(text, OrSep) && SplitOnce(text, OrSep) == (left, right)
  {
    JoinedText(left, OrSep, 2, right);
  }

  /** A condition split at its first connective, `" OU "` first. */
  lemma SplitCondition(text: string, sep: string, left: string, right: string, l: Expr, conn: LogicOp, r: Expr)
    requires sep == (if conn == Or then OrSep else AndSep)
    requires conn == And ==> !Contains(text, OrSep)
    requires Contains(text, sep) && SplitOnce(text, sep) == (left, right)
    requires ParseCondition(left) == Success(l) && ParseCondition(right) == Success(r)
    ensures ParseCondition(text) == Success(Logic(l, conn, r))
  {
    var (before, after) := SplitOnce(text, sep);
    assert before == left && after == right;
    if conn == Or {
      assert ParseCondition(text) == Success(Logic(l, Or, r));
    } else {
      assert ParseCondition(text) == Success(Logic(l, And, r));
    }
  }

  /** Two tight texts joined by a space-delimited separator whose `k`-th
      character, found nowhere earlier in it, the left text lacks: the
      separator's first occurrence is the join. */
  lemma JoinedText(left: string, sep: string, k: nat, right: string)
    requires Tight(left) && Tight(right) && 2 <= |sep| && sep[0] == ' ' && sep[|sep| - 1] == ' '
    requires k < |sep| && sep[k] !in left && forall m :: 0 <= m < k ==> sep[m] != sep[k]
    ensures var text := left + sep + right;
            && Tight(text) && Contains(text, sep) && SplitOnce(text, sep) == (left, right)
            && ('T' !in left && 'T' !in sep && 'T' !in right ==> 'T' !in text)
            && ('U' !in left && 'U' !in sep && 'U' !in right ==> 'U' !in text)
  {
    var text := left + sep + right;
    assert text[0] == left[0] && text[|text| - 1] == right[|right| - 1];
    FirstOccurrenceMarked(text, sep, left, right, k);
    var (before, after) := SplitOnce(text, sep);
    assert |before| == |left|;
    assert before == text[..|left|] == left;
    assert after == text[|left| + |sep|..] == right;
  }

  // -------------------------------------------------------------- rules

  /** A rule whose condition prints reads back from its text: the same
      condition, the same percentage, and the text itself. */
  lemma RuleRoundTrip(condition: Expr, percentage: Decimal)
    requires Printable(condition)
    ensures Parse(ShowRule(condition, percentage))
      == Success(Rule(condition, percentage, ShowRule(condition, percentage)))
  {
    ConditionRoundTrip(condition);
    DecimalPlain(percentage);
    DecimalTextRoundTrip(percentage);
    assert 'T' !in DecimalToString(percentage) by {
      assert forall i :: 0 <= i < |DecimalToString(percentage)| ==> !IsMark(DecimalToString(percentage)[i]);
    }
    RuleOfTexts(Show(condition), DecimalToString(percentage), condition, percentage);
  }

  /** A condition text and a number text, both without white margins or a
      `T`, joined around `ENTAO` parse as the rule of the two. */
  lemma RuleOfTexts(c: string, p: string, condition: Expr, percentage: Decimal)
    requires Tight(c) && 'T' !in c && ParseCondition(c) == Success(condition)
    requires Tight(p) && 'T' !in p && ParseDecimal(p) == Some(percentage)
    ensures Parse(c + " " + Then + " " + p) == Success(Rule(condition, percentage, c + " " + Then + " " + p))
  {
    var text := c + " " + Then + " " + p;
    SplitAroundThen(text, c, p);
    TrimmedBeforeSpace(c);
    TrimmedAfterSpace(p);
    RuleOfPieces(text, c + " ", " " + p, condition, percentage);
  }

  lemma SplitAroundThen(ruleText: string, condText: string, pctText: string)
    requires ruleText == condText + " " + Then + " " + pctText
    requires Then[2] !in condText && Then[2] !in pctText
    ensures Split(ruleText, Then) == [condText + " ", " " + pctText]
  {
    LacksMarkedChar(condText + " ", Then, 2);
    LacksMarkedChar(" " + pctText, Then, 2);
    ThenNoSelfOverlap();
    SplitAtOnly(ruleText, Then, condText + " ", " " + pctText);
  }

  lemma RuleOfPieces(ruleText: string, l: string, r: string, condition: Expr, pct: Decimal)
    requires Split(ruleText, Then) == [l, r]
    requires ParseDecimal(Trim(r)) == Some(pct) && ParseCondition(Trim(l)) == Success(condition)
    ensures Parse(ruleText) == Success(Rule(condition, pct, ruleText))
  {
  }
}
