# Discount rule interpreter, modelled in Dafny

The system reads discount rules written in a small Portuguese rule language. A rule is `<condition> ENTAO <percentage>`, for example `quantidade > 10 E valor > 1000 ENTAO 15`. The system evaluates each rule against a shopping cart. It is an instance of the Interpreter pattern:

- `RuleParser` splits the rule text into an expression tree.
- The `IExpression` nodes (constant, variable, comparison, logical `E`/`OU`, `NÃO`) interpret that tree against a cart.
- `DiscountRule.Evaluate` turns the condition's outcome into the percentage or zero.

The model keeps the structure of the program:

| file | module | models |
|---|---|---|
| `wrappers.dfy` | `Wrappers` | `Option` and `Result`; a `Failure` stands for an exception |
| `text.dfy` | `Text` | the ordinal string operations the parser uses: `Trim`, `Contains`, `IndexOf`, `StartsWith`, `EndsWith`, and `Split` with and without a piece count |
| `literals.dfy` | `Literals` | the library's number and boolean parsing and formatting: `decimal.TryParse`, `int.Parse`, `bool.TryParse`, `ToString`, and the rounding `Convert.ToInt32(decimal)` does |
| `values.dfy` | `Values` | the boxed values `Interpret` returns (`int`, `decimal`, `bool`, `string`), `Convert.ChangeType` and `IComparable.CompareTo` |
| `cart.dfy` | `Carts` | `ShoppingCart` as an immutable record |
| `expression.dfy` | `Expressions` | the expression tree, `Interpret` as `Eval`, and `DiscountRule.Evaluate` as `EvaluateRule` |
| `parser.dfy` | `RuleParser` | `Parse`, `ParseCondition` and `ParseOperand` |
| `printer.dfy` | `Printer` | no counterpart in the C# code: a printer from expression trees back to rule text, the partner against which the parser is proved a left inverse |
| `samples.dfy` | `Samples` | the demonstration program's three carts and five rules, and what each rule grants each cart |

How the C# code's behaviour shows up in the model:

- **Evaluation** returns a `Result`. Its three errors are the exceptions `Interpret` can throw:
  - an unknown variable name;
  - a right operand that `Convert.ChangeType` cannot turn into the left operand's type;
  - a non-boolean value cast to `bool`.
- **Parsing** returns a `Result` with three errors:
  - the text does not split into two pieces around `ENTAO`;
  - the percentage is not a number;
  - an operand is a lone `"`, whose quotes `Substring(1, -1)` cannot strip.
- **Values are boxed.** The cart's quantity is an `int` and its value a `decimal`.
  - Every comparison converts the right operand to the runtime type of the left one.
  - Comparing `quantidade` with `10.5` therefore rounds `10.5` half to even, to `10`.
  - A `decimal` keeps its scale (`Decimal(mantissa, scale)`), because `decimal.ToString` writes trailing zeros and a conversion to `string` goes through it.
- **Every comparison is an `IComparable` comparison.** All four value types implement `IComparable`, so the comparison code's later branches for booleans and strings and its final `return false` are never reached.
  - Booleans order `false` before `true`.
  - Strings compare in ordinal order.
  - All five operators apply to every type.
- **Operators are closed enumerations** (`CmpOp`, `LogicOp`). The parser only ever builds valid operators, so the "invalid operator" exceptions cannot occur.
- **Operand classification is case-insensitive for booleans.** `ParseOperand` tries a number first, then `true`/`false` in any letter case.
- **Empty operands are variables.** Any operand text that is not a number, a boolean or a quoted string becomes a variable, the empty text included. Evaluating a variable fails unless its name is one of the four cart fields.
- **Rule evaluation casts its condition to `bool`.** It returns the percentage or the `decimal` zero, never an option.
- **The parser inverts a printer.** `Printer.Show` writes a condition single-spaced, and `Printer.RuleRoundTrip` proves that parsing the printed rule gives back the same tree, percentage and text. It holds for every tree of the shape the parser produces (an `OU` chain of `E` chains of negated atoms), provided the printed names and strings cannot be mistaken for separators, operators, numbers or booleans.
- **Parentheses are ordinary characters.** The program's fourth sample rule, `(quantidade > 10 OU valor > 500) E categoria = "VIP" ENTAO 25`, therefore parses with a variable named `(quantidade`, and evaluating it fails with an unknown-variable error on every cart.

## Model

| member | source | states |
|---|---|---|
| Text.TrimWith | src/RuleParser.cs:16-17 | the trimmed text is the infix of the input between its white margins, and starts and ends with a non-white character |
| Text.Trim | src/RuleParser.cs:16 | `string.Trim()` gives the infix of its input between white margins, and that infix starts and ends with a character that is not white space |
| Text.SplitOnce | src/RuleParser.cs:31 | a two-piece split gives the text before and after the first occurrence of the separator, which glue back into the input |
| Text.JoinSplit | src/RuleParser.cs:12 | splitting loses and adds nothing: joining the pieces with the separator restores the text |
| Text.SplitPiecesLackSep | src/RuleParser.cs:52 | no piece of a split contains the separator |
| Text.SplitInTwoIffOnce | src/RuleParser.cs:12-13 | a split yields exactly two pieces if and only if a separator that cannot overlap itself occurs exactly once |
| Text.SplitAtOnly | src/RuleParser.cs:12 | two pieces that lack such a separator, glued with one copy of it, split back into exactly those pieces |
| Literals.DecimalTextRoundTrip | src/RuleParser.cs:65 | the number parser reads the text `decimal.ToString` writes back as the same mantissa and scale |
| Literals.IntTextRoundTrip | src/Expression.cs:59 | `int.Parse` reads the text of every `int` back as that `int` |
| Literals.BoolTextRoundTrip | src/RuleParser.cs:68 | `bool.TryParse` reads `True` and `False` back as the booleans they name |
| Literals.NotANumber | src/RuleParser.cs:65 | a text starting with neither white space, a sign, a digit nor a point, and not ending in white space, is not a number |
| Literals.RoundHalfEven | src/Expression.cs:59 | the result is within one half of the input, and is the even neighbour at a tie |
| Literals.DecimalToInt32 | src/Expression.cs:59 | a `decimal` converts to an `int` exactly when its half-to-even rounding is in the `int` range, and then to that rounding |
| Values.ChangeType | src/Expression.cs:59 | a successful conversion has the target type, and a value already of that type is returned unchanged |
| Values.SafeConversionSucceeds | src/Expression.cs:59 | conversions to the same type, to `string`, and among `int`, `decimal` and `bool` other than `decimal` to `int` never fail |
| Values.ChangeTypeTextRoundTrip | src/Expression.cs:59 | converting a number or boolean to `string` and back to its own type returns the same value |
| Values.OrdinalCompare | src/Expression.cs:59 | the sign of the result says whether the first string is ordinally before, equal to, or after the second |
| Values.CompareTo | src/Expression.cs:57-59 | `int` and `decimal` compare by signed value, booleans with `false` first, strings in ordinal order; zero means equal |
| Values.CompareToAntisymmetric | src/Expression.cs:59 | swapping the operands of `CompareTo` negates its result |
| Expressions.ConstantIgnoresCart | src/Expression.cs:15-16 | a constant evaluates to its value on every cart, with no failure |
| Expressions.Lookup | src/Expression.cs:25-35 | exactly the four variable names succeed, with their field's type; any other name fails with that name |
| Expressions.VariablesReadFields | src/Expression.cs:27-32 | `quantidade`, `valor`, `categoria` and `primeiraCompra` read item quantity, total value, category and first-purchase flag |
| Expressions.LookupDeterminesCart | src/Expression.cs:27-34 | two carts are equal exactly when every variable name looks up the same in both, so each field is exposed |
| Expressions.ConvertTo | src/Expression.cs:59 | the converted value has the target type, and a failed conversion is an error naming the value and type |
| Expressions.AsBool | src/Expression.cs:109 | the cast succeeds exactly on booleans and otherwise fails with the offending value |
| Expressions.Eval | src/Expression.cs:52-124 | every successful comparison, logical node and negation evaluates to a boolean |
| Expressions.ComparisonErrorOrder | src/Expression.cs:54-59 | the left operand's error comes first, then the right one's, then a failed conversion, which is an error and never `false` |
| Expressions.ComparisonFailsIndependentlyOfOperator | src/Expression.cs:54-68 | whether a comparison fails, and with what error, does not depend on its operator |
| Expressions.HoldsMeansRealHolds | src/Expression.cs:60-66 | each operator applied to a comparison result means the same as on the two numbers compared |
| Expressions.DecimalComparison | src/Expression.cs:59-66 | a `decimal` left operand compares with an `int` or `decimal` by value, with the standard meaning of each operator |
| Expressions.IntComparison | src/Expression.cs:59-66 | an `int` left operand compares with a number rounded half to even; a `decimal` outside the `int` range is a conversion error |
| Expressions.GeIsGtOrEq | src/Expression.cs:62-65 | `>=` holds exactly when `>` or `=` holds |
| Expressions.LeIsLtOrEq | src/Expression.cs:63-66 | `<=` holds exactly when `<` or `=` holds |
| Expressions.SwappedOperands | src/Expression.cs:59-66 | for operands of the same type, `a > b` is `b < a`, `a >= b` is `b <= a` and `a = b` is `b = a` |
| Expressions.AndShortCircuits | src/Expression.cs:109-112 | `E` with a false left operand is false whatever its right operand, even one that cannot be evaluated |
| Expressions.OrShortCircuits | src/Expression.cs:109-113 | `OU` with a true left operand is true whatever its right operand |
| Expressions.LogicTruthTable | src/Expression.cs:107-116 | on two booleans `E` is conjunction and `OU` disjunction |
| Expressions.LogicNeedsBooleans | src/Expression.cs:109-113 | a non-boolean left operand is an invalid cast, and so is a non-boolean right operand the left one does not decide |
| Expressions.NotNegates | src/Expression.cs:124 | `NÃO` negates a boolean, fails on any other value, and passes its operand's error on |
| Expressions.DoubleNegation | src/Expression.cs:124 | negating a boolean condition twice gives it back |
| Expressions.EvaluateRule | src/Expression.cs:141-144 | a rule yields its percentage or zero, and succeeds exactly when its condition evaluates to a boolean |
| Expressions.RuleOutcome | src/Expression.cs:141-144 | true grants the percentage, false grants zero, a non-boolean condition is an invalid cast, and a condition's error passes on |
| Expressions.WellTypedEvaluates | src/Expression.cs:52-124 | an expression whose type can be read off the tree evaluates without error on every cart, to a value of that type |
| Expressions.WellTypedRuleNeverFails | src/Expression.cs:141-144 | a rule with a well-typed boolean condition never fails |
| Expressions.StrictSuccessAgrees | src/Expression.cs:109-113 | wherever evaluating both operands of every connective succeeds, the short-circuit evaluator gives the same value |
| Expressions.ShortCircuitAvoidsError | src/Expression.cs:111-113 | `false E x` with an unknown `x` is false, while evaluating both operands would fail |
| RuleParser.FirstOperator | src/RuleParser.cs:47-50 | the chosen operator occurs in the text and no operator tried before it does; with none chosen, no operator occurs |
| RuleParser.ParseOperand | src/RuleParser.cs:63-76 | an operand parses to a constant or a variable, and fails exactly on a lone `"` |
| RuleParser.ParseComparison | src/RuleParser.cs:47-60 | without a connective or negation the condition is one operand or one comparison of two operands |
| RuleParser.ParseComparisonAt | src/RuleParser.cs:52-55 | a comparison node carries the chosen operator and two operands, a constant or a variable each, taken from the first two pieces of the split |
| RuleParser.ComparisonOfFirstPieces | src/RuleParser.cs:52-55 | with one occurrence of the operator, the comparison's operands are the two trimmed pieces around it, and it fails exactly when either piece is a lone `"` |
| RuleParser.ComparisonDropsLaterPieces | src/RuleParser.cs:52-55 | only the first two pieces of the split are read: `a > b > c` parses as `a > b`, whatever `c` is |
| RuleParser.ComparisonOfSplit | src/RuleParser.cs:52-55 | a comparison's operands are the trimmed first and second pieces of the split, and it fails exactly when either is a lone `"` |
| RuleParser.ParseCondition | src/RuleParser.cs:23-61 | a condition fails to parse only because of a lone-quote operand |
| RuleParser.Parse | src/RuleParser.cs:9-21 | a parsed rule keeps the input text verbatim |
| RuleParser.ParsePercentage | src/RuleParser.cs:17 | `decimal.Parse` succeeds exactly when `decimal.TryParse` does, with the same number, and otherwise fails with the bad-discount error only |
| RuleParser.PercentageRoundTrip | src/RuleParser.cs:17 | the percentage reads the text of any `decimal` back as that number |
| RuleParser.MissingThenIffNotTwoPieces | src/RuleParser.cs:12-14 | the missing-`ENTAO` error is raised exactly when the split does not give two pieces |
| RuleParser.MissingThenUnlessOnce | src/RuleParser.cs:12-14 | parsing fails for want of `ENTAO` exactly when the text does not contain it exactly once |
| RuleParser.ParseAroundThen | src/RuleParser.cs:12-20 | with one `ENTAO`, the rule is the condition parsed from the trimmed text before it and the number parsed from the trimmed text after it; a bad number fails first |
| RuleParser.OrSplitsAtFirst | src/RuleParser.cs:29-33 | a condition containing `" OU "` is an `OU` node split at the first occurrence, whose left piece has no `" OU "` |
| RuleParser.AndSplitsAtFirst | src/RuleParser.cs:35-39 | without `" OU "`, a condition containing `" E "` is an `E` node split at the first `" E "`, and neither piece has `" OU "` |
| RuleParser.NotStripsPrefix | src/RuleParser.cs:41-44 | without a connective, a leading `"NÃO "` is stripped and the rest, also free of connectives, is parsed under a negation |
| RuleParser.AtomWithoutConnectives | src/RuleParser.cs:46-60 | with no connective and no `"NÃO "` prefix, the condition is parsed as a comparison or a single operand |
| RuleParser.ParsedConditionShape | src/RuleParser.cs:23-61 | every parsed condition is an `OU` chain of `E` chains of negated atoms; without `" OU "` it is an `E` chain, and without either connective a negated atom |
| RuleParser.ParsedConditionWellNested | src/RuleParser.cs:29-44 | no parsed condition has an `OU` below an `E`, or any connective below a `NÃO` |
| RuleParser.NumberOperandRoundTrip | src/RuleParser.cs:65-66 | the text of any `decimal` reads as that number constant |
| RuleParser.BoolOperandRoundTrip | src/RuleParser.cs:68-69 | `True` and `False` read as boolean constants |
| RuleParser.QuotedOperandRoundTrip | src/RuleParser.cs:71-72 | any text in double quotes reads as that string constant, even one that spells a number, a boolean or a name |
| RuleParser.NameOperand | src/RuleParser.cs:65-75 | a name without white margins that starts with neither a digit, a sign, a point nor a quote, and is not `true` or `false` in any letter case, reads as a variable of that name |
| RuleParser.OperatorPrecedence | src/RuleParser.cs:47-50 | the operators are tried in the order `>=`, `<=`, `>`, `<`, `=`: `>=` wins whenever it occurs, `<=` when `>=` does not, `>` when there is no `=`, `<` when there is neither `=` nor `>`, `=` when there is neither `>` nor `<`, and with none of `<`, `>`, `=` no operator is chosen |
| Literals.DigitsThenOtherNotANumber | src/RuleParser.cs:65 | a run of digits followed by a character other than a digit or a point, with no white space at the end, is not a number |
| Literals.ParseDecimal | src/RuleParser.cs:65 | an accepted text has fewer digits after its decimal point than it has characters |
| Literals.PlainDigitsParse | src/RuleParser.cs:65 | a non-empty text of digits alone reads as the whole number it spells, with no digits after the point |
| Literals.PointedNumberParses | src/RuleParser.cs:65 | `[white][sign]digits.digits[white]`, with a digit on at least one side of the point, reads as the signed value of all the digits, with as many digits after the point as are written there |
| Literals.WholeNumberParses | src/RuleParser.cs:65 | `[white][sign]digits[white]` reads as the signed value of the digits, with no digits after the point |
| Literals.IntNumberParses | src/Expression.cs:59 | `int.Parse` reads `[white][sign]digits[white]` as the signed value of the digits when it fits an `int`, and fails otherwise |
| Literals.IntTextIsDecimal | src/Expression.cs:59 | every text that `int.Parse` accepts, `decimal.TryParse` accepts too, as the same whole number |
| Literals.BoolSpelling | src/RuleParser.cs:68 | `bool.TryParse` accepts a text exactly when, trimmed of white space and NUL, it spells `true` or `false` with any letters in upper case, and reads it as that word |
| Literals.IntToString | src/Expression.cs:59 | the text of an `int` is not empty, starts with `-` exactly when the number is negative, is otherwise made of digits, and has no leading zero except for zero itself |
| Literals.DecimalToString | src/Expression.cs:59 | the text of a `decimal` is not empty, ends with a digit, and starts with `-` exactly when the mantissa is negative |
| Literals.BoolToString | src/Expression.cs:59 | the text of a `bool` spells `true` or `false` with its first letter in upper case |
| Printer.OperandRoundTrip | src/RuleParser.cs:63-76 | the text of a printable operand has no margins, no separator letter and no operator character, and parses back to the same constant or variable |
| Printer.ComparisonText | src/RuleParser.cs:47-52 | in `left op right` with plain operands, the operator the parser tries first is `op`'s own symbol, and splitting at it gives exactly the two padded operand texts |
| Printer.AtomRoundTrip | src/RuleParser.cs:46-60 | a printed comparison of two printable operands, or a printed operand alone, parses back to the same node |
| Printer.NotRoundTrip | src/RuleParser.cs:41-44 | a printed chain of `NÃO` over an atom contains no connective and parses back to the same tree |
| Printer.AndRoundTrip | src/RuleParser.cs:35-39 | a printed `E` chain of negated atoms has no `" OU "` and parses back to the same right-nested tree |
| Printer.ConditionRoundTrip | src/RuleParser.cs:23-61 | every printable condition, an `OU` chain of `E` chains of negated atoms, parses back from its text to the same tree |
| Printer.RuleRoundTrip | src/RuleParser.cs:9-21 | a printed rule `condition ENTAO percentage` parses back to the same condition and the same `decimal`, and keeps the printed text |
| Printer.RuleOfTexts | src/RuleParser.cs:9-20 | a condition text and a number text, without white margins or a `T`, joined around `ENTAO` parse as the rule of that condition and that number |
| Samples.ParsesRule1 | src/Program.cs:21 | `quantidade > 10 E valor > 1000 ENTAO 15` parses to the conjunction of the two comparisons with the numbers 10 and 1000, granting 15 |
| Samples.ParsesRule2 | src/Program.cs:22 | `categoria = "VIP" ENTAO 20` parses to a comparison of `categoria` with the string `VIP`, granting 20 |
| Samples.ParsesRule3 | src/Program.cs:23 | `primeiraCompra = true ENTAO 10` parses to a comparison of `primeiraCompra` with the boolean `true`, granting 10 |
| Samples.ParsesRule4 | src/Program.cs:27 | the parenthesised rule parses as `(quantidade > 10` `OU` (`valor > 500)` `E` `categoria = "VIP"`), with variables named `(quantidade` and `500)` |
| Samples.ParsesRule5 | src/Program.cs:28 | `NÃO primeiraCompra E quantidade >= 5 ENTAO 5` parses to the negated flag `E` a `>=` comparison, granting 5 |
| Samples.QuantityAgainst | src/Expression.cs:59-66 | `quantidade` compared with any whole number up to the largest 32-bit integer is the ordinary integer comparison on every cart |
| Samples.ValueAgainst | src/Expression.cs:59-66 | `valor` compared with a whole number compares the amounts on every cart |
| Samples.Rule1Grants | src/Program.cs:21 | on every cart the first rule grants 15 exactly when there are more than 10 items worth more than 1000, and 0 otherwise |
| Samples.Rule2Grants | src/Program.cs:22 | on every cart the second rule grants 20 exactly to the category `VIP`, and 0 otherwise |
| Samples.Rule3Grants | src/Program.cs:23 | on every cart the third rule grants 10 exactly on a first purchase, and 0 otherwise |
| Samples.Rule4AlwaysFails | src/Program.cs:27 | on every cart the fourth rule fails with the unknown variable `(quantidade` |
| Samples.Rule5Grants | src/Program.cs:28 | on every cart the fifth rule grants 5 exactly to a returning customer with at least 5 items, and 0 otherwise |
| Samples.FirstCartOutcomes | src/Program.cs:14 | the first cart gets 15 from the first rule, 0 from the second and third, 5 from the fifth, and the fourth rule fails on it |
| Samples.SecondCartOutcomes | src/Program.cs:15 | the second cart gets 20 from the second rule and 5 from the fifth, and 0 from the first and third |
| Samples.ThirdCartOutcomes | src/Program.cs:16 | the third cart gets 10 from the third rule and 0 from the first, second and fifth |

## Left out

- **The console driver** in `src/Program.cs` is not part of this model: its output, the logging `try`/`catch` around parsing and the maximum-discount loop. Its sample carts and rules are modelled as constants. Because the loop has no `try`/`catch` around `Evaluate`, the fourth rule's failure on the first cart would end the program; the model states that failure and does not model the program's termination.
- Printer.RuleRoundTrip: holds for printable conditions only. Variable names and string constants must avoid the letters `U`, `E`, `T` and `Ã`, which could form a separator, and the operator characters; names must also not read as numbers or booleans. `int` constants are excluded because the parser reads every number as a `decimal`. Texts with extra spaces, which the parser also accepts, are not printed.
- **The null `CustomerCategory`** is left out. The model's category is always a string, so the C# code's `return false` for a null left operand, and its comparison of a string with a null right operand, are not modelled.
- **Exception types and message texts** are left out. Each exception is one constructor of a small error datatype.
- Literals.ParseDecimal: accepts `[white][sign][digits][.[digits]][white]` with at least one digit only. The culture's thousands separators and a trailing sign, which `NumberStyles.Number` also accepts, are not modelled. The invariant culture's `.` is the decimal point. Trailing NUL characters, which the runtime's number parser also skips (so `"5\0"` reads as 5), are rejected.
- Literals.ParseInt32: accepts `[white][sign]digits[white]` only, which is `NumberStyles.Integer` under the invariant culture. Trailing NUL characters, which `int.Parse` also skips, are rejected.
- Literals.DecimalToString: the mantissa and scale are unbounded integers. The 96-bit mantissa, the maximum scale of 28, the overflow `decimal.Parse` reports and negative zero are not modelled.
- Literals.ParseBool: the letter case of `true`/`false` is folded for ASCII letters only.
- Values.CompareTo: strings compare in ordinal code-point order. The culture-sensitive order `string.CompareTo` uses is not modelled.
- Text.StartsWith: compares ordinally. The culture-sensitive `StartsWith`/`EndsWith` the parser calls, where ignorable characters can match nothing, are not modelled. `Contains` and `Split` are ordinal in the C# code too.
- **That evaluation never modifies the cart** holds by construction: `Cart` is an immutable datatype and `Eval` a pure function. It has no separate contract.
