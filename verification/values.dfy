/** The runtime values a rule expression produces and the two runtime
    services a comparison uses on them: `Convert.ChangeType`, which turns the
    right operand into the left operand's type, and `IComparable.CompareTo`. */
module Values {
  import opened Wrappers
  import opened Literals

  /** A boxed result of `IExpression.Interpret`: the cart's `int` quantity, a
      `decimal`, a `bool` or a `string`. */
  datatype Value = Int(i: Int32) | Dec(d: Decimal) | Bool(b: bool) | Str(s: string)

  /** The runtime type of a value, as `GetType()` reports it. */
  datatype Ty = TInt | TDec | TBool | TStr

  function TypeOf(v: Value): Ty {
    match v
    case Int(_) => TInt
    case Dec(_) => TDec
    case Bool(_) => TBool
    case Str(_) => TStr
  }

  /** `Convert.ChangeType(v, t)`: `None` stands for the `FormatException` or
      `OverflowException` the runtime throws. A value already of type `t` is
      returned as is. */
  function ChangeType(v: Value, t: Ty): (r: Option<Value>)
    ensures r.Some? ==> TypeOf(r.value) == t
    ensures TypeOf(v) == t ==> r == Some(v)
  {
    match v
    case Int(i) => IntTo(i, t)
    case Dec(d) => DecTo(d, t)
    case Bool(b) => BoolTo(b, t)
    case Str(s) => StrTo(s, t)
  }

  /** The conversions of an `int`: `Convert.ToDecimal`, `Convert.ToBoolean`
      (non-zero is true) and `int.ToString()`. */
  function IntTo(i: Int32, t: Ty): (r: Option<Value>)
    ensures r.Some? ==> TypeOf(r.value) == t
    ensures t == TInt ==> r == Some(Int(i))
  {
    match t
    case TInt => Some(Int(i))
    case TDec => Some(Dec(Decimal(i, 0)))
    case TBool => Some(Bool(i != 0))
    case TStr => Some(Str(IntToString(i)))
  }

  /** The conversions of a `decimal`: rounding to an `int`, non-zero is true,
      and `decimal.ToString()`. */
  function DecTo(d: Decimal, t: Ty): (r: Option<Value>)
    ensures r.Some? ==> TypeOf(r.value) == t
    ensures t == TDec ==> r == Some(Dec(d))
  {
    match t
    case TInt => (match DecimalToInt32(d) case Some(n) => Some(Int(n)) case None => None)
    case TDec => Some(Dec(d))
    case TBool => Some(Bool(d.mantissa != 0))
    case TStr => Some(Str(DecimalToString(d)))
  }

  /** The conversions of a `bool`: one or zero, and `bool.ToString()`. */
  function BoolTo(b: bool, t: Ty): (r: Option<Value>)
    ensures r.Some? ==> TypeOf(r.value) == t
    ensures t == TBool ==> r == Some(Bool(b))
  {
    match t
    case TInt => Some(Int(if b then 1 else 0))
    case TDec => Some(Dec(Decimal(if b then 1 else 0, 0)))
    case TBool => Some(Bool(b))
    case TStr => Some(Str(BoolToString(b)))
  }

  /** The conversions of a `string`: the runtime's parsers. */
  function StrTo(s: string, t: Ty): (r: Option<Value>)
    ensures r.Some? ==> TypeOf(r.value) == t
    ensures t == TStr ==> r == Some(Str(s))
  {
    match t
    case TInt => (match ParseInt32(s) case Some(n) => Some(Int(n)) case None => None)
    case TDec => (match ParseDecimal(s) case Some(d) => Some(Dec(d)) case None => None)
    case TBool => (match ParseBool(s) case Some(b) => Some(Bool(b)) case None => None)
    case TStr => Some(Str(s))
  }

  /** Ordinal order on strings: `a` is a proper prefix of `b`, or they first
      differ at a position where `a` has the smaller code point. */
  ghost predicate OrdinalLess(a: string, b: string) {
    || (|a| < |b| && a == b[..|a|])
    || exists k :: 0 <= k < |a| && k < |b| && a[..k] == b[..k] && a[k] < b[k]
  }

  /** Ordinal comparison of two strings: negative, zero or positive. */
  function OrdinalCompare(a: string, b: string): (c: int)
    ensures -1 <= c <= 1
    ensures c == 0 <==> a == b
    ensures c < 0 <==> OrdinalLess(a, b)
    ensures c > 0 <==> OrdinalLess(b, a)
  {
    if a == [] then
      if b == [] then 0 else assert OrdinalLess(a, b); -1
    else if b == [] then
      assert OrdinalLess(b, a); 1
    else if a[0] < b[0] then
      assert a[..0] == b[..0];
      NotOrdinalLessWhenHeadGreater(b, a);
      -1
    else if a[0] > b[0] then
      assert a[..0] == b[..0];
      NotOrdinalLessWhenHeadGreater(a, b);
      1
    else
      var c := OrdinalCompare(a[1..], b[1..]);
      OrdinalLessTail(a, b);
      OrdinalLessTail(b, a);
      assert a == [a[0]] + a[1..] && b == [b[0]] + b[1..];
      c
  }

  /** With equal first characters, the order is decided by the rest. */
  lemma OrdinalLessTail(a: string, b: string)
    requires a != [] && b != [] && a[0] == b[0]
    ensures OrdinalLess(a, b) <==> OrdinalLess(a[1..], b[1..])
  {
    if OrdinalLess(a[1..], b[1..]) {
      if |a[1..]| < |b[1..]| && a[1..] == b[1..][..|a[1..]|] {
        assert a == [a[0]] + a[1..];
        assert b[..|a|] == [b[0]] + b[1..][..|a[1..]|];
      } else {
        var k :| 0 <= k < |a[1..]| && k < |b[1..]| && a[1..][..k] == b[1..][..k] && a[1..][k] < b[1..][k];
        assert a[..k + 1] == [a[0]] + a[1..][..k];
        assert b[..k + 1] == [b[0]] + b[1..][..k];
        assert a[k + 1] < b[k + 1];
      }
    }
    if OrdinalLess(a, b) {
      if |a| < |b| && a == b[..|a|] {
        assert a[1..] == b[1..][..|a[1..]|];
      } else {
        var k :| 0 <= k < |a| && k < |b| && a[..k] == b[..k] && a[k] < b[k];
        assert k > 0;
        assert a[1..][..k - 1] == a[..k][1..];
        assert b[1..][..k - 1] == b[..k][1..];
        assert a[1..][k - 1] < b[1..][k - 1];
      }
    }
  }

  /** A string whose first character is greater does not precede. */
  lemma NotOrdinalLessWhenHeadGreater(a: string, b: string)
    requires a != [] && b != [] && a[0] > b[0]
    ensures !OrdinalLess(a, b)
  {
    if |a| < |b| {
      assert b[..|a|][0] == b[0];
    }
    forall k | 0 <= k < |a| && k < |b|
      ensures a[..k] != b[..k] || a[k] >= b[k]
    {
      if k > 0 {
        assert a[..k][0] == a[0] && b[..k][0] == b[0];
      }
    }
  }

  /** `leftVal.CompareTo(rightVal)` on two values of the same runtime type:
      numbers by magnitude, `false` before `true`, strings in ordinal order. */
  function CompareTo(a: Value, b: Value): (c: int)
    requires TypeOf(a) == TypeOf(b)
    ensures -1 <= c <= 1
    ensures a.Int? ==> (c < 0 <==> a.i < b.i) && (c == 0 <==> a.i == b.i)
    ensures a.Dec? ==> (c < 0 <==> ValueOf(a.d) < ValueOf(b.d)) && (c == 0 <==> ValueOf(a.d) == ValueOf(b.d))
    ensures a.Bool? ==> (c < 0 <==> !a.b && b.b) && (c == 0 <==> a.b == b.b)
    ensures a.Str? ==> (c < 0 <==> OrdinalLess(a.s, b.s)) && (c == 0 <==> a.s == b.s)
  {
    match (a, b)
    case (Int(x), Int(y)) => if x < y then -1 else if x > y then 1 else 0
    case (Dec(x), Dec(y)) =>
      if ValueOf(x) < ValueOf(y) then -1 else if ValueOf(x) > ValueOf(y) then 1 else 0
    case (Bool(x), Bool(y)) => if x == y then 0 else if y then -1 else 1
    case (Str(x), Str(y)) => OrdinalCompare(x, y)
  }

  // ---------------------------------------------------------------- lemmas

  /** Swapping the operands of `CompareTo` flips the sign of the result. */
  lemma CompareToAntisymmetric(a: Value, b: Value)
    requires TypeOf(a) == TypeOf(b)
    ensures CompareTo(b, a) == -CompareTo(a, b)
  {
  }

  /** Conversions that cannot throw: to the same type, anything to `string`,
      and among `int`, `decimal` and `bool` except `decimal` to `int`, which
      can overflow. Conversions from `string` parse and can fail. */
  predicate SafeConversion(from: Ty, to: Ty) {
    || from == to
    || to == TStr
    || (from == TInt && (to == TDec || to == TBool))
    || (from == TBool && (to == TInt || to == TDec))
    || (from == TDec && to == TBool)
  }

  /** Every safe conversion succeeds. */
  lemma SafeConversionSucceeds(v: Value, t: Ty)
    requires SafeConversion(TypeOf(v), t)
    ensures ChangeType(v, t).Some?
  {
  }

  /** Converting a number or boolean to text and back to its own type gives
      back the same value. */
  lemma ChangeTypeTextRoundTrip(v: Value)
    requires !v.Str?
    ensures ChangeType(v, TStr).Some?
    ensures ChangeType(ChangeType(v, TStr).value, TypeOf(v)) == Some(v)
  {
    match v
    case Int(i) => IntViaText(i);
    case Dec(d) => DecimalViaText(d);
    case Bool(b) => BoolViaText(b);
  }

  lemma IntViaText(i: Int32)
    ensures ChangeType(Int(i), TStr) == Some(Str(IntToString(i)))
    ensures ChangeType(Str(IntToString(i)), TInt) == Some(Int(i))
  {
    IntToText(i);
    IntTextRoundTrip(i);
    ParsedIntConverts(IntToString(i), i);
  }

  lemma DecimalViaText(d: Decimal)
    ensures ChangeType(Dec(d), TStr) == Some(Str(DecimalToString(d)))
    ensures ChangeType(Str(DecimalToString(d)), TDec) == Some(Dec(d))
  {
    DecimalToText(d);
    DecimalTextRoundTrip(d);
    ParsedDecimalConverts(DecimalToString(d), d);
  }

  /** An `int` converts to its `int.ToString()` text. */
  lemma IntToText(i: Int32)
    ensures ChangeType(Int(i), TStr) == Some(Str(IntToString(i)))
  {
  }

  /** A `decimal` converts to its `decimal.ToString()` text. */
  lemma DecimalToText(d: Decimal)
    ensures ChangeType(Dec(d), TStr) == Some(Str(DecimalToString(d)))
  {
  }

  /** Text that parses as an `int` converts to that `int`. */
  lemma ParsedIntConverts(s: string, i: Int32)
    requires ParseInt32(s) == Some(i)
    ensures ChangeType(Str(s), TInt) == Some(Int(i))
  {
    TextConverts(s, TInt);
    IntParsed(s, i);
  }

  lemma IntParsed(s: string, i: Int32)
    requires ParseInt32(s) == Some(i)
    ensures StrTo(s, TInt) == Some(Int(i))
  {
  }

  /** Text that parses as a `decimal` converts to that `decimal`. */
  lemma ParsedDecimalConverts(s: string, d: Decimal)
    requires ParseDecimal(s) == Some(d)
    ensures ChangeType(Str(s), TDec) == Some(Dec(d))
  {
    TextConverts(s, TDec);
    DecimalParsed(s, d);
  }

  lemma DecimalParsed(s: string, d: Decimal)
    requires ParseDecimal(s) == Some(d)
    ensures StrTo(s, TDec) == Some(Dec(d))
  {
  }

  lemma BoolViaText(b: bool)
    ensures ChangeType(Bool(b), TStr) == Some(Str(BoolToString(b)))
    ensures ChangeType(Str(BoolToString(b)), TBool) == Some(Bool(b))
  {
    BoolToText(b);
    BoolTextRoundTrip(b);
    ParsedBoolConverts(BoolToString(b), b);
  }

  /** A text converts to a type by that type's parser. */
  lemma TextConverts(s: string, t: Ty)
    ensures ChangeType(Str(s), t) == StrTo(s, t)
  {
  }

  /** A boolean converts to its `bool.ToString()` text. */
  lemma BoolToText(b: bool)
    ensures ChangeType(Bool(b), TStr) == Some(Str(BoolToString(b)))
  {
  }

  /** Text that parses as a `bool` converts to that `bool`. */
  lemma ParsedBoolConverts(s: string, b: bool)
    requires ParseBool(s) == Some(b)
    ensures ChangeType(Str(s), TBool) == Some(Bool(b))
  {
    TextConverts(s, TBool);
    BoolParsed(s, b);
  }

  lemma BoolParsed(s: string, b: bool)
    requires ParseBool(s) == Some(b)
    ensures StrTo(s, TBool) == Some(Bool(b))
  {
  }
}
