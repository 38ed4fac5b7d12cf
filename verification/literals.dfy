/** The runtime's literal conversions that the interpreter relies on:
    `decimal.TryParse` / `decimal.Parse`, `int.Parse`, `bool.TryParse`,
    `ToString()` of `int`, `decimal` and `bool`, and the rounding
    `Convert.ToInt32(decimal)` performs. All under the invariant culture. */
module Literals {
  import opened Wrappers
  import opened Text

  const INT32_MIN: int := -0x8000_0000
  const INT32_MAX: int := 0x7FFF_FFFF

  /** The C# `int` range. */
  type Int32 = x: int | INT32_MIN <= x <= INT32_MAX

  /** A C# `decimal`: `mantissa` scaled down by `10^scale`. The scale is the
      number of digits after the point; parsing sets it and formatting shows
      it, so `10.50` and `10.5` are equal numbers with different text. */
  datatype Decimal = Decimal(mantissa: int, scale: nat)

  function Pow10(n: nat): (r: nat)
    ensures r >= 1
  {
    if n == 0 then 1 else 10 * Pow10(n - 1)
  }

  /** The number a decimal denotes. */
  function ValueOf(d: Decimal): real {
    d.mantissa as real / Pow10(d.scale) as real
  }

  // ------------------------------------------------------------ digits

  predicate IsDigit(c: char) {
    '0' <= c <= '9'
  }

  predicate AllDigits(s: string) {
    forall i :: 0 <= i < |s| ==> IsDigit(s[i])
  }

  function DigitValue(c: char): nat
    requires IsDigit(c)
  {
    c as int - '0' as int
  }

  function DigitChar(n: nat): (c: char)
    requires n < 10
    ensures IsDigit(c) && DigitValue(c) == n
  {
    ('0' as int + n) as char
  }

  /** The number a string of decimal digits spells, most significant first. */
  function DigitsValue(s: string): nat
    requires AllDigits(s)
  {
    if s == [] then 0 else 10 * DigitsValue(s[..|s| - 1]) + DigitValue(s[|s| - 1])
  }

  /** The length of the longest prefix of `s` made of digits. */
  function DigitRun(s: string): (n: nat)
    ensures n <= |s| && AllDigits(s[..n])
    ensures n == |s| || !IsDigit(s[n])
  {
    if s != [] && IsDigit(s[0]) then
      var n := 1 + DigitRun(s[1..]);
      assert s[..n] == [s[0]] + s[1..][..n - 1];
      n
    else 0
  }

  /** The digits of `n` without leading zeros (`"0"` for zero). */
  function NatToDigits(n: nat): (s: string)
    ensures |s| >= 1 && AllDigits(s) && DigitsValue(s) == n
    ensures s[0] == '0' <==> n == 0
  {
    if n < 10 then [DigitChar(n)]
    else
      var s := NatToDigits(n / 10) + [DigitChar(n % 10)];
      assert s[..|s| - 1] == NatToDigits(n / 10);
      s
  }

  /** `s` left-padded with zeros to at least `width` digits; the number is unchanged. */
  function PadDigits(s: string, width: nat): (r: string)
    requires AllDigits(s)
    ensures AllDigits(r) && DigitsValue(r) == DigitsValue(s)
    ensures |r| >= width && |r| >= |s|
    decreases width - |s|
  {
    if |s| >= width then s
    else
      LeadingZero(s);
      PadDigits("0" + s, width)
  }

  lemma {:induction false} LeadingZero(s: string)
    requires AllDigits(s)
    ensures AllDigits("0" + s) && DigitsValue("0" + s) == DigitsValue(s)
    decreases |s|
  {
    if s != [] {
      var t := "0" + s;
      assert t[..|t| - 1] == "0" + s[..|s| - 1];
      LeadingZero(s[..|s| - 1]);
    }
  }

  // ------------------------------------------------------------ parsing

  /** White space `NumberStyles.AllowLeadingWhite` and `AllowTrailingWhite`
      skip: tab through carriage return, and space. */
  predicate IsNumberWhite(c: char) {
    c == ' ' || ('\t' <= c <= '\r')
  }

  /** An optional leading `-` or `+`: the sign and the text after it. */
  function SplitSign(t: string): (r: (int, string))
    ensures (r.0 == 1 || r.0 == -1) && |r.1| <= |t|
  {
    if t != [] && t[0] == '-' then (-1, t[1..])
    else if t != [] && t[0] == '+' then (1, t[1..])
    else (1, t)
  }

  /** `decimal.TryParse(s, out d)` with `NumberStyles.Number`, restricted to
      `[white][sign][digits][.[digits]][white]` with at least one digit; the
      scale is the number of digits written after the point. */
  function ParseDecimal(s: string): (r: Option<Decimal>)
    ensures r.Some? ==> r.value.scale < |s|
  {
    var t := TrimWith(s, IsNumberWhite);
    var (sign, body) := SplitSign(t);
    match ParseUnsigned(body)
    case None => None
    case Some((m, scale)) => Some(Decimal(sign * m, scale))
  }

  /** `[digits][.[digits]]` with at least one digit: the digits as one number and
      how many of them follow the point. */
  function ParseUnsigned(body: string): (r: Option<(nat, nat)>)
    ensures r.Some? ==> r.value.1 < |body|
  {
    var n := DigitRun(body);
    var rest := body[n..];
    if rest == [] then
      if n == 0 then None else Some((DigitsValue(body), 0))
    else if rest[0] == '.' && AllDigits(rest[1..]) && n + |rest[1..]| > 0 then
      var fraction := rest[1..];
      assert AllDigits(body[..n] + fraction);
      Some((DigitsValue(body[..n] + fraction), |fraction|))
    else None
  }

  /** `int.Parse(s)` with `NumberStyles.Integer`: `[white][sign]digits[white]`;
      `None` stands for its `FormatException` and its `OverflowException`. */
  function ParseInt32(s: string): (r: Option<Int32>) {
    var t := TrimWith(s, IsNumberWhite);
    var (sign, body) := SplitSign(t);
    if body == [] || !AllDigits(body) then None
    else
      var v := sign * DigitsValue(body);
      if INT32_MIN <= v <= INT32_MAX then Some(v) else None
  }

  /** White space `bool.TryParse` trims: `Char.IsWhiteSpace` and NUL. */
  predicate IsWhiteOrNul(c: char) {
    IsWhiteSpace(c) || c == '\0'
  }

  function AsciiLower(s: string): (r: string)
    ensures |r| == |s|
  {
    seq(|s|, i requires 0 <= i < |s| =>
      if 'A' <= s[i] <= 'Z' then (s[i] as int + 32) as char else s[i])
  }

  /** `t` spells the lower-case `word` with any of its letters in upper case. */
  predicate SameLetters(t: string, word: string) {
    && |t| == |word|
    && forall i :: 0 <= i < |t| ==> t[i] == word[i] || t[i] as int == word[i] as int - 32
  }

  /** `bool.TryParse(s, out b)`: `True` or `False` in any letter case,
      with white space and NUL around it. */
  function ParseBool(s: string): (r: Option<bool>) {
    var t := AsciiLower(TrimWith(s, IsWhiteOrNul));
    if t == "true" then Some(true)
    else if t == "false" then Some(false)
    else None
  }

  // ------------------------------------------------------------ formatting

  /** `int.ToString()`. */
  function IntToString(i: int): (r: string)
    ensures r != [] && IsDigit(r[|r| - 1])
    ensures r[0] == '-' <==> i < 0
    ensures i >= 0 ==> IsDigit(r[0])
    ensures forall k :: 0 < k < |r| ==> IsDigit(r[k])
    ensures r[0] == '0' <==> i == 0
    ensures i < 0 ==> |r| >= 2 && r[1] != '0'
  {
    if i < 0 then
      var digits := NatToDigits(-i);
      var r := "-" + digits;
      assert forall k :: 0 < k < |r| ==> r[k] == digits[k - 1];
      r
    else NatToDigits(i)
  }

  /** `decimal.ToString()`: the digits of the mantissa with the point placed
      `scale` digits from the right, and a leading zero before the point. */
  function DecimalToString(d: Decimal): (r: string)
    ensures r != [] && IsDigit(r[|r| - 1])
    ensures r[0] == '-' <==> d.mantissa < 0
  {
    var digits := PadDigits(NatToDigits(if d.mantissa < 0 then -d.mantissa else d.mantissa), d.scale + 1);
    var body := DecimalBody(digits, d.scale);
    if d.mantissa < 0 then
      var r := "-" + body;
      assert r[|r| - 1] == body[|body| - 1];
      r
    else body
  }

  /** The unsigned text of a decimal: its padded digits with the point
      placed `scale` digits from the right. */
  function DecimalBody(digits: string, scale: nat): (body: string)
    requires AllDigits(digits) && |digits| >= scale + 1
    ensures body != [] && IsDigit(body[0]) && IsDigit(body[|body| - 1])
  {
    var k := |digits| - scale;
    if scale == 0 then digits else digits[..k] + "." + digits[k..]
  }

  /** `bool.ToString()`. */
  function BoolToString(b: bool): (r: string)
    ensures SameLetters(r, if b then "true" else "false")
    ensures r[0] != (if b then "true" else "false")[0]
  {
    if b then "True" else "False"
  }

  // ------------------------------------------------------------ rounding

  /** `Math.Round(x, MidpointRounding.ToEven)`: the nearest integer, and the
      even one of the two when `x` lies exactly half-way. */
  function RoundHalfEven(x: real): (r: int)
    ensures x - 0.5 <= r as real <= x + 0.5
    ensures (r as real == x - 0.5 || r as real == x + 0.5) ==> r % 2 == 0
  {
    var f := x.Floor;
    var frac := x - f as real;
    if frac < 0.5 then f
    else if frac > 0.5 then f + 1
    else if f % 2 == 0 then f
    else f + 1
  }

  /** `Convert.ToInt32(decimal)`: round half to even, then `None` for the
      `OverflowException` outside the `int` range. */
  function DecimalToInt32(d: Decimal): (r: Option<Int32>)
    ensures r.Some? <==> INT32_MIN <= RoundHalfEven(ValueOf(d)) <= INT32_MAX
    ensures r.Some? ==> r.value == RoundHalfEven(ValueOf(d))
  {
    var n := RoundHalfEven(ValueOf(d));
    if INT32_MIN <= n <= INT32_MAX then Some(n) else None
  }

  // ------------------------------------------------------------ round trips

  /** Trimming a text that already starts and ends with non-white characters
      leaves it unchanged. */
  lemma TrimNoMargins(s: string, white: char -> bool)
    requires s != [] && !white(s[0]) && !white(s[|s| - 1])
    ensures TrimWith(s, white) == s
  {
    var r := TrimWith(s, white);
    var k :| WhiteMargins(s, r, k, white);
  }

  /** A text of digits alone reads as the whole number it spells. */
  lemma PlainDigitsParse(s: string)
    requires s != [] && AllDigits(s)
    ensures ParseDecimal(s) == Some(Decimal(DigitsValue(s), 0))
  {
    assert IsDigit(s[0]) && IsDigit(s[|s| - 1]);
    TrimNoMargins(s, IsNumberWhite);
    assert SplitSign(s) == (1, s);
    WholeDigitsParse(s);
  }

  /** Every character of `w` is white space the number parsers skip. */
  predicate NumberWhite(w: string) {
    forall i :: 0 <= i < |w| ==> IsNumberWhite(w[i])
  }

  /** A written sign: none, `-` or `+`. */
  predicate IsSignText(sign: string) {
    sign == "" || sign == "-" || sign == "+"
  }

  /** The factor a written sign stands for. */
  function SignOf(sign: string): (f: int)
    ensures f == -1 <==> sign == "-"
    ensures f == 1 || f == -1
  {
    if sign == "-" then -1 else 1
  }

  /** `[white][sign][digits].[digits][white]`, with a digit on at least one
      side of the point, reads as the signed digits with as many digits after
      the point as are written there. */
  lemma PointedNumberParses(w1: string, sign: string, a: string, b: string, w2: string)
    requires NumberWhite(w1) && NumberWhite(w2) && IsSignText(sign)
    requires AllDigits(a) && AllDigits(b) && |a| + |b| > 0
    ensures AllDigits(a + b)
    ensures ParseDecimal(w1 + sign + a + "." + b + w2)
      == Some(Decimal(SignOf(sign) * DigitsValue(a + b), |b|))
  {
    var body := a + "." + b;
    assert body[|body| - 1] == '.' || body[|body| - 1] == b[|b| - 1];
    assert body[0] == '.' || body[0] == a[0];
    SignedNumberText(w1, sign, body, w2);
    PointedBody(a, b);
    var s := w1 + (sign + body) + w2;
    TrimmedNumberParses(s, sign + body, SignOf(sign), body);
    RegroupPointed(w1, sign, a, b, w2);
  }

  /** Digits, a point and digits read as all the digits, scaled by the
      count after the point. */
  lemma PointedBody(a: string, b: string)
    requires AllDigits(a) && AllDigits(b) && |a| + |b| > 0
    ensures AllDigits(a + b)
    ensures ParseUnsigned(a + "." + b) == Some((DigitsValue(a + b), |b|))
  {
    DigitsJoin(a, b);
    PointedBodyPieces(a, b);
    FractionParses(a + "." + b, |a|, b);
  }

  /** Two runs of digits glued together are a run of digits. */
  lemma DigitsJoin(a: string, b: string)
    requires AllDigits(a) && AllDigits(b)
    ensures AllDigits(a + b)
  {
    forall i | 0 <= i < |a + b|
      ensures IsDigit((a + b)[i])
    {
      if i < |a| {
        assert (a + b)[i] == a[i];
      } else {
        assert (a + b)[i] == b[i - |a|];
      }
    }
  }

  /** In `a.b` the digit run is `a`, and the point and `b` follow it. */
  lemma PointedBodyPieces(a: string, b: string)
    requires AllDigits(a)
    ensures var body := a + "." + b;
            && DigitRun(body) == |a| && |a| <= |body|
            && body[|a|..] == "." + b && body[..|a|] == a
  {
    var body := a + "." + b;
    assert body[..|a|] == a;
    DigitRunStopsAt(body, |a|);
    assert body[|a|..] == "." + b;
  }

  /** The pieces of a pointed number text, regrouped around its body. */
  lemma RegroupPointed(w1: string, sign: string, a: string, b: string, w2: string)
    ensures w1 + sign + a + "." + b + w2 == w1 + (sign + (a + "." + b)) + w2
  {
  }

  /** Four pieces of text, regrouped around the middle two. */
  lemma Regroup(w1: string, x: string, y: string, w2: string)
    ensures w1 + x + y + w2 == w1 + (x + y) + w2
  {
  }

  /** A text that trims to a sign and an unsigned number reads as their product. */
  lemma TrimmedNumberParses(s: string, core: string, sign: int, body: string)
    requires TrimWith(s, IsNumberWhite) == core && SplitSign(core) == (sign, body)
    requires ParseUnsigned(body).Some?
    ensures ParseDecimal(s) == Some(Decimal(sign * ParseUnsigned(body).value.0, ParseUnsigned(body).value.1))
  {
  }

  /** `[white][sign]digits[white]` reads as the signed digits, with no
      digits after the point. */
  lemma WholeNumberParses(w1: string, sign: string, a: string, w2: string)
    requires NumberWhite(w1) && NumberWhite(w2) && IsSignText(sign)
    requires a != [] && AllDigits(a)
    ensures ParseDecimal(w1 + sign + a + w2) == Some(Decimal(SignOf(sign) * DigitsValue(a), 0))
  {
    assert IsDigit(a[0]) && IsDigit(a[|a| - 1]);
    SignedNumberText(w1, sign, a, w2);
    WholeDigitsParse(a);
    var s := w1 + (sign + a) + w2;
    TrimmedNumberParses(s, sign + a, SignOf(sign), a);
    Regroup(w1, sign, a, w2);
  }

  /** `int.Parse` reads `[white][sign]digits[white]` as the signed digits
      when they fit an `int`, and fails with an overflow otherwise. */
  lemma IntNumberParses(w1: string, sign: string, a: string, w2: string)
    requires NumberWhite(w1) && NumberWhite(w2) && IsSignText(sign)
    requires a != [] && AllDigits(a)
    ensures var v := SignOf(sign) * DigitsValue(a);
            ParseInt32(w1 + sign + a + w2) == if INT32_MIN <= v <= INT32_MAX then Some(v) else None
  {
    assert IsDigit(a[0]) && IsDigit(a[|a| - 1]);
    SignedNumberText(w1, sign, a, w2);
    var s := w1 + (sign + a) + w2;
    TrimmedIntParses(s, sign + a, SignOf(sign), a);
    Regroup(w1, sign, a, w2);
  }

  /** `int.Parse` of a text that trims to a sign and digits. */
  lemma TrimmedIntParses(s: string, core: string, sign: int, a: string)
    requires TrimWith(s, IsNumberWhite) == core && SplitSign(core) == (sign, a)
    requires a != [] && AllDigits(a)
    ensures var v := sign * DigitsValue(a);
            ParseInt32(s) == if INT32_MIN <= v <= INT32_MAX then Some(v) else None
  {
  }

  /** White margins around a signed number body trim away, and the sign
      splits off. */
  lemma SignedNumberText(w1: string, sign: string, body: string, w2: string)
    requires NumberWhite(w1) && NumberWhite(w2) && IsSignText(sign)
    requires body != [] && (IsDigit(body[0]) || body[0] == '.')
    requires IsDigit(body[|body| - 1]) || body[|body| - 1] == '.'
    ensures TrimWith(w1 + (sign + body) + w2, IsNumberWhite) == sign + body
    ensures SplitSign(sign + body) == (SignOf(sign), body)
  {
    SignSplitsOff(sign, body);
    var core := sign + body;
    assert core[|core| - 1] == body[|body| - 1];
    assert core[0] == '-' || core[0] == '+' || core[0] == body[0];
    forall i | 0 <= i < |w1|
      ensures IsNumberWhite(w1[i])
    {
    }
    forall i | 0 <= i < |w2|
      ensures IsNumberWhite(w2[i])
    {
    }
    TrimPadded(w1, core, w2, IsNumberWhite);
  }

  /** A written sign before a body that starts with a digit or a point is
      split off as its factor. */
  lemma SignSplitsOff(sign: string, body: string)
    requires IsSignText(sign)
    requires body != [] && (IsDigit(body[0]) || body[0] == '.')
    ensures SplitSign(sign + body) == (SignOf(sign), body)
  {
    if sign == "" {
      assert sign + body == body;
    } else {
      assert (sign + body)[1..] == body;
    }
  }

  /** Every text `int.Parse` accepts, `decimal.TryParse` accepts too, as the
      same whole number with no digits after the point. */
  lemma IntTextIsDecimal(s: string)
    requires ParseInt32(s).Some?
    ensures ParseDecimal(s) == Some(Decimal(ParseInt32(s).value, 0))
  {
    var (sign, body) := SplitSign(TrimWith(s, IsNumberWhite));
    WholeDigitsParse(body);
  }

  /** A non-empty run of digits reads as the whole number it spells. */
  lemma WholeDigitsParse(body: string)
    requires body != [] && AllDigits(body)
    ensures ParseUnsigned(body) == Some((DigitsValue(body), 0))
  {
    assert body[..|body|] == body;
    DigitRunStopsAt(body, |body|);
    assert body[|body|..] == [];
  }

  /** `bool.TryParse` accepts exactly the texts that, trimmed, spell `true`
      or `false` with any letters in upper case, and reads them as that word. */
  lemma BoolSpelling(s: string)
    ensures ParseBool(s) == Some(true) <==> SameLetters(TrimWith(s, IsWhiteOrNul), "true")
    ensures ParseBool(s) == Some(false) <==> SameLetters(TrimWith(s, IsWhiteOrNul), "false")
    ensures ParseBool(s).None? <==>
      !SameLetters(TrimWith(s, IsWhiteOrNul), "true") && !SameLetters(TrimWith(s, IsWhiteOrNul), "false")
  {
    LowerIsWord(TrimWith(s, IsWhiteOrNul), "true");
    LowerIsWord(TrimWith(s, IsWhiteOrNul), "false");
  }

  /** Lower-casing gives the lower-case `word` exactly when the text spells
      it with any letters in upper case. */
  lemma LowerIsWord(t: string, word: string)
    requires forall i :: 0 <= i < |word| ==> 'a' <= word[i] <= 'z'
    ensures AsciiLower(t) == word <==> SameLetters(t, word)
  {
    if SameLetters(t, word) {
      assert forall i :: 0 <= i < |t| ==> AsciiLower(t)[i] == word[i];
    }
    if AsciiLower(t) == word {
      assert forall i :: 0 <= i < |t| ==> AsciiLower(t)[i] == word[i];
    }
  }

  /** Parsing the text of an `int` gives the `int` back. */
  lemma IntTextRoundTrip(i: Int32)
    ensures ParseInt32(IntToString(i)) == Some(i)
  {
    var s := IntToString(i);
    var v: int := i;
    var digits := NatToDigits(if v < 0 then -v else v);
    assert IsDigit(digits[|digits| - 1]);
    TrimNoMargins(s, IsNumberWhite);
    if i < 0 {
      assert SplitSign(s) == (-1, digits);
    } else {
      assert SplitSign(s) == (1, digits);
    }
  }

  /** Parsing the text of a `decimal` gives back the same mantissa and scale. */
  lemma DecimalTextRoundTrip(d: Decimal)
    ensures ParseDecimal(DecimalToString(d)) == Some(d)
  {
    var m := if d.mantissa < 0 then -d.mantissa else d.mantissa;
    var digits := PadDigits(NatToDigits(m), d.scale + 1);
    var sign := if d.mantissa < 0 then -1 else 1;
    DecimalTextShape(d);
    UnsignedDecimalParses(digits, d.scale);
    SignedTextParses(DecimalToString(d), sign, DecimalBody(digits, d.scale));
  }

  /** The text of a decimal is an optional minus sign and its unsigned body,
      with nothing to trim. */
  lemma DecimalTextShape(d: Decimal)
    ensures var m := if d.mantissa < 0 then -d.mantissa else d.mantissa;
            var digits := PadDigits(NatToDigits(m), d.scale + 1);
            var s := DecimalToString(d);
            && TrimWith(s, IsNumberWhite) == s
            && SplitSign(s) == (if d.mantissa < 0 then -1 else 1, DecimalBody(digits, d.scale))
  {
    var m := if d.mantissa < 0 then -d.mantissa else d.mantissa;
    var digits := PadDigits(NatToDigits(m), d.scale + 1);
    var body := DecimalBody(digits, d.scale);
    var s := DecimalToString(d);
    assert s == if d.mantissa < 0 then "-" + body else body;
    SignedDigitsShape(d.mantissa < 0, body);
  }

  /** An optional minus sign before text that starts and ends with a digit. */
  lemma SignedDigitsShape(negative: bool, body: string)
    requires body != [] && IsDigit(body[0]) && IsDigit(body[|body| - 1])
    ensures var s := if negative then "-" + body else body;
            && TrimWith(s, IsNumberWhite) == s
            && SplitSign(s) == (if negative then -1 else 1, body)
  {
    var s := if negative then "-" + body else body;
    assert s[|s| - 1] == body[|body| - 1];
    TrimNoMargins(s, IsNumberWhite);
    if negative {
      assert s[1..] == body;
    }
  }

  /** A text with nothing to trim parses as its sign times its unsigned part. */
  lemma SignedTextParses(s: string, sign: int, body: string)
    requires TrimWith(s, IsNumberWhite) == s && SplitSign(s) == (sign, body)
    requires ParseUnsigned(body).Some?
    ensures ParseDecimal(s) == Some(Decimal(sign * ParseUnsigned(body).value.0, ParseUnsigned(body).value.1))
  {
  }

  /** The unsigned part of the decimal text reads back as its digits and scale. */
  lemma UnsignedDecimalParses(digits: string, scale: nat)
    requires AllDigits(digits) && |digits| >= scale + 1
    ensures ParseUnsigned(DecimalBody(digits, scale)) == Some((DigitsValue(digits), scale))
  {
    if scale == 0 {
      WholeBodyParses(digits);
    } else {
      PointedBodyParses(digits, scale);
    }
  }

  lemma WholeBodyParses(digits: string)
    requires AllDigits(digits) && |digits| >= 1
    ensures ParseUnsigned(DecimalBody(digits, 0)) == Some((DigitsValue(digits), 0))
  {
    var body := DecimalBody(digits, 0);
    DigitRunStopsAt(body, |digits|);
    assert body[|digits|..] == [];
  }

  lemma PointedBodyParses(digits: string, scale: nat)
    requires AllDigits(digits) && |digits| >= scale + 1 && scale > 0
    ensures ParseUnsigned(DecimalBody(digits, scale)) == Some((DigitsValue(digits), scale))
  {
    var k := |digits| - scale;
    var body := DecimalBody(digits, scale);
    var tail := digits[k..];
    PointedBodyShape(digits, scale);
    FractionParses(body, k, tail);
  }

  /** With a non-zero scale the body is the leading digits, a point, and the trailing `scale` digits. */
  lemma PointedBodyShape(digits: string, scale: nat)
    requires AllDigits(digits) && |digits| >= scale + 1 && scale > 0
    ensures var k := |digits| - scale;
            var body := DecimalBody(digits, scale);
            && DigitRun(body) == k && body[k..] == "." + digits[k..]
            && body[..k] + digits[k..] == digits
  {
    var k := |digits| - scale;
    var body := DecimalBody(digits, scale);
    var head, tail := digits[..k], digits[k..];
    assert body == head + "." + tail;
    assert body[..k] == head;
    assert head + tail == digits;
    DigitRunStopsAt(body, k);
  }

  /** Digits, a point and more digits: the scale is the count after the point. */
  lemma FractionParses(body: string, k: nat, tail: string)
    requires DigitRun(body) == k && k <= |body|
    requires body[k..] == "." + tail && AllDigits(tail) && k + |tail| > 0
    ensures ParseUnsigned(body) == Some((DigitsValue(body[..k] + tail), |tail|))
  {
    assert body[k..][1..] == tail;
  }

  /** `DigitRun` stops exactly at the first non-digit after an all-digit prefix. */
  lemma {:induction false} DigitRunStopsAt(s: string, k: nat)
    requires k <= |s| && AllDigits(s[..k])
    requires k == |s| || !IsDigit(s[k])
    ensures DigitRun(s) == k
    decreases k
  {
    if k > 0 {
      assert s[0] == s[..k][0];
      assert s[1..][..k - 1] == s[..k][1..];
      DigitRunStopsAt(s[1..], k - 1);
    }
  }

  /** Parsing the text of a `bool` gives the `bool` back. */
  lemma BoolTextRoundTrip(b: bool)
    ensures ParseBool(BoolToString(b)) == Some(b)
  {
    var s := BoolToString(b);
    TrimNoMargins(s, IsWhiteOrNul);
    assert AsciiLower(s) == if b then "true" else "false";
  }

  /** A text that starts with neither white space, a sign, a digit nor a
      point, and does not end in white space, is not a number. */
  lemma NotANumber(s: string)
    requires s != [] && !IsNumberWhite(s[0]) && !IsNumberWhite(s[|s| - 1])
    requires !IsDigit(s[0]) && s[0] != '+' && s[0] != '-' && s[0] != '.'
    ensures ParseDecimal(s).None?
  {
    TrimNoMargins(s, IsNumberWhite);
    assert SplitSign(s) == (1, s);
    assert DigitRun(s) == 0;
  }

  /** Digits followed by a character that is neither a digit nor a point
      (and a text that does not end in white space) are not a number. */
  lemma DigitsThenOtherNotANumber(s: string, n: nat)
    requires 0 < n < |s| && AllDigits(s[..n])
    requires !IsDigit(s[n]) && s[n] != '.' && !IsNumberWhite(s[|s| - 1])
    ensures ParseDecimal(s).None?
  {
    assert IsDigit(s[..n][0]);
    TrimNoMargins(s, IsNumberWhite);
    assert SplitSign(s) == (1, s);
    DigitRunStopsAt(s, n);
    assert s[n..][0] == s[n];
  }

  /** The text of a decimal is made of digits, a leading minus sign and a
      decimal point only; it starts with a digit or the sign and ends with a
      digit. */
  lemma DecimalTextChars(d: Decimal)
    ensures var s := DecimalToString(d);
            && s != [] && (IsDigit(s[0]) || s[0] == '-') && IsDigit(s[|s| - 1])
            && forall i :: 0 <= i < |s| ==> IsDigit(s[i]) || s[i] == '-' || s[i] == '.'
  {
    var m := if d.mantissa < 0 then -d.mantissa else d.mantissa;
    var digits := PadDigits(NatToDigits(m), d.scale + 1);
    var body := DecimalBody(digits, d.scale);
    var s := DecimalToString(d);
    DecimalBodyChars(digits, d.scale);
    if d.mantissa < 0 {
      assert s == "-" + body;
      SignedChars(body);
    } else {
      assert s == body;
    }
  }

  lemma SignedChars(body: string)
    requires body != [] && IsDigit(body[|body| - 1])
    requires forall i :: 0 <= i < |body| ==> IsDigit(body[i]) || body[i] == '.'
    ensures var s := "-" + body;
            forall i :: 0 <= i < |s| ==> IsDigit(s[i]) || s[i] == '-' || s[i] == '.'
    ensures ("-" + body)[|body|] == body[|body| - 1]
  {
    var s := "-" + body;
    forall i | 0 <= i < |s|
      ensures IsDigit(s[i]) || s[i] == '-' || s[i] == '.'
    {
      if i > 0 {
        assert s[i] == body[i - 1];
      }
    }
  }

  lemma DecimalBodyChars(digits: string, scale: nat)
    requires AllDigits(digits) && |digits| >= scale + 1
    ensures forall i :: 0 <= i < |DecimalBody(digits, scale)| ==>
      IsDigit(DecimalBody(digits, scale)[i]) || DecimalBody(digits, scale)[i] == '.'
  {
    var k := |digits| - scale;
    if scale != 0 {
      var body := digits[..k] + "." + digits[k..];
      assert forall i :: 0 <= i < |body| ==> body[i] == '.' || IsDigit(body[i]) by {
        forall i | 0 <= i < |body|
          ensures body[i] == '.' || IsDigit(body[i])
        {
          if i < k {
            assert body[i] == digits[i];
          } else if i > k {
            assert body[i] == digits[i - 1];
          }
        }
      }
    }
  }
}
