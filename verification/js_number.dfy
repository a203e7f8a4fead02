/** The part of JavaScript number semantics the app relies on: the values
    `parseFloat` and `parseInt` return, with `NaN` as an explicit tag.
    Numbers are exact reals; rounding to IEEE-754 doubles is not modelled. */
module JsNumber {
  import opened Wrappers

  /** A JavaScript number as the app sees it. */
  datatype Number = Finite(value: real) | Infinity(negative: bool) | NaN

  /** ECMAScript StrWhiteSpaceChar: the WhiteSpace and LineTerminator code
      points that `parseFloat` and `parseInt` skip before the literal. */
  predicate IsWhiteSpace(c: char) {
    || c == '\t' || c == '\n' || c == '\U{000B}' || c == '\U{000C}' || c == '\r'
    || c == ' ' || c == '\U{00A0}' || c == '\U{1680}' || ('\U{2000}' <= c <= '\U{200A}')
    || c == '\U{2028}' || c == '\U{2029}' || c == '\U{202F}' || c == '\U{205F}'
    || c == '\U{3000}' || c == '\U{FEFF}'
  }

  /** The string with its leading white space removed. */
  function TrimStart(s: string): (r: string)
    ensures |r| <= |s|
  {
    if |s| > 0 && IsWhiteSpace(s[0]) then TrimStart(s[1..]) else s
  }

  /** What `TrimStart` removes is a prefix made of white space, and what it
      leaves does not start with white space. */
  lemma {:induction false} TrimStartSpec(s: string)
    ensures TrimStart(s) == s[|s| - |TrimStart(s)|..]
    ensures forall i :: 0 <= i < |s| - |TrimStart(s)| ==> IsWhiteSpace(s[i])
    ensures |TrimStart(s)| == 0 || !IsWhiteSpace(TrimStart(s)[0])
  {
    if |s| > 0 && IsWhiteSpace(s[0]) {
      TrimStartSpec(s[1..]);
      assert s[1..][|s| - 1 - |TrimStart(s)|..] == s[|s| - |TrimStart(s)|..];
      assert forall i :: 1 <= i < |s| - |TrimStart(s)| ==> s[i] == s[1..][i - 1];
    }
  }

  /** The value of `c` as a digit in radices up to 36 (`0`-`9`, then letters
      of either case); 36 for every other character. */
  function CharValue(c: char): (v: nat)
    ensures v <= 36
  {
    if '0' <= c <= '9' then (c - '0') as nat
    else if 'a' <= c <= 'z' then (c - 'a') as nat + 10
    else if 'A' <= c <= 'Z' then (c - 'A') as nat + 10
    else 36
  }

  predicate IsDigitIn(c: char, radix: nat) {
    CharValue(c) < radix
  }

  predicate AllDigitsIn(s: string, radix: nat) {
    forall i :: 0 <= i < |s| ==> IsDigitIn(s[i], radix)
  }

  /** Length of the longest prefix of `s` made of digits of `radix`. */
  function LeadingDigits(s: string, radix: nat): (n: nat)
    ensures n <= |s|
  {
    if |s| > 0 && IsDigitIn(s[0], radix) then 1 + LeadingDigits(s[1..], radix) else 0
  }

  /** `LeadingDigits` counts digits and stops at the first non-digit. */
  lemma {:induction false} LeadingDigitsSpec(s: string, radix: nat)
    ensures AllDigitsIn(s[..LeadingDigits(s, radix)], radix)
    ensures LeadingDigits(s, radix) == |s| || !IsDigitIn(s[LeadingDigits(s, radix)], radix)
  {
    if |s| > 0 && IsDigitIn(s[0], radix) {
      LeadingDigitsSpec(s[1..], radix);
      var n := LeadingDigits(s, radix);
      assert s[..n] == [s[0]] + s[1..][..n - 1];
    }
  }

  /** The natural number a digit string of `radix` denotes, most significant
      digit first. */
  function DigitsValue(d: string, radix: nat): nat {
    if |d| == 0 then 0
    else radix * DigitsValue(d[..|d| - 1], radix) + CharValue(d[|d| - 1])
  }

  function Pow10(k: nat): (p: nat)
    ensures p >= 1
  {
    if k == 0 then 1 else 10 * Pow10(k - 1)
  }

  /** The real number `m` times ten to the power `e`. */
  function Decimal(m: nat, e: int): real {
    if e == 0 then m as real
    else if e > 0 then (m * Pow10(e)) as real
    else m as real / Pow10(-e) as real
  }

  /** Strips one leading `+` or `-`; says whether it was `-`. */
  function StripSign(t: string): (bool, string) {
    if |t| > 0 && (t[0] == '+' || t[0] == '-') then (t[0] == '-', t[1..]) else (false, t)
  }

  /** Splits `s` into its longest prefix of digits of `radix` and the rest. */
  function ReadDigits(s: string, radix: nat): (string, string) {
    var n := LeadingDigits(s, radix);
    (s[..n], s[n..])
  }

  /** The digit reader splits `s` into a digit string and a rest that does
      not start with a digit. */
  lemma ReadDigitsSpec(s: string, radix: nat)
    ensures ReadDigits(s, radix).0 + ReadDigits(s, radix).1 == s
    ensures AllDigitsIn(ReadDigits(s, radix).0, radix)
    ensures var rest := ReadDigits(s, radix).1; |rest| == 0 || !IsDigitIn(rest[0], radix)
  {
    LeadingDigitsSpec(s, radix);
    var n := LeadingDigits(s, radix);
    assert s[..n] + s[n..] == s;
  }

  /** The exponent an ExponentPart prefix of `rest` denotes (`e`/`E`, optional
      sign, at least one digit), or 0 when `rest` does not start with one. */
  function ExponentPrefix(rest: string): int {
    if |rest| > 0 && (rest[0] == 'e' || rest[0] == 'E') then
      var (negative, w) := StripSign(rest[1..]);
      var (digits, _) := ReadDigits(w, 10);
      if |digits| == 0 then 0
      else if negative then -(DigitsValue(digits, 10) as int) else DigitsValue(digits, 10)
    else 0
  }

  /** The value of the longest StrUnsignedDecimalLiteral prefix of `u` other
      than `Infinity` (digits, an optional `.` with optional digits, at least
      one digit in all, then an optional exponent), as the value of its digit
      string and a power of ten. */
  function UnsignedDecimalPrefix(u: string): Option<(nat, int)> {
    var (whole, r1) := ReadDigits(u, 10);
    DecimalAfterWhole(whole, r1)
  }

  /** The decimal reader once the integer digits `whole` are read and `r1`
      is what follows them. */
  function DecimalAfterWhole(whole: string, r1: string): Option<(nat, int)> {
    if |r1| > 0 && r1[0] == '.' then DecimalFraction(whole, ReadDigits(r1[1..], 10))
    else if |whole| == 0 then None
    else Some((DigitsValue(whole, 10), ExponentPrefix(r1)))
  }

  /** The decimal reader once the point and the fraction digits are read;
      `split` holds the fraction digits and what follows them. */
  function DecimalFraction(whole: string, split: (string, string)): Option<(nat, int)> {
    if |whole| + |split.0| == 0 then None
    else Some((DigitsValue(whole + split.0, 10), ExponentPrefix(split.1) - |split.0|))
  }

  /** ECMAScript `parseFloat(s)`: the value of the longest prefix of the
      trimmed string that is a StrDecimalLiteral, or NaN when there is none. */
  function ParseFloat(s: string): Number {
    var (negative, u) := StripSign(TrimStart(s));
    if negative then Negate(UnsignedFloat(u)) else UnsignedFloat(u)
  }

  /** The value of the longest StrUnsignedDecimalLiteral prefix of `u`, or
      NaN when there is none. */
  function UnsignedFloat(u: string): Number {
    if "Infinity" <= u then Infinity(false)
    else match UnsignedDecimalPrefix(u)
      case None => NaN
      case Some((m, e)) => Finite(Decimal(m, e))
  }

  /** The number with its sign flipped, as unary `-` does. */
  function Negate(x: Number): Number {
    match x
    case Finite(v) => Finite(-v)
    case Infinity(negative) => Infinity(!negative)
    case NaN => NaN
  }

  /** ECMAScript `parseInt(s)` without a radix argument: white space and one
      sign are skipped, then an unsigned integer is read. `None` stands for
      NaN. */
  function ParseInt(s: string): Option<int> {
    var (negative, u) := StripSign(TrimStart(s));
    match UnsignedIntPrefix(u)
    case None => None
    case Some(v) => Some(if negative then -(v as int) else v)
  }

  predicate HasHexPrefix(u: string) {
    |u| >= 2 && u[0] == '0' && (u[1] == 'x' || u[1] == 'X')
  }

  /** The longest digit prefix of `u` in radix 16 after a `0x`/`0X` prefix,
      in radix 10 otherwise; `None` when there is no digit. */
  function UnsignedIntPrefix(u: string): Option<nat> {
    var radix := if HasHexPrefix(u) then 16 else 10;
    var (digits, _) := ReadDigits(if HasHexPrefix(u) then u[2..] else u, radix);
    if |digits| == 0 then None else Some(DigitsValue(digits, radix))
  }

  /** The decimal numeral of `n`, without leading zeros. */
  function ShowNat(n: nat): (s: string)
    ensures |s| > 0 && AllDigitsIn(s, 10)
  {
    if n < 10 then ['0' + n as char] else ShowNat(n / 10) + ['0' + (n % 10) as char]
  }

  lemma {:induction false} ShowNatValue(n: nat)
    ensures DigitsValue(ShowNat(n), 10) == n
  {
    if n >= 10 {
      var s := ShowNat(n);
      assert s[..|s| - 1] == ShowNat(n / 10);
      ShowNatValue(n / 10);
    }
  }

  /** A string that ends a numeral: empty, or not continuing it with a digit,
      a decimal point or an exponent marker. */
  predicate EndsNumeral(t: string) {
    |t| == 0 || (!IsDigitIn(t[0], 10) && t[0] != '.' && t[0] != 'e' && t[0] != 'E')
  }

  lemma {:induction false} LeadingDigitsOfConcat(d: string, t: string, radix: nat)
    requires AllDigitsIn(d, radix)
    requires |t| == 0 || !IsDigitIn(t[0], radix)
    ensures LeadingDigits(d + t, radix) == |d|
  {
    if |d| > 0 {
      assert (d + t)[1..] == d[1..] + t;
      LeadingDigitsOfConcat(d[1..], t, radix);
    } else {
      assert d + t == t;
    }
  }

  /** The digit reader stops exactly where the digits end. */
  lemma ReadDigitsOfConcat(d: string, t: string, radix: nat)
    requires AllDigitsIn(d, radix)
    requires |t| == 0 || !IsDigitIn(t[0], radix)
    ensures ReadDigits(d + t, radix) == (d, t)
  {
    LeadingDigitsOfConcat(d, t, radix);
    assert (d + t)[..|d|] == d;
    assert (d + t)[|d|..] == t;
  }

  /** A string starting with a digit is its own trimmed, unsigned form and
      does not spell `Infinity`, so `parseFloat` reads it as a decimal. */
  lemma ParseFloatOfDigitStart(s: string)
    requires |s| > 0 && IsDigitIn(s[0], 10)
    ensures ParseFloat(s) == match UnsignedDecimalPrefix(s)
      case None => NaN
      case Some((m, e)) => Finite(Decimal(m, e))
  {
    assert TrimStart(s) == s by { assert !IsWhiteSpace(s[0]); }
    assert StripSign(s) == (false, s);
    assert !("Infinity" <= s) by { assert s[0] != 'I'; }
  }

  lemma ReaderSplit(u: string, whole: string, r1: string)
    requires ReadDigits(u, 10) == (whole, r1)
    ensures UnsignedDecimalPrefix(u) == DecimalAfterWhole(whole, r1)
  {
  }

  /** One step of the decimal reader: digits not followed by a point. */
  lemma DecimalWithoutPoint(u: string, whole: string, rest: string)
    requires ReadDigits(u, 10) == (whole, rest)
    requires |whole| > 0 && !(|rest| > 0 && rest[0] == '.')
    ensures UnsignedDecimalPrefix(u) == Some((DigitsValue(whole, 10), ExponentPrefix(rest)))
  {
    ReaderSplit(u, whole, rest);
  }

  lemma AfterWholeWithPoint(whole: string, r1: string, fraction: string, rest: string)
    requires |r1| > 0 && r1[0] == '.'
    requires ReadDigits(r1[1..], 10) == (fraction, rest)
    requires |whole| + |fraction| > 0
    ensures DecimalAfterWhole(whole, r1)
      == Some((DigitsValue(whole + fraction, 10), ExponentPrefix(rest) - |fraction|))
  {
    AfterWholePoint(whole, r1);
    FractionValue(whole, fraction, rest);
  }

  lemma AfterWholePoint(whole: string, r1: string)
    requires |r1| > 0 && r1[0] == '.'
    ensures DecimalAfterWhole(whole, r1) == DecimalFraction(whole, ReadDigits(r1[1..], 10))
  {
  }

  lemma FractionValue(whole: string, fraction: string, rest: string)
    requires |whole| + |fraction| > 0
    ensures DecimalFraction(whole, (fraction, rest))
      == Some((DigitsValue(whole + fraction, 10), ExponentPrefix(rest) - |fraction|))
  {
    var r := DecimalFraction(whole, (fraction, rest));
    assert r.Some? && r.value.0 == DigitsValue(whole + fraction, 10);
    assert r.value.1 == ExponentPrefix(rest) - |fraction|;
  }

  /** One step of the decimal reader: digits, a point, more digits. */
  lemma DecimalWithPoint(u: string, whole: string, r1: string, fraction: string, rest: string)
    requires ReadDigits(u, 10) == (whole, r1)
    requires |r1| > 0 && r1[0] == '.'
    requires ReadDigits(r1[1..], 10) == (fraction, rest)
    requires |whole| + |fraction| > 0
    ensures UnsignedDecimalPrefix(u)
      == Some((DigitsValue(whole + fraction, 10), ExponentPrefix(rest) - |fraction|))
  {
    ReaderSplit(u, whole, r1);
    AfterWholeWithPoint(whole, r1, fraction, rest);
  }

  lemma ReadWholePart(d: string, f: string, t: string)
    requires AllDigitsIn(d, 10)
    ensures ReadDigits(d + "." + f + t, 10) == (d, ['.'] + (f + t))
  {
    assert d + "." + f + t == d + (['.'] + (f + t));
    ReadDigitsOfConcat(d, ['.'] + (f + t), 10);
  }

  lemma ReadFractionPart(f: string, t: string)
    requires AllDigitsIn(f, 10) && EndsNumeral(t)
    ensures ReadDigits((['.'] + (f + t))[1..], 10) == (f, t)
  {
    assert (['.'] + (f + t))[1..] == f + t;
    ReadDigitsOfConcat(f, t, 10);
  }

  lemma UnsignedFixedPoint(d: string, f: string, t: string)
    requires AllDigitsIn(d, 10) && AllDigitsIn(f, 10) && |d| > 0
    requires EndsNumeral(t)
    ensures UnsignedDecimalPrefix(d + "." + f + t) == Some((DigitsValue(d + f, 10), -|f|))
  {
    ReadWholePart(d, f, t);
    ReadFractionPart(f, t);
    DecimalWithPoint(d + "." + f + t, d, ['.'] + (f + t), f, t);
  }

  lemma UnsignedInteger(d: string, t: string)
    requires AllDigitsIn(d, 10) && |d| > 0
    requires EndsNumeral(t)
    ensures UnsignedDecimalPrefix(d + t) == Some((DigitsValue(d, 10), 0))
  {
    ReadDigitsOfConcat(d, t, 10);
    DecimalWithoutPoint(d + t, d, t);
    NoExponent(t);
    var r := UnsignedDecimalPrefix(d + t);
    assert r.Some? && r.value.0 == DigitsValue(d, 10);
    assert r.value.1 == 0;
  }

  /** Text that ends a numeral holds no exponent. */
  lemma NoExponent(t: string)
    requires EndsNumeral(t)
    ensures ExponentPrefix(t) == 0
  {
  }

  /** `parseFloat` reads a fixed-point numeral followed by any text that
      does not continue it: `"3.5kHz"` gives 3.5. */
  lemma ParseFloatFixedPoint(d: string, f: string, t: string)
    requires |d| > 0 && AllDigitsIn(d, 10) && AllDigitsIn(f, 10)
    requires EndsNumeral(t)
    ensures ParseFloat(d + "." + f + t) == Finite(Decimal(DigitsValue(d + f, 10), -|f|))
  {
    var s := d + "." + f + t;
    assert s[0] == d[0];
    ParseFloatOfDigitStart(s);
    UnsignedFixedPoint(d, f, t);
  }

  /** `parseFloat` reads an integer numeral followed by text that does not
      continue it. */
  lemma ParseFloatInteger(d: string, t: string)
    requires |d| > 0 && AllDigitsIn(d, 10)
    requires EndsNumeral(t)
    ensures ParseFloat(d + t) == Finite(DigitsValue(d, 10) as real)
  {
    assert (d + t)[0] == d[0];
    ParseFloatOfDigitStart(d + t);
    UnsignedInteger(d, t);
  }

  /** Printing a natural number and reading it back with `parseFloat`
      gives the number. */
  lemma ParseFloatShowNat(n: nat)
    ensures ParseFloat(ShowNat(n)) == Finite(n as real)
  {
    ParseFloatInteger(ShowNat(n), "");
    assert ShowNat(n) + "" == ShowNat(n);
    ShowNatValue(n);
  }

  /** The unsigned decimal reader fails exactly when the text starts
      neither with a digit nor with a point followed by a digit. */
  lemma UnsignedDecimalNoneIff(u: string)
    ensures UnsignedDecimalPrefix(u).None? <==>
      !(|u| > 0 && IsDigitIn(u[0], 10)) && !(|u| > 1 && u[0] == '.' && IsDigitIn(u[1], 10))
  {
    if |u| > 1 && u[0] == '.' && IsDigitIn(u[1], 10) {
      assert ReadDigits(u, 10).0 == "";
      assert |ReadDigits(u[1..], 10).0| > 0;
    }
  }

  /** `parseFloat` is NaN exactly when, after white space and one sign, the
      text starts neither with `Infinity`, nor with a digit, nor with a
      decimal point followed by a digit. */
  lemma ParseFloatNaNIff(s: string)
    ensures ParseFloat(s).NaN? <==>
      var u := StripSign(TrimStart(s)).1;
      && !("Infinity" <= u)
      && !(|u| > 0 && IsDigitIn(u[0], 10))
      && !(|u| > 1 && u[0] == '.' && IsDigitIn(u[1], 10))
  {
    UnsignedDecimalNoneIff(StripSign(TrimStart(s)).1);
  }

  /** Text whose first character can start neither white space, a sign, a
      numeral nor `Infinity` reads as NaN: `parseFloat("x")` is NaN. */
  lemma ParseFloatNonNumeric(s: string)
    requires |s| > 0 && !IsWhiteSpace(s[0]) && s[0] != '+' && s[0] != '-'
    requires !IsDigitIn(s[0], 10) && s[0] != '.' && s[0] != 'I'
    ensures ParseFloat(s) == NaN
  {
    assert TrimStart(s) == s;
    assert StripSign(s) == (false, s);
    assert !("Infinity" <= s);
    assert ReadDigits(s, 10) == ("", s);
    assert DecimalAfterWhole("", s) == None;
    ReaderSplit(s, "", s);
  }

  /** Text starting with a Latin letter other than the `I` of `Infinity`
      reads as NaN: `parseFloat("x")` and `parseFloat("kHz")` are NaN. */
  lemma ParseFloatLetterStart(s: string)
    requires |s| > 0 && (('a' <= s[0] <= 'z') || ('A' <= s[0] <= 'Z' && s[0] != 'I'))
    ensures ParseFloat(s) == NaN
  {
    ParseFloatNonNumeric(s);
  }

  /** White space before the text is all removed by `TrimStart`. */
  lemma {:induction false} TrimStartAfterWhiteSpace(ws: string, s: string)
    requires forall i :: 0 <= i < |ws| ==> IsWhiteSpace(ws[i])
    ensures TrimStart(ws + s) == TrimStart(s)
  {
    if |ws| > 0 {
      assert (ws + s)[0] == ws[0];
      assert (ws + s)[1..] == ws[1..] + s;
      TrimStartAfterWhiteSpace(ws[1..], s);
    } else {
      assert ws + s == s;
    }
  }

  /** White space before the text changes neither `parseFloat` nor
      `parseInt`. */
  lemma LeadingWhiteSpaceIgnored(ws: string, s: string)
    requires forall i :: 0 <= i < |ws| ==> IsWhiteSpace(ws[i])
    ensures ParseFloat(ws + s) == ParseFloat(s)
    ensures ParseInt(ws + s) == ParseInt(s)
  {
    TrimStartAfterWhiteSpace(ws, s);
  }

  /** One leading `-` negates what `parseFloat` reads when the text after
      it starts with neither white space nor a second sign. */
  lemma ParseFloatMinus(u: string, v: Number)
    requires |u| == 0 || (!IsWhiteSpace(u[0]) && u[0] != '+' && u[0] != '-')
    requires ParseFloat(u) == v
    ensures ParseFloat("-" + u) == Negate(v)
  {
    assert TrimStart("-" + u) == "-" + u;
    assert StripSign("-" + u) == (true, u) by { assert ("-" + u)[1..] == u; }
    assert TrimStart(u) == u;
    assert StripSign(u) == (false, u);
  }

  /** One leading `+` changes nothing `parseFloat` reads when the text
      after it starts with neither white space nor a second sign. */
  lemma ParseFloatPlus(u: string)
    requires |u| == 0 || (!IsWhiteSpace(u[0]) && u[0] != '+' && u[0] != '-')
    ensures ParseFloat("+" + u) == ParseFloat(u)
  {
    assert TrimStart("+" + u) == "+" + u;
    assert StripSign("+" + u) == (false, u) by { assert ("+" + u)[1..] == u; }
    assert TrimStart(u) == u;
    assert StripSign(u) == (false, u);
  }

  /** An ExponentPart `x`: `e`, an optional `-`, digits `k`, then text `t`
      that does not continue the digits. */
  predicate IsExponentPart(x: string, negative: bool, k: string, t: string) {
    && |k| > 0 && AllDigitsIn(k, 10)
    && (|t| == 0 || !IsDigitIn(t[0], 10))
    && x == "e" + (if negative then "-" else "") + k + t
  }

  /** The exponent an ExponentPart denotes is plus or minus the value of
      its digits. */
  lemma ExponentOf(x: string, negative: bool, k: string, t: string)
    requires IsExponentPart(x, negative, k, t)
    ensures ExponentPrefix(x) == if negative then -(DigitsValue(k, 10) as int) else DigitsValue(k, 10)
  {
    var sign := if negative then "-" else "";
    assert x[1..] == sign + (k + t);
    assert StripSign(x[1..]) == (negative, k + t) by {
      if negative { assert (sign + (k + t))[1..] == k + t; }
      else { assert x[1..] == k + t && x[1..][0] == k[0]; }
    }
    ReadDigitsOfConcat(k, t, 10);
  }

  /** The decimal reader on `d.f` followed by text starting with an
      exponent marker. */
  lemma UnsignedScientific(d: string, f: string, x: string)
    requires |d| > 0 && AllDigitsIn(d, 10) && AllDigitsIn(f, 10)
    requires |x| > 0 && (x[0] == 'e' || x[0] == 'E')
    ensures UnsignedDecimalPrefix(d + "." + f + x)
      == Some((DigitsValue(d + f, 10), ExponentPrefix(x) - |f|))
  {
    ReadWholePart(d, f, x);
    assert (['.'] + (f + x))[1..] == f + x;
    ReadDigitsOfConcat(f, x, 10);
    DecimalWithPoint(d + "." + f + x, d, ['.'] + (f + x), f, x);
  }

  /** `parseFloat` reads a fixed-point numeral `d.f` followed by an
      exponent marker as the numeral scaled by the exponent that follows
      (0 when no digits follow the marker): with `ExponentOf`, `"1.5e-3"`
      gives 15 times ten to the power -4. */
  lemma ParseFloatScientific(d: string, f: string, x: string)
    requires |d| > 0 && AllDigitsIn(d, 10) && AllDigitsIn(f, 10)
    requires |x| > 0 && (x[0] == 'e' || x[0] == 'E')
    ensures ParseFloat(d + "." + f + x) == Finite(Decimal(DigitsValue(d + f, 10), ExponentPrefix(x) - |f|))
  {
    var s := d + "." + f + x;
    assert s[0] == d[0];
    ParseFloatOfDigitStart(s);
    UnsignedScientific(d, f, x);
  }

  /** `parseFloat` reads an integer numeral followed by an exponent marker
      as the numeral scaled by the exponent that follows. */
  lemma ParseFloatIntegerExponent(d: string, x: string)
    requires |d| > 0 && AllDigitsIn(d, 10)
    requires |x| > 0 && (x[0] == 'e' || x[0] == 'E')
    ensures ParseFloat(d + x) == Finite(Decimal(DigitsValue(d, 10), ExponentPrefix(x)))
  {
    assert (d + x)[0] == d[0];
    ParseFloatOfDigitStart(d + x);
    ReadDigitsOfConcat(d, x, 10);
    DecimalWithoutPoint(d + x, d, x);
  }

  /** `parseFloat` reads `<d>e<k>` as d times ten to the power k. */
  lemma ParseFloatExponentNumeral(d: string, k: string)
    requires |d| > 0 && AllDigitsIn(d, 10)
    requires |k| > 0 && AllDigitsIn(k, 10)
    ensures ParseFloat(d + ("e" + k)) == Finite(Decimal(DigitsValue(d, 10), DigitsValue(k, 10)))
  {
    assert "e" + k == "e" + "" + k + "";
    ExponentOf("e" + k, false, k, "");
    ParseFloatIntegerExponent(d, "e" + k);
  }

  /** `parseFloat` reads `-<d>e<k>` as minus d times ten to the power k. */
  lemma ParseFloatNegativeExponent(d: string, k: string)
    requires |d| > 0 && AllDigitsIn(d, 10)
    requires |k| > 0 && AllDigitsIn(k, 10)
    ensures ParseFloat("-" + (d + ("e" + k))) == Finite(-Decimal(DigitsValue(d, 10), DigitsValue(k, 10)))
  {
    ParseFloatExponentNumeral(d, k);
    assert (d + ("e" + k))[0] == d[0];
    ParseFloatMinus(d + ("e" + k), Finite(Decimal(DigitsValue(d, 10), DigitsValue(k, 10))));
  }

  /** A negative number printed as `-<d>e<k>` reads back with `parseFloat`
      as minus d times ten to the power k. */
  lemma ParseFloatNegativeShowNatExponent(d: nat, k: nat)
    ensures ParseFloat("-" + (ShowNat(d) + ("e" + ShowNat(k)))) == Finite(-((d * Pow10(k)) as real))
  {
    ParseFloatNegativeExponent(ShowNat(d), ShowNat(k));
    ShowNatValue(d);
    ShowNatValue(k);
  }

  /** Text starting with a digit is read by `parseInt` as an unsigned
      integer. */
  lemma ParseIntOfDigitStart(s: string)
    requires |s| > 0 && IsDigitIn(s[0], 10)
    ensures ParseInt(s) == match UnsignedIntPrefix(s)
      case None => None
      case Some(v) => Some(v)
  {
    assert TrimStart(s) == s by { assert !IsWhiteSpace(s[0]); }
    assert StripSign(s) == (false, s);
  }

  lemma UnsignedIntDecimal(u: string, d: string, t: string)
    requires ReadDigits(u, 10) == (d, t) && |d| > 0
    requires !HasHexPrefix(u)
    ensures UnsignedIntPrefix(u) == Some(DigitsValue(d, 10))
  {
  }

  lemma NoHexPrefix(d: string, t: string)
    requires |d| > 0 && AllDigitsIn(d, 10)
    requires !(d == "0" && |t| > 0 && (t[0] == 'x' || t[0] == 'X'))
    ensures !HasHexPrefix(d + t)
  {
    var s := d + t;
    if |d| == 1 && |t| > 0 && s[0] == '0' {
      assert d == "0";
    }
    if |d| > 1 {
      assert s[1] == d[1];
    }
  }

  /** `parseInt` reads a decimal numeral followed by any non-digit text
      (`"10abc"` gives 10), unless the numeral is `0` and an `x` follows. */
  lemma ParseIntDecimal(d: string, t: string)
    requires |d| > 0 && AllDigitsIn(d, 10)
    requires |t| == 0 || !IsDigitIn(t[0], 10)
    requires !(d == "0" && |t| > 0 && (t[0] == 'x' || t[0] == 'X'))
    ensures ParseInt(d + t) == Some(DigitsValue(d, 10))
  {
    ReadDigitsOfConcat(d, t, 10);
    NoHexPrefix(d, t);
    UnsignedIntDecimal(d + t, d, t);
    assert (d + t)[0] == d[0];
    ParseIntOfDigitStart(d + t);
  }

  /** Printing a natural number and reading it back with `parseInt` gives
      the number. */
  lemma ParseIntShowNat(n: nat)
    ensures ParseInt(ShowNat(n)) == Some(n)
  {
    var d := ShowNat(n);
    assert d + "" == d;
    ParseIntDecimal(d, "");
    ShowNatValue(n);
  }

  /** `parseInt` is NaN exactly when no digit of the selected radix follows
      the white space, the sign and any `0x` prefix. */
  lemma ParseIntNaNIff(s: string)
    ensures ParseInt(s).None? <==>
      var u := StripSign(TrimStart(s)).1;
      if HasHexPrefix(u) then !(|u| > 2 && IsDigitIn(u[2], 16)) else !(|u| > 0 && IsDigitIn(u[0], 10))
  {
  }
}
