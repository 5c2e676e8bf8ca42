/** Decimal numbers and the part of the grammar of Python's `Decimal(text)`
    that this model covers:

      numeral  ::= [sign] (digits '.' [digits] | ['.'] digits) [exponent]
      exponent ::= ('e' | 'E') [sign] digits
      sign     ::= '+' | '-'

    The value keeps Python's representation (`Decimal.as_tuple()`): a sign,
    an integer coefficient and a power-of-ten exponent, so `1.50` and `1.5`
    are different representations of the same number, and `-0` is kept. */
module Decimals {
  import opened Wrappers

  /** (-1)^negative * coefficient * 10^exponent. */
  datatype Decimal = Decimal(negative: bool, coefficient: nat, exponent: int)

  datatype Sign = Unsigned | Plus | Minus

  /** The exponent part as written: which indicator letter, its sign, its digits. */
  datatype Exponent = Exponent(upper: bool, sign: Sign, digits: string)

  /** A numeral as written, piece by piece; `point` records whether a '.'
      was written, `fraction` the digits after it. */
  datatype Numeral = Numeral(sign: Sign, whole: string, point: bool, fraction: string, exponent: Option<Exponent>)

  predicate IsDigit(c: char)
  {
    '0' <= c <= '9'
  }

  predicate AllDigits(s: string)
  {
    forall i :: 0 <= i < |s| ==> IsDigit(s[i])
  }

  /** The pieces of a numeral fit the grammar: digit strings where digits
      belong, at least one digit in the mantissa, a fraction only after a
      point, and at least one exponent digit after the indicator. */
  predicate WellFormed(n: Numeral)
  {
    && AllDigits(n.whole)
    && AllDigits(n.fraction)
    && (|n.whole| > 0 || |n.fraction| > 0)
    && (!n.point ==> n.fraction == "")
    && (n.exponent.Some? ==> |n.exponent.value.digits| > 0 && AllDigits(n.exponent.value.digits))
  }

  function SignText(s: Sign): string
  {
    match s
    case Unsigned => ""
    case Plus => "+"
    case Minus => "-"
  }

  function ExponentText(e: Option<Exponent>): string
  {
    match e
    case None => ""
    case Some(x) => (if x.upper then "E" else "e") + (SignText(x.sign) + x.digits)
  }

  /** The text of a numeral. */
  function Render(n: Numeral): string
  {
    SignText(n.sign) + (n.whole + ((if n.point then "." else "") + (n.fraction + ExponentText(n.exponent))))
  }

  function DigitValue(c: char): nat
    requires IsDigit(c)
  {
    c as int - '0' as int
  }

  /** The number a digit string denotes in base ten (leading zeros allowed). */
  function DigitsValue(s: string): nat
    requires AllDigits(s)
  {
    if |s| == 0 then 0 else DigitsValue(s[..|s| - 1]) * 10 + DigitValue(s[|s| - 1])
  }

  function Signed(s: Sign, m: nat): int
  {
    if s == Minus then -(m as int) else m
  }

  lemma AllDigitsAppend(a: string, b: string)
    requires AllDigits(a) && AllDigits(b)
    ensures AllDigits(a + b)
  {
  }

  /** The decimal a well-formed numeral denotes: the whole and fraction
      digits form the coefficient, and each fraction digit lowers the
      written exponent by one. */
  function ValueOf(n: Numeral): Decimal
    requires WellFormed(n)
  {
    AllDigitsAppend(n.whole, n.fraction);
    var written := if n.exponent.Some? then Signed(n.exponent.value.sign, DigitsValue(n.exponent.value.digits)) else 0;
    Decimal(n.sign == Minus, DigitsValue(n.whole + n.fraction), written - |n.fraction|)
  }

  /** The longest prefix of digits, and the text after it. */
  function SplitDigits(s: string): (r: (string, string))
    ensures r.0 + r.1 == s
    ensures AllDigits(r.0)
    ensures r.1 == "" || !IsDigit(r.1[0])
  {
    if |s| > 0 && IsDigit(s[0]) then
      var (d, rest) := SplitDigits(s[1..]);
      ([s[0]] + d, rest)
    else ("", s)
  }

  /** An optional leading sign, and the text after it. */
  function SplitSign(s: string): (r: (Sign, string))
    ensures SignText(r.0) + r.1 == s
  {
    if |s| > 0 && s[0] == '+' then (Plus, s[1..])
    else if |s| > 0 && s[0] == '-' then (Minus, s[1..])
    else (Unsigned, s)
  }

  /** An optional decimal point, and the text after it. */
  function SplitPoint(s: string): (r: (bool, string))
    ensures r.0 == (|s| > 0 && s[0] == '.')
    ensures (if r.0 then "." else "") + r.1 == s
  {
    if |s| > 0 && s[0] == '.' then (true, s[1..]) else (false, s)
  }

  /** What may follow the mantissa: nothing, or an exponent part that runs
      to the end of the text. The outer None rejects the text. */
  function ParseExponent(s: string): (r: Option<Option<Exponent>>)
    ensures r.Some? && r.value.Some? ==> |r.value.value.digits| > 0 && AllDigits(r.value.value.digits)
  {
    if s == "" then Some(None)
    else if s[0] == 'e' || s[0] == 'E' then
      var signed := SplitSign(s[1..]);
      var digits := SplitDigits(signed.1);
      if digits.0 != "" && digits.1 == "" then Some(Some(Exponent(s[0] == 'E', signed.0, digits.0)))
      else None
    else None
  }

  /** Reads a whole text as a numeral, or None when the text is not in the
      grammar (Python's `decimal.InvalidOperation`). */
  function ParseNumeral(s: string): (r: Option<Numeral>)
    ensures r.Some? ==> WellFormed(r.value)
  {
    var signed := SplitSign(s);
    var whole := SplitDigits(signed.1);
    var point := SplitPoint(whole.1);
    var fraction := SplitDigits(point.1);
    if whole.0 == "" && fraction.0 == "" then None
    else
      match ParseExponent(fraction.1)
      case None => None
      case Some(e) => Some(Numeral(signed.0, whole.0, point.0, fraction.0, e))
  }

  /** `Decimal(text)` on the modelled grammar; None is InvalidOperation. */
  function Parse(s: string): Option<Decimal>
  {
    match ParseNumeral(s)
    case None => None
    case Some(n) => Some(ValueOf(n))
  }

  lemma ParseExponentSound(s: string)
    requires ParseExponent(s).Some?
    ensures ExponentText(ParseExponent(s).value) == s
  {
    if s != "" {
      var t := s[1..];
      var signed := SplitSign(t);
      var digits := SplitDigits(signed.1);
      assert digits.1 == "";
      assert digits.0 == signed.1 by {
        assert digits.0 + digits.1 == digits.0;
      }
      var letter := if s[0] == 'E' then "E" else "e";
      assert ExponentText(ParseExponent(s).value) == letter + t;
      assert letter == [s[0]];
      assert [s[0]] + t == s;
    }
  }

  /** Soundness: what the parser accepts is a well-formed numeral whose
      text is exactly the input. */
  lemma ParseNumeralSound(s: string)
    requires ParseNumeral(s).Some?
    ensures WellFormed(ParseNumeral(s).value)
    ensures Render(ParseNumeral(s).value) == s
  {
    var signed := SplitSign(s);
    var whole := SplitDigits(signed.1);
    var point := SplitPoint(whole.1);
    var fraction := SplitDigits(point.1);
    ParseExponentSound(fraction.1);
    var n := ParseNumeral(s).value;
    assert n == Numeral(signed.0, whole.0, point.0, fraction.0, ParseExponent(fraction.1).value);
    assert ExponentText(n.exponent) == fraction.1;
  }

  /** A digit prefix followed by a non-digit splits off exactly. */
  lemma {:induction false} SplitDigitsOf(digits: string, rest: string)
    requires AllDigits(digits)
    requires rest == "" || !IsDigit(rest[0])
    ensures SplitDigits(digits + rest) == (digits, rest)
  {
    if |digits| > 0 {
      assert (digits + rest)[0] == digits[0];
      assert (digits + rest)[1..] == digits[1..] + rest;
      SplitDigitsOf(digits[1..], rest);
      assert [digits[0]] + digits[1..] == digits;
    } else {
      assert digits + rest == rest;
    }
  }

  /** A written sign splits off exactly, when the text after an absent
      sign does not itself start with one. */
  lemma SplitSignOf(sign: Sign, rest: string)
    requires sign == Unsigned ==> rest == "" || (rest[0] != '+' && rest[0] != '-')
    ensures SplitSign(SignText(sign) + rest) == (sign, rest)
  {
    if sign == Unsigned {
      assert SignText(sign) + rest == rest;
    } else {
      assert (SignText(sign) + rest)[1..] == rest;
    }
  }

  lemma ParseExponentOf(e: Option<Exponent>)
    requires e.Some? ==> |e.value.digits| > 0 && AllDigits(e.value.digits)
    ensures ParseExponent(ExponentText(e)) == Some(e)
  {
    match e
    case None =>
    case Some(x) =>
      var t := ExponentText(e);
      assert t[1..] == SignText(x.sign) + x.digits;
      assert IsDigit(x.digits[0]);
      SplitSignOf(x.sign, x.digits);
      SplitDigitsOf(x.digits, "");
      assert x.digits + "" == x.digits;
  }

  /** Completeness: every well-formed numeral's text parses back to it. */
  lemma ParseRender(n: Numeral)
    requires WellFormed(n)
    ensures ParseNumeral(Render(n)) == Some(n)
  {
    var pt := if n.point then "." else "";
    var d := ExponentText(n.exponent);
    var c := n.fraction + d;
    var b := pt + c;
    var a := n.whole + b;
    assert Render(n) == SignText(n.sign) + a;
    // After the fraction comes the exponent indicator or the end.
    assert d == "" || d[0] == 'e' || d[0] == 'E';
    SplitDigitsOf(n.fraction, d);
    // After the whole digits comes the point, the indicator or the end.
    assert b == "" || !IsDigit(b[0]);
    SplitDigitsOf(n.whole, b);
    assert a == "" || IsDigit(a[0]) || a[0] == '.';
    SplitSignOf(n.sign, a);
    assert n.point ==> b[1..] == c;
    assert !n.point ==> b == c;
    assert SplitPoint(b) == (n.point, c);
    ParseExponentOf(n.exponent);
  }

  /** The digits of a number in base ten, without leading zeros. */
  function NatDigits(m: nat): (s: string)
    ensures |s| > 0 && AllDigits(s)
    ensures DigitsValue(s) == m
  {
    var last := ('0' as int + m % 10) as char;
    if m < 10 then [last]
    else
      var s := NatDigits(m / 10) + [last];
      assert s[..|s| - 1] == NatDigits(m / 10);
      s
  }

  /** A canonical numeral for a decimal: its coefficient's digits and an
      explicit exponent, `-1999E-2` for Decimal('-19.99'). */
  function Canonical(d: Decimal): (n: Numeral)
    ensures WellFormed(n) && ValueOf(n) == d
  {
    var mag: nat := if d.exponent < 0 then -d.exponent else d.exponent;
    var n := Numeral(if d.negative then Minus else Unsigned, NatDigits(d.coefficient), false, "",
                     Some(Exponent(true, if d.exponent < 0 then Minus else Unsigned, NatDigits(mag))));
    assert n.whole + n.fraction == n.whole;
    n
  }

  /** The text of a decimal, in the canonical form. */
  function Format(d: Decimal): string
  {
    Render(Canonical(d))
  }

  /** Every decimal survives formatting and parsing. */
  lemma ParseFormat(d: Decimal)
    ensures Parse(Format(d)) == Some(d)
  {
    ParseRender(Canonical(d));
  }

  /** Parsing a numeral's text gives the number the numeral denotes. */
  lemma ParseValue(n: Numeral)
    requires WellFormed(n)
    ensures Parse(Render(n)) == Some(ValueOf(n))
  {
    ParseRender(n);
  }
}
