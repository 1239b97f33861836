/** Temperature text: what `float(text)` yields for the vendor's decimal
    strings, how a requested temperature is written into a payload, and
    Python's `round(x, 1)`. Values are exact reals; the binary rounding of
    Python floats is not modelled. */
module Decimal {
  import opened Types

  predicate IsDigit(c: char) { '0' <= c <= '9' }

  predicate AllDigits(s: string) { forall i :: 0 <= i < |s| ==> IsDigit(s[i]) }

  function DigitChar(d: nat): (c: char)
    requires d < 10
    ensures IsDigit(c)
  {
    ('0' as int + d) as char
  }

  /** The number a string of decimal digits denotes, most significant first. */
  function DigitsValue(s: string): nat
    requires AllDigits(s)
  {
    if s == [] then 0
    else DigitsValue(s[..|s| - 1]) * 10 + (s[|s| - 1] as int - '0' as int)
  }

  /** Python's `str(n)` for a natural number: its shortest decimal digits. */
  function NatText(n: nat): (s: string)
    ensures |s| > 0 && AllDigits(s)
    ensures DigitsValue(s) == n
    ensures |s| > 1 ==> s[0] != '0'
  {
    if n < 10 then [DigitChar(n)]
    else
      var s := NatText(n / 10) + [DigitChar(n % 10)];
      assert s[..|s| - 1] == NatText(n / 10);
      s
  }

  function IndexOf(s: string, c: char): (r: Option<nat>)
    ensures r.None? <==> c !in s
    ensures r.Some? ==> r.value < |s| && s[r.value] == c && c !in s[..r.value]
  {
    if s == [] then None
    else if s[0] == c then Some(0)
    else match IndexOf(s[1..], c)
      case None => None
      case Some(i) =>
        assert s[..i + 1] == [s[0]] + s[1..][..i];
        Some(i + 1)
  }

  /** The value of the digits after a decimal point: the first digit counts
      in tenths, the rest in tenths of a tenth, and so on. */
  function FractionValue(fraction: string): (r: real)
    requires AllDigits(fraction)
    ensures 0.0 <= r <= 1.0
  {
    if fraction == [] then 0.0
    else ((fraction[0] as int - '0' as int) as real + FractionValue(fraction[1..])) / 10.0
  }

  /** `float(text)` for text without a sign: digits, optionally split by one
      decimal point, with at least one digit in all. */
  function UnsignedValue(body: string): (r: Option<real>)
    ensures r.Some? ==> r.value >= 0.0
  {
    match IndexOf(body, '.')
    case None =>
      if body != [] && AllDigits(body) then Some(DigitsValue(body) as real) else None
    case Some(i) =>
      var whole, fraction := body[..i], body[i + 1..];
      if AllDigits(whole) && AllDigits(fraction) && |whole| + |fraction| > 0
      then Some(DigitsValue(whole) as real + FractionValue(fraction))
      else None
  }

  /** `float(text)` on plain decimal notation with an optional sign; `None`
      where Python raises `ValueError`. */
  function Parse(text: string): (r: Option<real>)
    ensures text == [] ==> r.None?
  {
    if text == [] then None
    else
      var signed := text[0] == '-' || text[0] == '+';
      var body := if signed then text[1..] else text;
      match UnsignedValue(body)
      case None => None
      case Some(v) => Some(if text[0] == '-' then -v else v)
  }

  /** Unsigned numeral text: digits with at most one decimal point, and at
      least one digit. */
  predicate NumeralBody(body: string)
  {
    && (exists i :: 0 <= i < |body| && IsDigit(body[i]))
    && forall i :: 0 <= i < |body| ==> IsDigit(body[i]) || (body[i] == '.' && '.' !in body[..i])
  }

  /** Numeral text: an optional sign, then an unsigned numeral. */
  predicate IsNumeral(text: string)
  {
    text != [] && NumeralBody(if text[0] == '-' || text[0] == '+' then text[1..] else text)
  }

  /** Only numerals parse: any other text makes `float` raise `ValueError`. */
  lemma ParseOnlyNumerals(text: string)
    requires Parse(text).Some?
    ensures IsNumeral(text)
  {
    var body := if text[0] == '-' || text[0] == '+' then text[1..] else text;
    UnsignedOnlyNumerals(body);
  }

  lemma UnsignedOnlyNumerals(body: string)
    requires UnsignedValue(body).Some?
    ensures NumeralBody(body)
  {
    match IndexOf(body, '.')
    case None =>
      assert IsDigit(body[0]);
    case Some(p) =>
      var whole, fraction := body[..p], body[p + 1..];
      forall i | 0 <= i < |body|
        ensures IsDigit(body[i]) || (body[i] == '.' && '.' !in body[..i])
      {
        if i < p {
          assert body[i] == whole[i];
        } else if i > p {
          assert body[i] == fraction[i - p - 1];
        }
      }
      if whole != [] {
        assert IsDigit(body[0]) by { assert body[0] == whole[0]; }
      } else {
        assert IsDigit(body[p + 1]) by { assert body[p + 1] == fraction[0]; }
      }
  }

  /** The text `async_set_temperature` sends for a temperature given in
      tenths of a degree: `str(int(t))` for a whole number, `str(t)` with one
      fractional digit otherwise. */
  function FormatTenths(t: int): string
  {
    (if t < 0 then "-" else "") + TenthsText(if t < 0 then -t else t)
  }

  /** The digits of `a` tenths without a sign. */
  function TenthsText(a: nat): string
  {
    NatText(a / 10) + (if a % 10 == 0 then "" else "." + [DigitChar(a % 10)])
  }

  lemma DigitsHaveNoPoint(s: string)
    requires AllDigits(s)
    ensures '.' !in s
  {
  }

  /** A whole-degree temperature is sent without a fractional part. */
  lemma FormatTenthsPoint(t: int)
    ensures '.' in FormatTenths(t) <==> t % 10 != 0
  {
  }

  lemma {:induction false} IndexOfAfterDigits(digits: string, rest: string)
    requires AllDigits(digits)
    ensures IndexOf(rest, '.').None? ==> IndexOf(digits + rest, '.').None?
    ensures IndexOf(rest, '.').Some? ==>
      IndexOf(digits + rest, '.') == Some(|digits| + IndexOf(rest, '.').value)
  {
    if digits == [] {
      assert digits + rest == rest;
    } else {
      var s := digits + rest;
      assert s[0] == digits[0] && IsDigit(s[0]);
      assert s[1..] == digits[1..] + rest;
      IndexOfAfterDigits(digits[1..], rest);
    }
  }

  /** `float` of the digits of a whole number. */
  lemma UnsignedWhole(q: nat)
    ensures UnsignedValue(NatText(q)) == Some(q as real)
  {
  }

  /** `float` of a whole number followed by one fractional digit. */
  lemma UnsignedTenths(q: nat, d: nat)
    requires 0 < d < 10
    ensures UnsignedValue(NatText(q) + "." + [DigitChar(d)]) == Some(q as real + d as real / 10.0)
  {
    UnsignedPointDigits(NatText(q), [DigitChar(d)]);
    assert [DigitChar(d)][1..] == [];
  }

  /** `float` of text that starts with a digit, or with a minus sign and a
      digit. */
  lemma ParseSigned(negative: bool, body: string)
    requires body != [] && IsDigit(body[0])
    ensures Parse((if negative then "-" else "") + body) ==
      match UnsignedValue(body)
      case None => None
      case Some(v) => Some(if negative then -v else v)
  {
    var text := (if negative then "-" else "") + body;
    if negative {
      assert text[1..] == body;
    } else {
      assert text == body;
    }
  }

  lemma UnsignedTenthsOf(a: nat)
    ensures UnsignedValue(TenthsText(a)) == Some(a as real / 10.0)
  {
    var q, d := a / 10, a % 10;
    assert a == 10 * q + d;
    assert a as real / 10.0 == q as real + d as real / 10.0;
    if d == 0 {
      assert TenthsText(a) == NatText(q);
      UnsignedWhole(q);
    } else {
      assert TenthsText(a) == NatText(q) + "." + [DigitChar(d)];
      UnsignedTenths(q, d);
    }
  }

  /** `float` of a string of digits. */
  lemma UnsignedDigits(whole: string)
    requires whole != [] && AllDigits(whole)
    ensures UnsignedValue(whole) == Some(DigitsValue(whole) as real)
  {
    DigitsHaveNoPoint(whole);
  }

  /** `float` of digits, a decimal point and more digits. */
  lemma UnsignedPointDigits(whole: string, fraction: string)
    requires whole != [] && AllDigits(whole) && AllDigits(fraction)
    ensures UnsignedValue(whole + "." + fraction) == Some(DigitsValue(whole) as real + FractionValue(fraction))
  {
    var body := whole + "." + fraction;
    PointAfterDigits(whole, fraction);
  }

  /** In digits, a point and more text, the first point follows the digits. */
  lemma PointAfterDigits(whole: string, fraction: string)
    requires AllDigits(whole)
    ensures IndexOf(whole + "." + fraction, '.') == Some(|whole|)
    ensures (whole + "." + fraction)[..|whole|] == whole
    ensures (whole + "." + fraction)[|whole| + 1..] == fraction
  {
    var tail: string := "." + fraction;
    assert whole + "." + fraction == whole + tail;
    assert IndexOf(tail, '.') == Some(0);
    IndexOfAfterDigits(whole, tail);
  }

  /** Plain decimal text: digits, then a point and more digits when there is
      a fractional part, as in "16" or "16.5". */
  function DecimalText(whole: string, fraction: string): string
  {
    whole + (if fraction == [] then "" else "." + fraction)
  }

  /** `float` of a vendor temperature text such as "16" or "16.5". */
  lemma ParseDecimalText(whole: string, fraction: string)
    requires whole != [] && AllDigits(whole) && AllDigits(fraction)
    ensures Parse(DecimalText(whole, fraction)) == Some(DigitsValue(whole) as real + FractionValue(fraction))
  {
    var body := DecimalText(whole, fraction);
    UnsignedDecimalText(whole, fraction);
    assert body[0] == whole[0];
    ParseSigned(false, body);
    assert "" + body == body;
  }

  /** `float` of a negative temperature text such as "-2.5". */
  lemma ParseNegativeDecimalText(whole: string, fraction: string)
    requires whole != [] && AllDigits(whole) && AllDigits(fraction)
    ensures Parse("-" + DecimalText(whole, fraction)) == Some(-(DigitsValue(whole) as real + FractionValue(fraction)))
  {
    var body := DecimalText(whole, fraction);
    UnsignedDecimalText(whole, fraction);
    assert body[0] == whole[0];
    ParseSigned(true, body);
  }

  /** `float` of digits, optionally followed by a point and more digits. */
  lemma UnsignedDecimalText(whole: string, fraction: string)
    requires whole != [] && AllDigits(whole) && AllDigits(fraction)
    ensures UnsignedValue(DecimalText(whole, fraction)) == Some(DigitsValue(whole) as real + FractionValue(fraction))
  {
    if fraction == [] {
      assert DecimalText(whole, fraction) == whole;
      UnsignedDigits(whole);
    } else {
      assert DecimalText(whole, fraction) == whole + "." + fraction;
      UnsignedPointDigits(whole, fraction);
    }
  }

  lemma TenthsTextStartsWithDigit(a: nat)
    ensures TenthsText(a) != [] && IsDigit(TenthsText(a)[0])
  {
    assert TenthsText(a)[0] == NatText(a / 10)[0];
  }

  /** The cloud reads back exactly the temperature that was requested. */
  lemma {:induction false} FormatTenthsRoundTrip(t: int)
    ensures Parse(FormatTenths(t)) == Some(t as real / 10.0)
  {
    var a: nat := if t < 0 then -t else t;
    TenthsTextStartsWithDigit(a);
    ParseSigned(t < 0, TenthsText(a));
    UnsignedTenthsOf(a);
  }

  /** Python's `round(x, 1)`: the nearest tenth, a tie going to the even
      tenth. */
  function RoundTenth(x: real): real
  {
    var y := x * 10.0;
    var f := y.Floor;
    var frac := y - f as real;
    var n := if frac < 0.5 then f
             else if frac > 0.5 then f + 1
             else if f % 2 == 0 then f else f + 1;
    n as real / 10.0
  }

  /** The gaps that round to a whole degree. */
  lemma RoundTenthIsOne(x: real)
    ensures RoundTenth(x) == 1.0 <==> 0.95 <= x <= 1.05
  {
  }

  /** The gaps that round to half a degree. */
  lemma RoundTenthIsHalf(x: real)
    ensures RoundTenth(x) == 0.5 <==> 0.45 < x < 0.55
  {
  }
}

