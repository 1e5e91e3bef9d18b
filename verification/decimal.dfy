/**
 * Python's `decimal.Decimal` as far as the program uses it: reading a number
 * from text, asking whether it is whole, converting a whole one to an
 * integer, and rendering it in fixed-point notation with `format(d, "f")`.
 * Only ASCII digits and letters are modelled.
 */
module Decimals {
  import opened Wrappers
  import opened Text

  /** A decimal: sign, coefficient and exponent, or one of the special values. */
  datatype Dec =
    | Finite(neg: bool, coeff: nat, exp: int)
    | Infinite(neg: bool)
    | NaN(signaling: bool)

  // ---------------------------------------------------------------------------
  // Text helpers
  // ---------------------------------------------------------------------------

  /** `s.replace(c, "")`. */
  function Remove(s: string, c: char): (r: string)
    ensures c !in r
    ensures |r| <= |s|
    ensures c !in s ==> r == s
  {
    if |s| == 0 then ""
    else if s[0] == c then Remove(s[1..], c)
    else [s[0]] + Remove(s[1..], c)
  }

  /** Removing a character works piecewise over a concatenation. */
  lemma {:induction false} RemoveConcat(a: string, b: string, c: char)
    ensures Remove(a + b, c) == Remove(a, c) + Remove(b, c)
    decreases |a|
  {
    if |a| > 0 {
      assert (a + b)[1..] == a[1..] + b;
      RemoveConcat(a[1..], b, c);
    } else {
      assert a + b == b;
    }
  }

  /** The first position of `c` in `s`. */
  function IndexOf(s: string, c: char): (r: Option<nat>)
    ensures r.None? <==> c !in s
    ensures r.Some? ==> r.value < |s| && s[r.value] == c && c !in s[..r.value]
  {
    if |s| == 0 then None
    else if s[0] == c then Some(0)
    else
      match IndexOf(s[1..], c)
      case None => None
      case Some(i) =>
        assert s[..i + 1] == [s[0]] + s[1..][..i];
        Some(i + 1)
  }

  predicate IsExponentMark(c: char) {
    c == 'e' || c == 'E'
  }

  /** The first position of an exponent mark. */
  function IndexOfExponent(s: string): (r: Option<nat>)
    ensures r.None? <==> forall i :: 0 <= i < |s| ==> !IsExponentMark(s[i])
    ensures r.Some? ==> r.value < |s| && IsExponentMark(s[r.value])
  {
    if |s| == 0 then None
    else if IsExponentMark(s[0]) then Some(0)
    else
      match IndexOfExponent(s[1..])
      case None => None
      case Some(i) => Some(i + 1)
  }

  /** `s.rstrip(c)` for one character: drop the trailing run of `c`. */
  function RStrip(s: string, c: char): (r: string)
    ensures |r| <= |s| && s[..|r|] == r
    ensures |r| == 0 || r[|r| - 1] != c
    ensures forall i :: |r| <= i < |s| ==> s[i] == c
  {
    if |s| > 0 && s[|s| - 1] == c then RStrip(s[..|s| - 1], c) else s
  }

  // ---------------------------------------------------------------------------
  // Reading a decimal
  // ---------------------------------------------------------------------------

  /**
   * The numeric part before any exponent: digits with at most one point and
   * at least one digit.  Gives the digits without the point and how many
   * of them follow it.
   */
  function ParseMantissa(m: string): (r: Option<(string, nat)>)
    ensures r.Some? ==> AllDigits(r.value.0) && |r.value.0| >= 1 && r.value.1 <= |r.value.0|
  {
    match IndexOf(m, '.')
    case None => if |m| > 0 && AllDigits(m) then Some((m, 0)) else None
    case Some(i) =>
      var whole := m[..i];
      var frac := m[i + 1..];
      if AllDigits(whole) && AllDigits(frac) && |whole| + |frac| > 0 then Some((whole + frac, |frac|))
      else None
  }

  /** The exponent after the mark: an optional sign and at least one digit. */
  function ParseExponent(e: string): (r: Option<int>)
  {
    if |e| > 0 && (e[0] == '+' || e[0] == '-') then
      if |e| > 1 && AllDigits(e[1..]) then
        var v: int := DigitsValue(e[1..]);
        Some(if e[0] == '-' then -v else v)
      else None
    else if |e| > 0 && AllDigits(e) then Some(DigitsValue(e))
    else None
  }

  /** A finite number without its sign: mantissa, then an optional exponent part. */
  function ParseFinite(neg: bool, body: string): (r: Option<Dec>)
    ensures r.Some? ==> r.value.Finite? && r.value.neg == neg
  {
    match IndexOfExponent(body)
    case None => FiniteOf(neg, ParseMantissa(body), Some(0))
    case Some(i) => FiniteOf(neg, ParseMantissa(body[..i]), ParseExponent(body[i + 1..]))
  }

  /** The number a mantissa and an exponent denote, when both were read. */
  function FiniteOf(neg: bool, m: Option<(string, nat)>, e: Option<int>): (r: Option<Dec>)
    requires m.Some? ==> AllDigits(m.value.0)
  {
    if m.Some? && e.Some? then Some(Finite(neg, DigitsValue(m.value.0), e.value - m.value.1)) else None
  }

  /** A value after its sign: the words for infinity and NaN ignore letter case. */
  function ParseUnsigned(neg: bool, body: string): (r: Option<Dec>)
  {
    var low := Lower(body);
    if low == "inf" || low == "infinity" then Some(Infinite(neg))
    else if |low| >= 3 && low[..3] == "nan" && AllDigits(low[3..]) then Some(NaN(false))
    else if |low| >= 4 && low[..4] == "snan" && AllDigits(low[4..]) then Some(NaN(true))
    else ParseFinite(neg, body)
  }

  /**
   * `Decimal(text)`: surrounding whitespace is ignored and underscores are
   * dropped anywhere, then an optional sign precedes the value.  None is the
   * `InvalidOperation` the constructor raises on anything else.
   */
  function ParseDecimal(text: string): (r: Option<Dec>)
    ensures AllSpace(text) ==> r.None?
  {
    var u := Remove(Strip(text), '_');
    if |u| > 0 && (u[0] == '+' || u[0] == '-') then ParseUnsigned(u[0] == '-', u[1..])
    else ParseUnsigned(false, u)
  }

  /**
   * A number read from text is negative exactly when the text, stripped
   * and without underscores, starts with a minus; NaN carries no sign here.
   */
  lemma ParseDecimalSign(text: string)
    ensures var r := ParseDecimal(text); var u := Remove(Strip(text), '_');
      r.Some? && !r.value.NaN? ==> (r.value.neg <==> |u| > 0 && u[0] == '-')
  {
    var u := Remove(Strip(text), '_');
    if |u| > 0 && (u[0] == '+' || u[0] == '-') {
      UnsignedSign(u[0] == '-', u[1..]);
    } else {
      UnsignedSign(false, u);
    }
  }

  lemma UnsignedSign(neg: bool, body: string)
    ensures var r := ParseUnsigned(neg, body); r.Some? && !r.value.NaN? ==> r.value.neg == neg
  {
  }

  /** A value that starts with a digit is never one of the special words. */
  lemma DigitLedUnsigned(neg: bool, body: string)
    requires |body| > 0 && IsDigit(body[0])
    ensures ParseUnsigned(neg, body) == ParseFinite(neg, body)
  {
    var low := Lower(body);
    assert IsDigit(low[0]);
    assert low != "inf" && low != "infinity";
    assert !(|low| >= 3 && low[..3] == "nan");
    assert !(|low| >= 4 && low[..4] == "snan");
  }

  /** Text already trimmed, free of underscores and led by a sign or a digit is read as a finite number. */
  lemma PlainText(t: string, neg: bool, body: string)
    requires Trimmed(t) && '_' !in t
    requires t == (if neg then "-" else "") + body
    requires |body| > 0 && IsDigit(body[0])
    ensures ParseDecimal(t) == ParseFinite(neg, body)
  {
    assert Strip(t) == t;
    assert Remove(t, '_') == t;
    if neg {
      assert t[0] == '-' && t[1..] == body;
    } else {
      assert t == body;
    }
    DigitLedUnsigned(neg, body);
  }

  /** Without an exponent mark the whole text is the mantissa. */
  lemma NoExponent(neg: bool, body: string)
    requires forall i :: 0 <= i < |body| ==> !IsExponentMark(body[i])
    ensures ParseFinite(neg, body) ==
      match ParseMantissa(body)
      case Some(m) => Some(Finite(neg, DigitsValue(m.0), -(m.1 as int)))
      case None => None
  {
    assert IndexOfExponent(body).None?;
  }

  /** A run of digits has no whitespace at either end. */
  lemma DigitsTrimmed(s: string)
    requires |s| > 0 && AllDigits(s)
    ensures Trimmed(s)
  {
    assert IsDigit(s[0]) && IsDigit(s[|s| - 1]);
    assert !IsSpace(s[0]) && !IsSpace(s[|s| - 1]);
  }

  /** A run of digits holds no underscore. */
  lemma DigitsNoUnderscore(s: string)
    requires AllDigits(s)
    ensures '_' !in s
  {
    forall i | 0 <= i < |s| ensures s[i] != '_' {
      assert IsDigit(s[i]);
    }
  }

  /** Any run of plain digits reads back as that whole number. */
  lemma ParseDigits(s: string)
    requires |s| > 0 && AllDigits(s)
    ensures ParseDecimal(s) == Some(Finite(false, DigitsValue(s), 0))
  {
    DigitsTrimmed(s);
    DigitsNoUnderscore(s);
    PlainText(s, false, s);
    DigitsFinite(s);
  }

  lemma DigitsFinite(s: string)
    requires |s| > 0 && AllDigits(s)
    ensures ParseFinite(false, s) == Some(Finite(false, DigitsValue(s), 0))
  {
    assert forall i :: 0 <= i < |s| ==> !IsExponentMark(s[i]) by {
      forall i | 0 <= i < |s| ensures !IsExponentMark(s[i]) {
        assert IsDigit(s[i]);
      }
    }
    NoExponent(false, s);
    assert '.' !in s by {
      forall i | 0 <= i < |s| ensures s[i] != '.' {
        assert IsDigit(s[i]);
      }
    }
    assert ParseMantissa(s) == Some((s, 0));
  }

  /** Removing underscores keeps every exponent mark. */
  lemma {:induction false} RemoveKeepsMark(s: string, k: nat)
    requires k < |s| && IsExponentMark(s[k])
    ensures exists j :: 0 <= j < |Remove(s, '_')| && IsExponentMark(Remove(s, '_')[j])
    decreases |s|
  {
    var r := Remove(s, '_');
    if k == 0 {
      assert r[0] == s[0];
    } else {
      RemoveKeepsMark(s[1..], k - 1);
      var j :| 0 <= j < |Remove(s[1..], '_')| && IsExponentMark(Remove(s[1..], '_')[j]);
      if s[0] != '_' {
        assert r[j + 1] == Remove(s[1..], '_')[j];
      }
    }
  }

  /** None of the words for infinity and NaN holds an exponent mark. */
  lemma MarkedUnsignedFinite(neg: bool, body: string, j: nat)
    requires j < |body| && IsExponentMark(body[j])
    ensures ParseUnsigned(neg, body) == ParseFinite(neg, body)
  {
    var low := Lower(body);
    assert low[j] == 'e';
    assert low != "inf" && low != "infinity" by {
      assert 'e' in low;
    }
    if |low| >= 3 && low[..3] == "nan" && AllDigits(low[3..]) {
      WordWithoutE(low, 3);
    }
    if |low| >= 4 && low[..4] == "snan" && AllDigits(low[4..]) {
      WordWithoutE(low, 4);
    }
  }

  /** A word whose first `n` letters hold no `e` and whose rest is digits holds no `e`. */
  lemma WordWithoutE(low: string, n: nat)
    requires n <= |low| && 'e' !in low[..n] && AllDigits(low[n..])
    ensures 'e' !in low
  {
    forall i | 0 <= i < |low| ensures low[i] != 'e' {
      if i < n {
        assert low[i] == low[..n][i];
      } else {
        assert low[i] == low[n..][i - n];
      }
    }
  }

  /** Text with an exponent mark is never infinity or NaN: it reads as a finite number or not at all. */
  lemma ExponentTextFinite(t: string, k: nat)
    requires k < |Strip(t)| && IsExponentMark(Strip(t)[k])
    ensures ParseDecimal(t).Some? ==> ParseDecimal(t).value.Finite?
  {
    var u := Remove(Strip(t), '_');
    RemoveKeepsMark(Strip(t), k);
    var j :| 0 <= j < |u| && IsExponentMark(u[j]);
    if |u| > 0 && (u[0] == '+' || u[0] == '-') {
      assert u[1..][j - 1] == u[j];
      MarkedUnsignedFinite(u[0] == '-', u[1..], j - 1);
    } else {
      MarkedUnsignedFinite(false, u, j);
    }
  }

  /** Digits followed by `E` and a whole exponent, as in `79483E7`, read as that coefficient and exponent. */
  lemma ScientificDigits(s: string, k: nat)
    requires |s| > 0 && AllDigits(s)
    ensures ParseDecimal(s + "E" + NatToString(k)) == Some(Finite(false, DigitsValue(s), k))
  {
    var e := NatToString(k);
    var t := s + "E" + e;
    ScientificReadsFinite(s, e, t);
    ScientificFinite(s, e, t);
    ExponentDigits(k);
  }

  lemma ScientificReadsFinite(s: string, e: string, t: string)
    requires |s| > 0 && AllDigits(s) && |e| > 0 && AllDigits(e) && t == s + "E" + e
    ensures ParseDecimal(t) == ParseFinite(false, t)
  {
    assert Trimmed(t) by {
      assert t[0] == s[0] && t[|t| - 1] == e[|e| - 1];
      assert IsDigit(t[0]) && IsDigit(t[|t| - 1]);
    }
    assert '_' !in t by {
      forall i | 0 <= i < |t| ensures t[i] != '_' {
        if i < |s| {
          assert t[i] == s[i];
        } else if i > |s| {
          assert t[i] == e[i - |s| - 1];
        }
      }
    }
    PlainText(t, false, t);
  }

  lemma ScientificFinite(s: string, e: string, t: string)
    requires |s| > 0 && AllDigits(s) && t == s + "E" + e
    ensures ParseFinite(false, t) == FiniteOf(false, Some((s, 0)), ParseExponent(e))
  {
    assert t[..|s|] == s && t[|s|] == 'E' && t[|s| + 1..] == e;
    assert forall i :: 0 <= i < |s| ==> !IsExponentMark(t[i]) by {
      forall i | 0 <= i < |s| ensures !IsExponentMark(t[i]) {
        assert t[i] == s[i] && IsDigit(s[i]);
      }
    }
    PrefixWithoutMark(t, |s|);
    assert '.' !in s by {
      forall i | 0 <= i < |s| ensures s[i] != '.' {
        assert IsDigit(s[i]);
      }
    }
    assert ParseMantissa(s) == Some((s, 0));
  }

  /** A whole number's digits read back as that exponent. */
  lemma ExponentDigits(k: nat)
    ensures ParseExponent(NatToString(k)) == Some(k)
  {
    var e := NatToString(k);
    assert IsDigit(e[0]);
  }

  /** The first exponent mark is at `n` when the `n` characters before it have none. */
  lemma {:induction false} PrefixWithoutMark(t: string, n: nat)
    requires n < |t| && IsExponentMark(t[n])
    requires forall i :: 0 <= i < n ==> !IsExponentMark(t[i])
    ensures IndexOfExponent(t) == Some(n)
    decreases n
  {
    if n > 0 {
      PrefixWithoutMark(t[1..], n - 1);
    }
  }

  // ---------------------------------------------------------------------------
  // Whole values
  // ---------------------------------------------------------------------------

  /** Whether a finite decimal equals its own `to_integral_value()`. */
  predicate IsWhole(d: Dec)
    requires d.Finite?
  {
    d.exp >= 0 || d.coeff % Pow10(-d.exp) == 0
  }

  /** `int(d)` of a whole decimal. */
  function IntValue(d: Dec): (r: int)
    requires d.Finite? && IsWhole(d)
    ensures d.neg ==> r <= 0
    ensures !d.neg ==> r >= 0
    ensures r == 0 <==> d.coeff == 0
  {
    var magnitude: nat := if d.exp >= 0 then d.coeff * Pow10(d.exp) else d.coeff / Pow10(-d.exp);
    assert magnitude == 0 <==> d.coeff == 0 by {
      if d.exp < 0 && d.coeff != 0 {
        assert d.coeff == magnitude * Pow10(-d.exp);
      }
    }
    if d.neg then -(magnitude as int) else magnitude
  }

  // ---------------------------------------------------------------------------
  // Fixed-point rendering
  // ---------------------------------------------------------------------------

  /** The digits and point of `format(d, "f")`, without the sign. */
  function FixedBody(coeff: nat, exp: int): (r: string)
    ensures |r| > 0 && IsDigit(r[0]) && IsDigit(r[|r| - 1])
    ensures '.' in r <==> exp < 0
    ensures forall i :: 0 <= i < |r| ==> IsDigit(r[i]) || r[i] == '.'
  {
    var digits := NatToString(coeff);
    var dot := exp + |digits|;
    if dot <= 0 then
      var r := "0." + (Zeros(-dot) + digits);
      assert r[1] == '.';
      r
    else if dot >= |digits| then
      var r := digits + Zeros(dot - |digits|);
      assert AllDigits(r);
      r
    else
      var r := digits[..dot] + "." + digits[dot..];
      assert r[dot] == '.';
      r
  }

  /** The exponent `format` places the point by: a zero with a positive exponent is first rescaled to exponent 0. */
  function FixedExp(d: Dec): (e: int)
    requires d.Finite?
  {
    if d.coeff == 0 && d.exp > 0 then 0 else d.exp
  }

  /**
   * `format(d, "f")` of a finite decimal: the coefficient's digits with the
   * point placed by the exponent, zeros appended for a positive exponent and
   * `0.` and zeros prefixed for a point left of every digit.
   */
  function FixedText(d: Dec): (r: string)
    requires d.Finite?
    ensures '.' in r <==> d.exp < 0
    ensures forall i :: 0 <= i < |r| ==> IsDigit(r[i]) || r[i] == '.' || (i == 0 && r[i] == '-')
  {
    (if d.neg then "-" else "") + FixedBody(d.coeff, FixedExp(d))
  }

  /**
   * The fixed-point text reads back as the same number: exactly the same
   * coefficient and exponent when there are digits after the point, and
   * the same whole number with exponent zero otherwise.
   */
  lemma FixedTextRoundTrip(d: Dec)
    requires d.Finite?
    ensures d.exp < 0 ==> ParseDecimal(FixedText(d)) == Some(d)
    ensures d.exp >= 0 ==> ParseDecimal(FixedText(d)) == Some(Finite(d.neg, d.coeff * Pow10(d.exp), 0))
  {
    FixedTextReadsBody(d);
    if d.coeff == 0 && d.exp > 0 {
      ZeroRescaledRoundTrip(d);
    } else {
      assert FixedExp(d) == d.exp;
      FixedBodyRoundTrip(d.neg, d.coeff, d.exp);
    }
  }

  /** A zero with a positive exponent is printed as a plain `0` and reads back as zero. */
  lemma ZeroRescaledRoundTrip(d: Dec)
    requires d.Finite? && d.coeff == 0 && d.exp > 0
    ensures ParseFinite(d.neg, FixedBody(d.coeff, FixedExp(d))) == Some(Finite(d.neg, d.coeff * Pow10(d.exp), 0))
  {
    FixedBodyRoundTrip(d.neg, 0, 0);
  }

  lemma FixedTextReadsBody(d: Dec)
    requires d.Finite?
    ensures ParseDecimal(FixedText(d)) == ParseFinite(d.neg, FixedBody(d.coeff, FixedExp(d)))
  {
    FixedTextPlain(d);
    PlainText(FixedText(d), d.neg, FixedBody(d.coeff, FixedExp(d)));
  }

  /** Fixed-point text has no surrounding whitespace and no underscore. */
  lemma FixedTextPlain(d: Dec)
    requires d.Finite?
    ensures Trimmed(FixedText(d)) && '_' !in FixedText(d)
  {
    var r := FixedText(d);
    assert !IsSpace(r[0]) && IsDigit(r[|r| - 1]);
    forall i | 0 <= i < |r| ensures r[i] != '_' {
      assert IsDigit(r[i]) || r[i] == '.' || r[i] == '-';
    }
  }

  lemma FixedBodyRoundTrip(neg: bool, coeff: nat, exp: int)
    ensures exp < 0 ==> ParseFinite(neg, FixedBody(coeff, exp)) == Some(Finite(neg, coeff, exp))
    ensures exp >= 0 ==> ParseFinite(neg, FixedBody(coeff, exp)) == Some(Finite(neg, coeff * Pow10(exp), 0))
  {
    var body := FixedBody(coeff, exp);
    assert forall i :: 0 <= i < |body| ==> !IsExponentMark(body[i]) by {
      forall i | 0 <= i < |body| ensures !IsExponentMark(body[i]) {
        assert IsDigit(body[i]) || body[i] == '.';
      }
    }
    NoExponent(neg, body);
    FixedMantissa(coeff, exp);
  }

  /** The mantissa read back from the fixed-point digits: the coefficient and the places after the point. */
  lemma FixedMantissa(coeff: nat, exp: int)
    ensures ParseMantissa(FixedBody(coeff, exp)).Some?
    ensures exp < 0 ==> (DigitsValue(ParseMantissa(FixedBody(coeff, exp)).value.0) == coeff
                         && ParseMantissa(FixedBody(coeff, exp)).value.1 == -exp)
    ensures exp >= 0 ==> (DigitsValue(ParseMantissa(FixedBody(coeff, exp)).value.0) == coeff * Pow10(exp)
                          && ParseMantissa(FixedBody(coeff, exp)).value.1 == 0)
  {
    var digits := NatToString(coeff);
    var dot := exp + |digits|;
    if dot <= 0 {
      MantissaLeadingPoint(digits, -dot);
      LeadingPointValue(digits, -dot);
    } else if dot >= |digits| {
      MantissaWhole(digits, dot - |digits|);
      TrailingZeros(digits, exp);
    } else {
      MantissaSplit(digits, dot);
    }
  }

  lemma MantissaLeadingPoint(digits: string, k: nat)
    requires |digits| > 0 && AllDigits(digits)
    ensures ParseMantissa("0." + (Zeros(k) + digits)) == Some(("0" + (Zeros(k) + digits), k + |digits|))
  {
    var frac := Zeros(k) + digits;
    var body := "0." + frac;
    assert AllDigits(frac);
    assert IndexOf(body, '.') == Some(1) by {
      assert body[0] == '0' && body[1] == '.';
    }
    assert body[..1] == "0" && body[2..] == frac;
  }

  lemma LeadingPointValue(digits: string, k: nat)
    requires AllDigits(digits)
    ensures AllDigits("0" + (Zeros(k) + digits))
    ensures DigitsValue("0" + (Zeros(k) + digits)) == DigitsValue(digits)
  {
    var z := Zeros(k + 1);
    assert z == "0" + Zeros(k) by {
      assert forall i :: 0 <= i < k + 1 ==> z[i] == ("0" + Zeros(k))[i];
    }
    assert "0" + (Zeros(k) + digits) == z + digits;
    LeadingZeros(k + 1, digits);
  }

  lemma MantissaWhole(digits: string, k: nat)
    requires |digits| > 0 && AllDigits(digits)
    ensures ParseMantissa(digits + Zeros(k)) == Some((digits + Zeros(k), 0))
  {
    var body := digits + Zeros(k);
    assert forall i :: 0 <= i < |body| ==> IsDigit(body[i]);
    assert '.' !in body by {
      forall i | 0 <= i < |body| ensures body[i] != '.' {
        assert IsDigit(body[i]);
      }
    }
  }

  lemma MantissaSplit(digits: string, dot: nat)
    requires AllDigits(digits) && 0 < dot < |digits|
    ensures ParseMantissa(digits[..dot] + "." + digits[dot..]) == Some((digits, |digits| - dot))
  {
    var body := digits[..dot] + "." + digits[dot..];
    assert body[dot] == '.';
    assert '.' !in body[..dot] by {
      forall i | 0 <= i < dot ensures body[i] != '.' {
        assert body[i] == digits[i];
      }
    }
    assert IndexOf(body, '.') == Some(dot);
    assert body[..dot] == digits[..dot] && body[dot + 1..] == digits[dot..];
    assert digits[..dot] + digits[dot..] == digits;
  }
}
