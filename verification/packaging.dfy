/**
 * The packaging estimator's input pipeline: item numbers and quantities
 * typed, pasted or uploaded by the user are normalised, validated and
 * summed per item before anything is looked up.
 */
module Packaging {
  import opened Wrappers
  import opened Text
  import opened Decimals

  // ---------------------------------------------------------------------------
  // Item numbers
  // ---------------------------------------------------------------------------

  /** `"".join(s.split())`: every whitespace character removed. */
  function RemoveSpaces(s: string): (r: string)
    ensures NoSpace(r)
    ensures |r| <= |s|
    ensures NoSpace(s) ==> r == s
  {
    if |s| == 0 then ""
    else if IsSpace(s[0]) then RemoveSpaces(s[1..])
    else [s[0]] + RemoveSpaces(s[1..])
  }

  /**
   * `normalize_item_number`: whitespace removed and letters upper-cased; a
   * missing cell (None or NaN) gives the empty text.
   */
  function NormalizeItem(v: Option<string>): (r: string)
    ensures v.None? ==> r == ""
    ensures NoSpace(r)
    ensures forall i :: 0 <= i < |r| ==> !IsAsciiLower(r[i])
  {
    match v
    case None => ""
    case Some(s) =>
      var t := RemoveSpaces(s);
      assert NoSpace(Upper(t)) by {
        forall i | 0 <= i < |t| ensures !IsSpace(Upper(t)[i]) {
          assert !IsSpace(t[i]);
        }
      }
      Upper(t)
  }

  /** Normalising an already normalised item changes nothing. */
  lemma NormalizeItemIdempotent(v: Option<string>)
    ensures NormalizeItem(Some(NormalizeItem(v))) == NormalizeItem(v)
  {
    var n := NormalizeItem(v);
    assert RemoveSpaces(n) == n;
    assert Upper(n) == n;
  }

  /** Spaces and letter case in what the user typed do not matter. */
  lemma NormalizeItemIgnoresCase(s: string)
    ensures NormalizeItem(Some(Lower(s))) == NormalizeItem(Some(s))
  {
    LowerKeepsSpaces(s);
    UpperOfLower(RemoveSpaces(s));
  }

  lemma {:induction false} LowerKeepsSpaces(s: string)
    ensures RemoveSpaces(Lower(s)) == Lower(RemoveSpaces(s))
    decreases |s|
  {
    if |s| > 0 {
      var c, t := s[0], s[1..];
      LowerCons(c, t);
      assert [c] + t == s;
      LowerCharSpace(c);
      LowerKeepsSpaces(t);
      if !IsSpace(c) {
        LowerCons(c, RemoveSpaces(t));
      }
    }
  }

  /** Lower-casing a text with a first character lower-cases that character and the rest. */
  lemma LowerCons(c: char, t: string)
    ensures Lower([c] + t) == [LowerChar(c)] + Lower(t)
  {
    assert forall i :: 0 < i <= |t| ==> ([c] + t)[i] == t[i - 1];
  }

  /** Lower-casing never turns a character into whitespace or out of it. */
  lemma LowerCharSpace(c: char)
    ensures IsSpace(LowerChar(c)) <==> IsSpace(c)
  {
    if IsAsciiUpper(c) {
      assert IsAsciiLower(LowerChar(c));
    }
  }

  /** Upper-casing forgets an earlier lower-casing. */
  lemma UpperOfLower(t: string)
    ensures Upper(Lower(t)) == Upper(t)
  {
    assert forall i :: 0 <= i < |t| ==> UpperChar(LowerChar(t[i])) == UpperChar(t[i]);
  }

  // ---------------------------------------------------------------------------
  // Quantities
  // ---------------------------------------------------------------------------

  /** The text `parse_quantity` hands to `Decimal`: stripped, thousands separators removed. */
  function QuantityText(s: string): (r: string)
    ensures ',' !in r
  {
    Remove(Strip(s), ',')
  }

  /** A decimal's worth as a quantity: a whole value above zero, or nothing. */
  function WholePositive(d: Dec): (r: Option<nat>)
    requires d.Finite?
    ensures r.Some? ==> r.value >= 1 && IsWhole(d) && r.value == IntValue(d)
    ensures r.None? ==> !IsWhole(d) || IntValue(d) <= 0
  {
    if !IsWhole(d) then None
    else if IntValue(d) <= 0 then None
    else Some(IntValue(d))
  }

  /**
   * `parse_quantity` as written, once `Decimal` has read the text (None when
   * it raised): a quiet NaN and a fractional or non-positive value give
   * None; an infinity reaches `int()` and raises `OverflowError`, and a
   * signalling NaN raises `InvalidOperation` in `to_integral_value()`.
   */
  function QuantityOfAsWritten(p: Option<Dec>): (r: Result<Option<nat>, string>)
    ensures r.Failure? <==> p.Some? && (p.value.Infinite? || p.value == NaN(true))
    ensures r.Failure? ==> r.error == (if p.value.Infinite? then "OverflowError" else "InvalidOperation")
    ensures r.Success? && r.value.Some? ==> p.Some? && p.value.Finite? && r.value.value >= 1
  {
    match p
    case None => Success(None)
    case Some(NaN(signaling)) => if signaling then Failure("InvalidOperation") else Success(None)
    case Some(Infinite(_)) => Failure("OverflowError")
    case Some(d) => Success(WholePositive(d))
  }

  /** The same decision with every value that is not a positive whole number read as invalid. */
  function QuantityOf(p: Option<Dec>): (r: Option<nat>)
    ensures r.Some? ==> r.value >= 1
    ensures r.Some? <==> p.Some? && p.value.Finite? && WholePositive(p.value).Some?
  {
    match p
    case Some(d) => if d.Finite? then WholePositive(d) else None
    case None => None
  }

  /** `parse_quantity` as written: a missing cell or blank text gives None. */
  function ParseQuantityAsWritten(v: Option<string>): (r: Result<Option<nat>, string>)
    ensures v.None? ==> r == Success(None)
    ensures v.Some? && QuantityText(v.value) == "" ==> r == Success(None)
    ensures r.Failure? ==> r.error == "OverflowError" || r.error == "InvalidOperation"
    ensures r.Success? && r.value.Some? ==> r.value.value >= 1
  {
    match v
    case None => Success(None)
    case Some(s) =>
      var text := QuantityText(s);
      if text == "" then Success(None) else QuantityOfAsWritten(ParseDecimal(text))
  }

  /** `parse_quantity` with the exceptions of the special values read as invalid input. */
  function ParseQuantity(v: Option<string>): (r: Option<nat>)
    ensures v.None? ==> r.None?
    ensures r.Some? ==> r.value >= 1
    ensures r.Some? <==> v.Some? && QuantityOf(ParseDecimal(QuantityText(v.value))).Some?
  {
    match v
    case None => None
    case Some(s) =>
      var text := QuantityText(s);
      if text == "" then None else QuantityOf(ParseDecimal(text))
  }

  /** Wherever the code as written returns, it returns what the corrected reading gives. */
  lemma QuantityAgrees(p: Option<Dec>)
    ensures QuantityOfAsWritten(p).Success? ==> QuantityOfAsWritten(p).value == QuantityOf(p)
    ensures QuantityOfAsWritten(p).Failure? <==> p.Some? && (p.value.Infinite? || p.value == NaN(true))
  {
  }

  lemma ParseQuantityAgrees(v: Option<string>)
    ensures ParseQuantityAsWritten(v).Success? ==> ParseQuantityAsWritten(v).value == ParseQuantity(v)
    ensures ParseQuantityAsWritten(v).Failure? ==> v.Some? && ParseQuantity(v).None?
  {
    match v
    case None =>
    case Some(s) =>
      var text := QuantityText(s);
      if text != "" {
        QuantityAgrees(ParseDecimal(text));
      }
  }

  /** Text whose letters spell `inf` in any case reads as an infinity. */
  lemma InfinityText(t: string)
    requires Lower(t) == "inf"
    ensures ParseDecimal(t) == Some(Infinite(false))
  {
    assert Trimmed(t) by {
      assert LowerChar(t[0]) == 'i' && LowerChar(t[2]) == 'f';
    }
    assert '_' !in t by {
      forall i | 0 <= i < |t| ensures t[i] != '_' {
        assert LowerChar(t[i]) != '_';
      }
    }
    assert Remove(Strip(t), '_') == t;
  }

  /** A quantity cell reading `inf` escapes `parse_quantity` as an exception instead of being rejected. */
  lemma InfinityQuantityRaises(t: string)
    requires Lower(t) == "inf"
    ensures ParseQuantityAsWritten(Some(t)) == Failure("OverflowError")
    ensures ParseQuantity(Some(t)) == None
  {
    InfinityText(t);
    InfinityQuantityText(t);
  }

  lemma InfinityQuantityText(t: string)
    requires Lower(t) == "inf"
    ensures QuantityText(t) == t
  {
    assert ',' !in t by {
      forall i | 0 <= i < |t| ensures t[i] != ',' {
        assert LowerChar(t[i]) != ',';
      }
    }
    assert Trimmed(t) by {
      assert LowerChar(t[0]) == 'i' && LowerChar(t[2]) == 'f';
    }
  }

  /** A run of digits denoting a positive number is read as that number. */
  lemma QuantityOfDigits(s: string)
    requires |s| > 0 && AllDigits(s) && DigitsValue(s) > 0
    ensures ParseQuantity(Some(s)) == Some(DigitsValue(s))
  {
    QuantityOfDigitsOrZero(s);
  }

  /** A whole number read without exponent is a quantity exactly when it is above zero. */
  lemma WholeInteger(v: nat)
    ensures WholePositive(Finite(false, v, 0)) == if v > 0 then Some(v) else None
  {
    assert Pow10(0) == 1;
    assert IntValue(Finite(false, v, 0)) == v;
  }

  lemma DigitsQuantityText(s: string)
    requires |s| > 0 && AllDigits(s)
    ensures QuantityText(s) == s
  {
    assert Trimmed(s) by {
      assert IsDigit(s[0]) && IsDigit(s[|s| - 1]);
    }
    assert ',' !in s by {
      forall i | 0 <= i < |s| ensures s[i] != ',' {
        assert IsDigit(s[i]);
      }
    }
  }

  /** Zero is not a quantity. */
  lemma QuantityOfZero(s: string)
    requires |s| > 0 && AllDigits(s) && DigitsValue(s) == 0
    ensures ParseQuantity(Some(s)) == None
  {
    QuantityOfDigitsOrZero(s);
  }

  /** Trimmed text without separators, led by a sign or a digit, is read as a finite number. */
  lemma PlainQuantity(t: string, neg: bool, body: string)
    requires Trimmed(t) && ',' !in t && '_' !in t
    requires t == (if neg then "-" else "") + body
    requires |body| > 0 && IsDigit(body[0])
    ensures ParseQuantity(Some(t)) == QuantityOf(ParseFinite(neg, body))
  {
    assert QuantityText(t) == t;
    PlainText(t, neg, body);
  }

  /** A thousands separator between digit groups is ignored: `1,000` is `1000`. */
  lemma QuantityThousands(a: string, b: string)
    requires |a| > 0 && AllDigits(a) && |b| > 0 && AllDigits(b)
    ensures ParseQuantity(Some(a + "," + b)) == ParseQuantity(Some(a + b))
  {
    ThousandsText(a, b);
    DigitsQuantityText(a + b);
  }

  lemma ThousandsText(a: string, b: string)
    requires |a| > 0 && AllDigits(a) && |b| > 0 && AllDigits(b)
    ensures QuantityText(a + "," + b) == a + b
  {
    var t := a + "," + b;
    assert Trimmed(t) by {
      assert IsDigit(t[0]) && t[|t| - 1] == b[|b| - 1];
    }
    RemoveSeparator(a, b);
  }

  lemma RemoveSeparator(a: string, b: string)
    requires AllDigits(a) && AllDigits(b)
    ensures Remove(a + "," + b, ',') == a + b
  {
    RemoveConcat(a + ",", b, ',');
    RemoveConcat(a, ",", ',');
    assert ',' !in a by {
      forall i | 0 <= i < |a| ensures a[i] != ',' {
        assert IsDigit(a[i]);
      }
    }
    assert ',' !in b by {
      forall i | 0 <= i < |b| ensures b[i] != ',' {
        assert IsDigit(b[i]);
      }
    }
    assert Remove(",", ',') == "";
  }

  /** A negative number is not a quantity. */
  lemma QuantityNegative(s: string)
    requires |s| > 0 && AllDigits(s)
    ensures ParseQuantity(Some("-" + s)) == None
  {
    var t := "-" + s;
    assert Trimmed(t) by {
      assert IsDigit(t[|t| - 1]);
    }
    assert ',' !in t && '_' !in t by {
      forall i | 0 <= i < |t| ensures t[i] != ',' && t[i] != '_' {
        assert i == 0 || IsDigit(t[i]);
      }
    }
    PlainQuantity(t, true, s);
    var p := ParseFinite(true, s);
    if p.Some? {
      assert IsWhole(p.value) ==> IntValue(p.value) <= 0;
    }
  }

  /** `n.0` is the whole number `n`; `n.5` is not a quantity. */
  lemma QuantityFraction(s: string, f: char)
    requires |s| > 0 && AllDigits(s) && IsDigit(f)
    ensures f == '0' ==> ParseQuantity(Some(s + "." + [f])) == ParseQuantity(Some(s))
    ensures f == '5' ==> ParseQuantity(Some(s + "." + [f])) == None
  {
    var v := DigitsValue(s);
    var k := DigitVal(f);
    FractionText(s, f);
    DigitsValueSnoc(s, f);
    TenthsQuantity(DigitsValue(s + [f]), v, k);
    QuantityOfDigitsOrZero(s);
    assert f == '0' ==> k == 0;
    assert f == '5' ==> k == 5;
  }

  /** A number of tenths is a quantity exactly when it is a positive whole number. */
  lemma TenthsQuantity(w: nat, v: nat, k: nat)
    requires k < 10 && w == v * 10 + k
    ensures QuantityOf(Some(Finite(false, w, -1))) == if k == 0 && v > 0 then Some(v) else None
  {
    var d := Finite(false, w, -1);
    LastDigit(v, k);
    assert Pow10(1) == 10;
    assert IsWhole(d) <==> k == 0;
    assert k == 0 ==> IntValue(d) == v;
  }

  lemma LastDigit(v: nat, k: nat)
    requires k < 10
    ensures (v * 10 + k) % 10 == k && (v * 10 + k) / 10 == v
  {
  }

  lemma FractionText(s: string, f: char)
    requires |s| > 0 && AllDigits(s) && IsDigit(f)
    ensures AllDigits(s + [f])
    ensures ParseQuantity(Some(s + "." + [f])) == QuantityOf(Some(Finite(false, DigitsValue(s + [f]), -1)))
  {
    var t := s + "." + [f];
    FractionChars(s, f);
    PlainQuantity(t, false, t);
    OneDecimalPlace(s, f);
  }

  /** `digits.d` is trimmed and holds neither a thousands separator nor an underscore. */
  lemma FractionChars(s: string, f: char)
    requires |s| > 0 && AllDigits(s) && IsDigit(f)
    ensures var t := s + "." + [f];
      Trimmed(t) && ',' !in t && '_' !in t && IsDigit(t[0])
  {
    var t := s + "." + [f];
    forall i | 0 <= i < |t| ensures IsDigit(t[i]) || t[i] == '.' {
      if i < |s| {
        assert t[i] == s[i];
      } else if i > |s| {
        assert t[i] == f;
      }
    }
    assert IsDigit(t[0]) && IsDigit(t[|t| - 1]);
    assert ',' !in t && '_' !in t by {
      forall i | 0 <= i < |t| ensures t[i] != ',' && t[i] != '_' {
        assert IsDigit(t[i]) || t[i] == '.';
      }
    }
  }

  lemma OneDecimalPlace(s: string, f: char)
    requires |s| > 0 && AllDigits(s) && IsDigit(f)
    ensures AllDigits(s + [f])
    ensures ParseFinite(false, s + "." + [f]) == Some(Finite(false, DigitsValue(s + [f]), -1))
  {
    var t := s + "." + [f];
    forall i | 0 <= i < |t| ensures IsDigit(t[i]) || t[i] == '.' {
      if i < |s| {
        assert t[i] == s[i];
      } else if i > |s| {
        assert t[i] == f;
      }
    }
    NumeralNoExponent(t);
    MantissaOnePlace(s, f);
  }

  /** Digits and points alone carry no exponent. */
  lemma NumeralNoExponent(t: string)
    requires forall i :: 0 <= i < |t| ==> IsDigit(t[i]) || t[i] == '.'
    ensures ParseFinite(false, t) == match ParseMantissa(t)
      case Some(m) => Some(Finite(false, DigitsValue(m.0), -(m.1 as int)))
      case None => None
  {
    assert forall i :: 0 <= i < |t| ==> !IsExponentMark(t[i]) by {
      forall i | 0 <= i < |t| ensures !IsExponentMark(t[i]) {
        assert IsDigit(t[i]) || t[i] == '.';
      }
    }
    NoExponent(false, t);
  }

  lemma MantissaOnePlace(s: string, f: char)
    requires AllDigits(s) && |s| > 0 && IsDigit(f)
    ensures ParseMantissa(s + "." + [f]) == Some((s + [f], 1))
  {
    MantissaSplit(s + [f], |s|);
    assert (s + [f])[..|s|] + "." + (s + [f])[|s|..] == s + "." + [f];
  }

  lemma QuantityOfDigitsOrZero(s: string)
    requires |s| > 0 && AllDigits(s)
    ensures ParseQuantity(Some(s)) == if DigitsValue(s) > 0 then Some(DigitsValue(s)) else None
  {
    DigitsQuantityText(s);
    ParseDigits(s);
    WholeInteger(DigitsValue(s));
    assert ParseQuantity(Some(s)) == QuantityOf(Some(Finite(false, DigitsValue(s), 0)));
  }

  // ---------------------------------------------------------------------------
  // Pasted rows
  // ---------------------------------------------------------------------------

  /** The characters `str.splitlines()` breaks at. */
  predicate IsLineBreak(c: char) {
    var n := c as int;
    10 <= n <= 13 || 28 <= n <= 30 || n == 0x85 || n == 0x2028 || n == 0x2029
  }

  predicate NoLineBreak(s: string) {
    forall i :: 0 <= i < |s| ==> !IsLineBreak(s[i])
  }

  /** The first line break in `s`. */
  function FirstBreak(s: string): (r: Option<nat>)
    ensures r.None? <==> NoLineBreak(s)
    ensures r.Some? ==> r.value < |s| && IsLineBreak(s[r.value]) && NoLineBreak(s[..r.value])
  {
    if |s| == 0 then None
    else if IsLineBreak(s[0]) then Some(0)
    else
      match FirstBreak(s[1..])
      case None => None
      case Some(i) =>
        assert s[..i + 1] == [s[0]] + s[1..][..i];
        Some(i + 1)
  }

  /**
   * `str.splitlines()`: the text cut at every line break, `\r\n` counting
   * as one; a final break does not start another line.
   */
  function SplitLines(s: string): (r: seq<string>)
    ensures forall i :: 0 <= i < |r| ==> NoLineBreak(r[i])
    decreases |s|
  {
    match FirstBreak(s)
    case None => if s == "" then [] else [s]
    case Some(i) =>
      var skip := if s[i] == '\r' && i + 1 < |s| && s[i + 1] == '\n' then 2 else 1;
      [s[..i]] + SplitLines(s[i + skip..])
  }

  /** Lines each ended by a newline, as a text editor saves them. */
  function Terminated(lines: seq<string>): string {
    if |lines| == 0 then "" else lines[0] + "\n" + Terminated(lines[1..])
  }

  /** A line break with none before it is the first one. */
  lemma FirstBreakAt(s: string, k: nat)
    requires k < |s| && IsLineBreak(s[k]) && NoLineBreak(s[..k])
    ensures FirstBreak(s) == Some(k)
  {
    assert !NoLineBreak(s);
  }

  /** Splitting newline-terminated lines gives the lines back. */
  lemma {:induction false} SplitTerminated(lines: seq<string>)
    requires forall i :: 0 <= i < |lines| ==> NoLineBreak(lines[i])
    ensures SplitLines(Terminated(lines)) == lines
  {
    if |lines| > 0 {
      var l := lines[0];
      var rest := Terminated(lines[1..]);
      var s := l + "\n" + rest;
      assert s[|l|] == '\n' && IsLineBreak(s[|l|]);
      assert s[..|l|] == l;
      FirstBreakAt(s, |l|);
      assert s[|l| + 1..] == rest;
      SplitTerminated(lines[1..]);
      assert SplitLines(s) == [l] + SplitLines(rest);
    }
  }

  /** A pasted line that became a row: its first two tab fields and its 1-based line number. */
  datatype PastedRow = PastedRow(item: string, quantity: string, lineNumber: nat)

  /** `Line N: expected tab-separated values ItemNumber<TAB>Quantity.` */
  datatype PasteError = TooFewFields(lineNumber: nat)

  function PasteErrorMessage(e: PasteError): string {
    "Line " + NatToString(e.lineNumber) + ": expected tab-separated values ItemNumber<TAB>Quantity."
  }

  /** A line that becomes the row `x`: not blank, and its first two tab fields are the row's. */
  predicate GivesRow(line: string, x: PastedRow) {
    !IsBlank(line) && |Split(line, '\t')| >= 2
    && x.item == Split(line, '\t')[0] && x.quantity == Split(line, '\t')[1]
  }

  /** A line that becomes an error: not blank, and without a tab. */
  predicate GivesError(line: string) {
    !IsBlank(line) && |Split(line, '\t')| < 2
  }

  /** The rows of the first `n` lines. */
  function RowsOfLines(lines: seq<string>, n: nat): (r: seq<PastedRow>)
    requires n <= |lines|
    ensures forall x :: x in r ==> 1 <= x.lineNumber <= n && GivesRow(lines[x.lineNumber - 1], x)
    ensures forall i, j :: 0 <= i < j < |r| ==> r[i].lineNumber < r[j].lineNumber
  {
    if n == 0 then []
    else
      var before := RowsOfLines(lines, n - 1);
      var line := lines[n - 1];
      var parts := Split(line, '\t');
      if IsBlank(line) || |parts| < 2 then before
      else before + [PastedRow(parts[0], parts[1], n)]
  }

  /** The errors of the first `n` lines. */
  function ErrorsOfLines(lines: seq<string>, n: nat): (r: seq<PasteError>)
    requires n <= |lines|
    ensures forall e :: e in r ==> 1 <= e.lineNumber <= n && GivesError(lines[e.lineNumber - 1])
    ensures forall i, j :: 0 <= i < j < |r| ==> r[i].lineNumber < r[j].lineNumber
  {
    if n == 0 then []
    else
      var before := ErrorsOfLines(lines, n - 1);
      if GivesError(lines[n - 1]) then before + [TooFewFields(n)] else before
  }

  /** `parse_pasted_input`: the rows and the errors of every line of the pasted text. */
  function ParsePasted(raw: string): (r: (seq<PastedRow>, seq<PasteError>))
    ensures var lines := SplitLines(raw);
      forall x :: x in r.0 ==> 1 <= x.lineNumber <= |lines| && GivesRow(lines[x.lineNumber - 1], x)
    ensures var lines := SplitLines(raw);
      forall e :: e in r.1 ==> 1 <= e.lineNumber <= |lines| && GivesError(lines[e.lineNumber - 1])
    ensures forall i, j :: 0 <= i < j < |r.0| ==> r.0[i].lineNumber < r.0[j].lineNumber
    ensures forall i, j :: 0 <= i < j < |r.1| ==> r.1[i].lineNumber < r.1[j].lineNumber
  {
    var lines := SplitLines(raw);
    (RowsOfLines(lines, |lines|), ErrorsOfLines(lines, |lines|))
  }

  /** Whether some row carries line number `m`. */
  predicate HasRow(rows: seq<PastedRow>, m: nat) {
    exists x :: x in rows && x.lineNumber == m
  }

  /** Later lines only add rows and errors: the rows and errors of fewer lines are a prefix. */
  lemma {:induction false} LinesGrow(lines: seq<string>, m: nat, n: nat)
    requires m <= n <= |lines|
    ensures RowsOfLines(lines, m) <= RowsOfLines(lines, n)
    ensures ErrorsOfLines(lines, m) <= ErrorsOfLines(lines, n)
    decreases n - m
  {
    if m < n {
      LinesGrow(lines, m, n - 1);
      LineStep(lines, n);
      PrefixTransitive(RowsOfLines(lines, m), RowsOfLines(lines, n - 1), RowsOfLines(lines, n));
      PrefixTransitive(ErrorsOfLines(lines, m), ErrorsOfLines(lines, n - 1), ErrorsOfLines(lines, n));
    }
  }

  /** One more line keeps the rows and errors found so far. */
  lemma LineStep(lines: seq<string>, n: nat)
    requires 0 < n <= |lines|
    ensures RowsOfLines(lines, n - 1) <= RowsOfLines(lines, n)
    ensures ErrorsOfLines(lines, n - 1) <= ErrorsOfLines(lines, n)
  {
  }

  lemma PrefixTransitive<T>(a: seq<T>, b: seq<T>, c: seq<T>)
    requires a <= b && b <= c
    ensures a <= c
  {
    assert c[..|a|] == b[..|a|];
  }

  /** The last of the first `n` lines, when not blank, gave a row or an error. */
  lemma LastLineCovered(lines: seq<string>, n: nat)
    requires 0 < n <= |lines| && !IsBlank(lines[n - 1])
    ensures HasRow(RowsOfLines(lines, n), n) || TooFewFields(n) in ErrorsOfLines(lines, n)
  {
    if !GivesError(lines[n - 1]) {
      var parts := Split(lines[n - 1], '\t');
      var x := PastedRow(parts[0], parts[1], n);
      assert RowsOfLines(lines, n) == RowsOfLines(lines, n - 1) + [x];
      assert x in RowsOfLines(lines, n);
    } else {
      assert ErrorsOfLines(lines, n) == ErrorsOfLines(lines, n - 1) + [TooFewFields(n)];
    }
  }

  /** Each of the first `n` non-blank lines gave a row or an error. */
  lemma LinesCovered(lines: seq<string>, n: nat, k: nat)
    requires k < n <= |lines| && !IsBlank(lines[k])
    ensures HasRow(RowsOfLines(lines, n), k + 1) || TooFewFields(k + 1) in ErrorsOfLines(lines, n)
  {
    LastLineCovered(lines, k + 1);
    LinesGrow(lines, k + 1, n);
    var rows, errors := RowsOfLines(lines, k + 1), ErrorsOfLines(lines, k + 1);
    if HasRow(rows, k + 1) {
      var x :| x in rows && x.lineNumber == k + 1;
      var i :| 0 <= i < |rows| && rows[i] == x;
      assert RowsOfLines(lines, n)[i] == x;
    } else {
      var i :| 0 <= i < |errors| && errors[i] == TooFewFields(k + 1);
      assert ErrorsOfLines(lines, n)[i] == TooFewFields(k + 1);
    }
  }

  /** Every non-blank pasted line gives exactly one row or one error, never both. */
  lemma PastedLineAccounted(raw: string, k: nat)
    requires k < |SplitLines(raw)| && !IsBlank(SplitLines(raw)[k])
    ensures var r := ParsePasted(raw);
      (HasRow(r.0, k + 1) <==> TooFewFields(k + 1) !in r.1)
  {
    var lines := SplitLines(raw);
    LinesCovered(lines, |lines|, k);
  }

  /** Blank lines leave no trace. */
  lemma BlankLineIgnored(raw: string, k: nat)
    requires k < |SplitLines(raw)| && IsBlank(SplitLines(raw)[k])
    ensures var r := ParsePasted(raw);
      (forall x :: x in r.0 ==> x.lineNumber != k + 1) && TooFewFields(k + 1) !in r.1
  {
  }

  /** The rows the validator sees for pasted input, numbered by their lines. */
  function PastedInput(rows: seq<PastedRow>): (r: seq<InputRow>)
    ensures |r| == |rows|
    ensures forall i :: 0 <= i < |rows| ==>
      r[i] == InputRow(Some(rows[i].item), Some(rows[i].quantity), Some(rows[i].lineNumber))
  {
    seq(|rows|, i requires 0 <= i < |rows| =>
      InputRow(Some(rows[i].item), Some(rows[i].quantity), Some(rows[i].lineNumber)))
  }

  /** The rows the validator sees for an uploaded sheet: row numbers count the header line. */
  function UploadedInput(items: seq<Option<string>>, quantities: seq<Option<string>>): (r: seq<InputRow>)
    requires |items| == |quantities|
    ensures |r| == |items|
    ensures forall i :: 0 <= i < |r| ==> r[i] == InputRow(items[i], quantities[i], Some(i + 2))
  {
    seq(|items|, i requires 0 <= i < |items| => InputRow(items[i], quantities[i], Some(i + 2)))
  }

  // ---------------------------------------------------------------------------
  // Validation
  // ---------------------------------------------------------------------------

  /** One input row: item and quantity cells (None when missing) and the optional `_RowNumber`. */
  datatype InputRow = InputRow(item: Option<string>, quantity: Option<string>, rowNumber: Option<nat>)

  datatype RowError =
    | BlankItem(row: nat)
    | BadQuantity(row: nat, shown: string)

  /** How a missing cell is shown inside an error message. */
  function Shown(v: Option<string>): string {
    v.GetOr("nan")
  }

  function RowErrorMessage(e: RowError): string {
    match e
    case BlankItem(n) => "Row " + NatToString(n) + ": ItemNumber is blank."
    case BadQuantity(n, q) => "Row " + NatToString(n) + ": Quantity '" + q + "' is invalid (must be integer > 0)."
  }

  /** A valid line: normalised item and positive quantity. */
  datatype Line = Line(item: string, quantity: nat)

  /**
   * The check of one row at position `index`: the item is looked at first,
   * then the quantity; the row number is `_RowNumber` or the position plus one.
   */
  function CheckRow(row: InputRow, index: nat): (r: Result<Line, RowError>)
    ensures r.Success? <==> NormalizeItem(row.item) != "" && ParseQuantity(row.quantity).Some?
    ensures r.Success? ==> r.value == Line(NormalizeItem(row.item), ParseQuantity(row.quantity).value)
    ensures r.Failure? && NormalizeItem(row.item) == "" ==> r.error == BlankItem(row.rowNumber.GetOr(index + 1))
    ensures r.Failure? && NormalizeItem(row.item) != "" ==>
      r.error == BadQuantity(row.rowNumber.GetOr(index + 1), Shown(row.quantity))
  {
    var n := row.rowNumber.GetOr(index + 1);
    var item := NormalizeItem(row.item);
    var q := ParseQuantity(row.quantity);
    if item == "" then Failure(BlankItem(n))
    else if q.None? then Failure(BadQuantity(n, Shown(row.quantity)))
    else Success(Line(item, q.value))
  }

  /**
   * The check of one row as written: `parse_quantity` runs before the item
   * is looked at, so a quantity that raises aborts the whole validation
   * even on a row whose item is blank.
   */
  function CheckRowAsWritten(row: InputRow, index: nat): (r: Result<Result<Line, RowError>, string>)
    ensures r.Failure? <==> ParseQuantityAsWritten(row.quantity).Failure?
    ensures r.Success? ==> r.value == CheckRow(row, index)
  {
    ParseQuantityAgrees(row.quantity);
    match ParseQuantityAsWritten(row.quantity)
    case Failure(e) => Failure(e)
    case Success(_) => Success(CheckRow(row, index))
  }

  /** The check of every row, in row order. */
  function Checks(rows: seq<InputRow>): (r: seq<Result<Line, RowError>>)
    ensures |r| == |rows|
    ensures forall i :: 0 <= i < |rows| ==> r[i] == CheckRow(rows[i], i)
  {
    seq(|rows|, i requires 0 <= i < |rows| => CheckRow(rows[i], i))
  }

  /** The successful values of `cs`, in order. */
  function Successes(cs: seq<Result<Line, RowError>>): (r: seq<Line>)
  {
    if |cs| == 0 then []
    else
      match cs[|cs| - 1]
      case Success(l) => Successes(cs[..|cs| - 1]) + [l]
      case Failure(_) => Successes(cs[..|cs| - 1])
  }

  /** The errors of `cs`, in order. */
  function Failures(cs: seq<Result<Line, RowError>>): (r: seq<RowError>)
  {
    if |cs| == 0 then []
    else
      match cs[|cs| - 1]
      case Success(_) => Failures(cs[..|cs| - 1])
      case Failure(e) => Failures(cs[..|cs| - 1]) + [e]
  }

  /** `validate_and_aggregate` before grouping: the valid lines and the errors, in row order. */
  function ValidateRows(rows: seq<InputRow>): (r: (seq<Line>, seq<RowError>))
  {
    (Successes(Checks(rows)), Failures(Checks(rows)))
  }

  /** Every result is a success or a failure, so the two lists together are as long as the input. */
  lemma {:induction false} SplitCounts(cs: seq<Result<Line, RowError>>)
    ensures |Successes(cs)| + |Failures(cs)| == |cs|
  {
    if |cs| > 0 {
      SplitCounts(cs[..|cs| - 1]);
    }
  }

  /** A value is among the successes exactly when some result is that success. */
  lemma {:induction false} SuccessesExactly(cs: seq<Result<Line, RowError>>, l: Line)
    ensures l in Successes(cs) <==> exists i :: 0 <= i < |cs| && cs[i] == Success(l)
  {
    if |cs| > 0 {
      var init := cs[..|cs| - 1];
      SuccessesExactly(init, l);
      if exists i :: 0 <= i < |cs| && cs[i] == Success(l) {
        var i :| 0 <= i < |cs| && cs[i] == Success(l);
        if i < |init| {
          assert init[i] == cs[i];
        }
      }
      if exists i :: 0 <= i < |init| && init[i] == Success(l) {
        var i :| 0 <= i < |init| && init[i] == Success(l);
        assert cs[i] == init[i];
      }
    }
  }

  /** An error is among the failures exactly when some result is that failure. */
  lemma {:induction false} FailuresExactly(cs: seq<Result<Line, RowError>>, e: RowError)
    ensures e in Failures(cs) <==> exists i :: 0 <= i < |cs| && cs[i] == Failure(e)
  {
    if |cs| > 0 {
      var init := cs[..|cs| - 1];
      FailuresExactly(init, e);
      if exists i :: 0 <= i < |cs| && cs[i] == Failure(e) {
        var i :| 0 <= i < |cs| && cs[i] == Failure(e);
        if i < |init| {
          assert init[i] == cs[i];
        }
      }
      if exists i :: 0 <= i < |init| && init[i] == Failure(e) {
        var i :| 0 <= i < |init| && init[i] == Failure(e);
        assert cs[i] == init[i];
      }
    }
  }

  /**
   * Validation reports every row exactly once: a valid line exactly for
   * the rows that check out, an error exactly for the others.
   */
  lemma ValidateRowsExactly(rows: seq<InputRow>, l: Line, e: RowError)
    ensures |ValidateRows(rows).0| + |ValidateRows(rows).1| == |rows|
    ensures l in ValidateRows(rows).0 <==> exists i :: 0 <= i < |rows| && CheckRow(rows[i], i) == Success(l)
    ensures e in ValidateRows(rows).1 <==> exists i :: 0 <= i < |rows| && CheckRow(rows[i], i) == Failure(e)
  {
    var cs := Checks(rows);
    SplitCounts(cs);
    SuccessesExactly(cs, l);
    FailuresExactly(cs, e);
  }

  /** Every valid line has a non-empty item and a positive quantity. */
  lemma ValidLinesPositive(rows: seq<InputRow>, l: Line)
    requires l in ValidateRows(rows).0
    ensures l.item != "" && l.quantity >= 1
  {
    var cs := Checks(rows);
    SuccessesExactly(cs, l);
    var i :| 0 <= i < |cs| && cs[i] == Success(l);
  }

  // ---------------------------------------------------------------------------
  // Aggregation
  // ---------------------------------------------------------------------------

  /** Items strictly ascending: sorted and each item once. */
  predicate StrictlySorted(t: seq<Line>) {
    forall i, j :: 0 <= i < j < |t| ==> StrLess(t[i].item, t[j].item)
  }

  /** The total quantity `t` holds for `item`. */
  function QuantityFor(t: seq<Line>, item: string): nat {
    if |t| == 0 then 0
    else (if t[0].item == item then t[0].quantity else 0) + QuantityFor(t[1..], item)
  }

  function Total(t: seq<Line>): nat {
    if |t| == 0 then 0 else t[0].quantity + Total(t[1..])
  }

  function ItemsOf(t: seq<Line>): (r: set<string>)
    ensures forall k :: k in r <==> exists i :: 0 <= i < |t| && t[i].item == k
  {
    if |t| == 0 then {}
    else
      assert forall i :: 1 <= i < |t| ==> t[1..][i - 1] == t[i];
      {t[0].item} + ItemsOf(t[1..])
  }

  /** Adding `q` of `item` to a sorted table: a new line in its place, or the existing line grows. */
  function AddTo(t: seq<Line>, item: string, q: nat): (r: seq<Line>)
    ensures ItemsOf(r) == ItemsOf(t) + {item}
  {
    if |t| == 0 then [Line(item, q)]
    else if t[0].item == item then
      var r := [Line(item, t[0].quantity + q)] + t[1..];
      assert r[1..] == t[1..];
      r
    else if StrLess(item, t[0].item) then
      var r := [Line(item, q)] + t;
      assert r[1..] == t;
      r
    else
      var r := [t[0]] + AddTo(t[1..], item, q);
      assert r[1..] == AddTo(t[1..], item, q);
      r
  }

  /** The first item of a strictly sorted table is below every later item. */
  lemma SortedHead(t: seq<Line>, x: string)
    requires StrictlySorted(t) && |t| > 0 && x in ItemsOf(t[1..])
    ensures StrLess(t[0].item, x)
  {
    var k :| 0 <= k < |t[1..]| && t[1..][k].item == x;
    assert t[k + 1].item == x;
  }

  /** A strictly sorted table stays so without its first line. */
  lemma SortedTail(t: seq<Line>)
    requires StrictlySorted(t) && |t| > 0
    ensures StrictlySorted(t[1..])
  {
    forall i, j | 0 <= i < j < |t| - 1 ensures StrLess(t[1..][i].item, t[1..][j].item) {
      assert t[1..][i] == t[i + 1] && t[1..][j] == t[j + 1];
    }
  }

  /** A line below every line of a strictly sorted table can go in front of it. */
  lemma SortedCons(x: Line, rest: seq<Line>)
    requires StrictlySorted(rest)
    requires forall j :: 0 <= j < |rest| ==> StrLess(x.item, rest[j].item)
    ensures StrictlySorted([x] + rest)
  {
    var r := [x] + rest;
    forall i, j | 0 <= i < j < |r| ensures StrLess(r[i].item, r[j].item) {
      assert r[j] == rest[j - 1];
      if i > 0 {
        assert r[i] == rest[i - 1];
      }
    }
  }

  /** Adding keeps the table strictly sorted. */
  lemma {:induction false} AddToSorted(t: seq<Line>, item: string, q: nat)
    requires StrictlySorted(t)
    ensures StrictlySorted(AddTo(t, item, q))
  {
    if |t| == 0 {
    } else if t[0].item == item {
      SortedTail(t);
      forall j | 0 <= j < |t| - 1 ensures StrLess(item, t[1..][j].item) {
        assert t[1..][j] == t[j + 1];
      }
      SortedCons(Line(item, t[0].quantity + q), t[1..]);
    } else if StrLess(item, t[0].item) {
      forall j | 0 <= j < |t| ensures StrLess(item, t[j].item) {
        if j > 0 {
          StrLessTransitive(item, t[0].item, t[j].item);
        }
      }
      SortedCons(Line(item, q), t);
    } else {
      StrLessTotal(item, t[0].item);
      SortedTail(t);
      var rest := AddTo(t[1..], item, q);
      AddToSorted(t[1..], item, q);
      forall j | 0 <= j < |rest| ensures StrLess(t[0].item, rest[j].item) {
        assert rest[j].item in ItemsOf(rest);
        if rest[j].item != item {
          SortedHead(t, rest[j].item);
        }
      }
      SortedCons(t[0], rest);
    }
  }

  /** Adding grows exactly the added item's quantity, by the amount added. */
  lemma {:induction false} AddToQuantity(t: seq<Line>, item: string, q: nat, k: string)
    ensures QuantityFor(AddTo(t, item, q), k) == QuantityFor(t, k) + (if k == item then q else 0)
  {
    var r := AddTo(t, item, q);
    if |t| == 0 {
    } else if t[0].item == item {
      assert r[1..] == t[1..];
    } else if StrLess(item, t[0].item) {
      assert r[1..] == t;
    } else {
      AddToQuantity(t[1..], item, q, k);
      assert r[1..] == AddTo(t[1..], item, q);
    }
  }

  /** Adding grows the total by the amount added. */
  lemma {:induction false} AddToTotal(t: seq<Line>, item: string, q: nat)
    ensures Total(AddTo(t, item, q)) == Total(t) + q
  {
    var r := AddTo(t, item, q);
    if |t| == 0 {
    } else if t[0].item == item {
      assert r[1..] == t[1..];
    } else if StrLess(item, t[0].item) {
      assert r[1..] == t;
    } else {
      AddToTotal(t[1..], item, q);
      assert r[1..] == AddTo(t[1..], item, q);
    }
  }

  /** Every line of a table has a positive quantity. */
  predicate AllPositive(t: seq<Line>) {
    forall i :: 0 <= i < |t| ==> t[i].quantity >= 1
  }

  /** Adding a positive amount to a table of positive lines keeps every line positive. */
  lemma {:induction false} AddToPositive(t: seq<Line>, item: string, q: nat)
    requires AllPositive(t) && q >= 1
    ensures AllPositive(AddTo(t, item, q))
  {
    if |t| > 0 && t[0].item != item && !StrLess(item, t[0].item) {
      AddToPositive(t[1..], item, q);
      var r := AddTo(t, item, q);
      assert r[1..] == AddTo(t[1..], item, q);
    }
  }

  /**
   * The group-by-item sum sorted by item: each line's quantity added
   * into the table built from the lines after it.
   */
  function Aggregate(lines: seq<Line>): (r: seq<Line>)
    ensures ItemsOf(r) == ItemsOf(lines)
  {
    if |lines| == 0 then []
    else
      assert ItemsOf(lines) == ItemsOf(lines[1..]) + {lines[0].item} by {
        assert forall i :: 1 <= i < |lines| ==> lines[1..][i - 1] == lines[i];
      }
      AddTo(Aggregate(lines[1..]), lines[0].item, lines[0].quantity)
  }

  /**
   * The aggregate has one line per item, in ascending item order, holding
   * that item's summed quantity; nothing is lost from the total, and with
   * positive inputs every line is positive.
   */
  lemma {:induction false} AggregateCorrect(lines: seq<Line>, k: string)
    ensures StrictlySorted(Aggregate(lines))
    ensures QuantityFor(Aggregate(lines), k) == QuantityFor(lines, k)
    ensures Total(Aggregate(lines)) == Total(lines)
    ensures AllPositive(lines) ==> AllPositive(Aggregate(lines))
  {
    if |lines| > 0 {
      var rest := Aggregate(lines[1..]);
      AggregateCorrect(lines[1..], k);
      AddToSorted(rest, lines[0].item, lines[0].quantity);
      AddToQuantity(rest, lines[0].item, lines[0].quantity, k);
      AddToTotal(rest, lines[0].item, lines[0].quantity);
      if AllPositive(lines) {
        assert AllPositive(lines[1..]) by {
          forall i | 0 <= i < |lines[1..]| ensures lines[1..][i].quantity >= 1 {
            assert lines[1..][i] == lines[i + 1];
          }
        }
        assert lines[0].quantity >= 1;
        AddToPositive(rest, lines[0].item, lines[0].quantity);
      }
    }
  }

  /**
   * `validate_and_aggregate_rows`: the aggregated valid lines and the
   * errors, each error once and in row order.
   */
  function ValidateAndAggregate(rows: seq<InputRow>): (r: (seq<Line>, seq<RowError>))
    ensures ItemsOf(r.0) == ItemsOf(ValidateRows(rows).0)
    ensures r.1 == ValidateRows(rows).1
    ensures |ValidateRows(rows).0| + |r.1| == |rows|
  {
    SplitCounts(Checks(rows));
    (Aggregate(ValidateRows(rows).0), ValidateRows(rows).1)
  }

  /**
   * The cleaned table lists each item of a valid row once, in ascending
   * order, with the sum of that item's valid quantities, every one
   * positive; the errors are exactly the failing rows' errors.
   */
  lemma ValidateAndAggregateCorrect(rows: seq<InputRow>, k: string, e: RowError)
    ensures var r := ValidateAndAggregate(rows);
      StrictlySorted(r.0)
      && ItemsOf(r.0) == ItemsOf(ValidateRows(rows).0)
      && QuantityFor(r.0, k) == QuantityFor(ValidateRows(rows).0, k)
      && Total(r.0) == Total(ValidateRows(rows).0)
      && AllPositive(r.0)
      && (e in r.1 <==> exists i :: 0 <= i < |rows| && CheckRow(rows[i], i) == Failure(e))
  {
    var valid := ValidateRows(rows).0;
    forall i | 0 <= i < |valid| ensures valid[i].quantity >= 1 {
      ValidLinesPositive(rows, valid[i]);
    }
    AggregateCorrect(valid, k);
    FailuresExactly(Checks(rows), e);
  }

  /**
   * A blank item next to an `inf` quantity: as written the quantity raises
   * before the item is checked; corrected, the blank item is reported.
   */
  lemma BlankItemWithInfinityRaises(item: Option<string>, t: string, index: nat)
    requires NormalizeItem(item) == "" && Lower(t) == "inf"
    ensures CheckRowAsWritten(InputRow(item, Some(t), None), index) == Failure("OverflowError")
    ensures CheckRow(InputRow(item, Some(t), None), index) == Failure(BlankItem(index + 1))
  {
    InfinityQuantityRaises(t);
  }

  /** A blank item is reported even when the quantity is also invalid. */
  lemma BlankItemReportedFirst(item: Option<string>, quantity: Option<string>, index: nat)
    requires NormalizeItem(item) == "" && ParseQuantity(quantity).None?
    ensures CheckRow(InputRow(item, quantity, None), index) == Failure(BlankItem(index + 1))
  {
  }

  // ---------------------------------------------------------------------------
  // Column names
  // ---------------------------------------------------------------------------

  /**
   * `normalize_col_name` and `_normalize_field_name`: lower-cased, with
   * every character other than a letter or digit dropped.
   */
  function AlnumLower(s: string): (r: string)
    ensures |r| <= |s|
    ensures forall i :: 0 <= i < |r| ==> IsAlnum(r[i]) && !IsAsciiUpper(r[i])
  {
    if |s| == 0 then ""
    else
      var c := LowerChar(s[0]);
      (if IsAlnum(c) then [c] else "") + AlnumLower(s[1..])
  }

  /** A name already made of lower-case letters and digits is its own normal form. */
  lemma {:induction false} AlnumLowerFixed(s: string)
    requires forall i :: 0 <= i < |s| ==> IsAlnum(s[i]) && !IsAsciiUpper(s[i])
    ensures AlnumLower(s) == s
  {
    if |s| > 0 {
      AlnumLowerFixed(s[1..]);
      assert [s[0]] + s[1..] == s;
    }
  }

  /** Normalising twice is normalising once. */
  lemma AlnumLowerIdempotent(s: string)
    ensures AlnumLower(AlnumLower(s)) == AlnumLower(s)
  {
    AlnumLowerFixed(AlnumLower(s));
  }

  /** Letter case, spaces and punctuation in a name make no difference. */
  lemma {:induction false} AlnumLowerIgnoresCase(s: string)
    ensures AlnumLower(Upper(s)) == AlnumLower(s)
  {
    if |s| > 0 {
      assert Upper(s)[1..] == Upper(s[1..]);
      AlnumLowerIgnoresCase(s[1..]);
    }
  }

  /** Normalised names hold no underscore, so no name ever equals `__itemnumber` or `__isverified`. */
  lemma NoUnderscoreNames(s: string)
    ensures AlnumLower(s) != "__itemnumber" && AlnumLower(s) != "__isverified"
  {
    var r := AlnumLower(s);
    if |r| > 0 {
      assert IsAlnum(r[0]);
    }
  }

  /** The first position whose element satisfies `p`. */
  function FirstWhere(names: seq<string>, p: string -> bool): (r: Option<nat>)
    ensures r.None? <==> forall i :: 0 <= i < |names| ==> !p(names[i])
    ensures r.Some? ==> r.value < |names| && p(names[r.value])
    ensures r.Some? ==> forall j :: 0 <= j < r.value ==> !p(names[j])
  {
    if |names| == 0 then None
    else if p(names[0]) then Some(0)
    else
      match FirstWhere(names[1..], p)
      case None => None
      case Some(i) => Some(i + 1)
  }

  /**
   * `find_default_column`: the first column whose normalised name is one
   * of the targets, else the fallback position capped at the last column.
   */
  function FindDefaultColumn(columns: seq<string>, targets: set<string>, fallback: nat): (r: nat)
    ensures |columns| > 0 ==> r < |columns|
    ensures (exists i :: 0 <= i < |columns| && AlnumLower(columns[i]) in targets) ==>
      AlnumLower(columns[r]) in targets
      && forall j :: 0 <= j < r ==> AlnumLower(columns[j]) !in targets
    ensures (forall i :: 0 <= i < |columns| ==> AlnumLower(columns[i]) !in targets) ==>
      r == if fallback < |columns| then fallback else if |columns| == 0 then 0 else |columns| - 1
  {
    var names := seq(|columns|, i requires 0 <= i < |columns| => AlnumLower(columns[i]));
    assert forall i :: 0 <= i < |columns| ==> names[i] == AlnumLower(columns[i]);
    match FirstWhere(names, n => n in targets)
    case Some(i) => i
    case None =>
      var last := if |columns| == 0 then 0 else |columns| - 1;
      if fallback < last then fallback else last
  }

  const ItemTargets: set<string> := {"itemnumber", "item", "itemno", "sku"}
  const QuantityTargets: set<string> := {"quantity", "qty"}

  /**
   * The pre-selected item and quantity columns of an uploaded sheet with
   * at least two columns; when both would pick the same column the
   * quantity moves to the first other column.
   */
  function DefaultColumns(columns: seq<string>): (r: (nat, nat))
    requires |columns| >= 2
    ensures r.0 < |columns| && r.1 < |columns| && r.0 != r.1
    ensures r.0 == FindDefaultColumn(columns, ItemTargets, 0)
    ensures FindDefaultColumn(columns, QuantityTargets, 1) != r.0 ==>
      r.1 == FindDefaultColumn(columns, QuantityTargets, 1)
  {
    var item := FindDefaultColumn(columns, ItemTargets, 0);
    var quantity := FindDefaultColumn(columns, QuantityTargets, 1);
    if quantity == item then (item, if item == 0 then 1 else 0) else (item, quantity)
  }

  /** A sheet with neither kind of header falls back to the first two columns. */
  lemma DefaultColumnsFallback(columns: seq<string>)
    requires |columns| >= 2
    requires forall i :: 0 <= i < |columns| ==>
      AlnumLower(columns[i]) !in ItemTargets && AlnumLower(columns[i]) !in QuantityTargets
    ensures DefaultColumns(columns) == (0, 1)
  {
  }

  /** A header spelled `Item Number` is found whatever its case and spacing. */
  lemma ItemHeaderFound(columns: seq<string>, i: nat)
    requires i < |columns| && AlnumLower(columns[i]) == "itemnumber"
    requires forall j :: 0 <= j < i ==> AlnumLower(columns[j]) !in ItemTargets
    ensures FindDefaultColumn(columns, ItemTargets, 0) == i
  {
  }

  // ---------------------------------------------------------------------------
  // The verification query's result
  // ---------------------------------------------------------------------------

  /**
   * A value in the verification flag column: null, the database null, a
   * boolean, a number, or anything else, seen through its text.
   */
  datatype SsasValue =
    | NullValue
    | DbNull
    | BoolValue(b: bool)
    | Number(n: real)
    | TextValue(s: string)

  const TruthyWords: set<string> := {"1", "true", "t", "yes", "y"}

  /** `_coerce_ssas_flag`. */
  function CoerceSsasFlag(v: SsasValue): (r: bool)
    ensures v.NullValue? || v.DbNull? ==> !r
    ensures v.BoolValue? ==> r == v.b
    ensures v.Number? ==> (r <==> v.n != 0.0)
    ensures v.TextValue? ==> (r <==> Lower(Strip(v.s)) in TruthyWords)
  {
    match v
    case NullValue => false
    case DbNull => false
    case BoolValue(b) => b
    case Number(n) => n != 0.0
    case TextValue(s) => Lower(Strip(s)) in TruthyWords
  }

  /** Flag text is read regardless of letter case. */
  lemma FlagIgnoresCase(s: string)
    ensures CoerceSsasFlag(TextValue(Upper(s))) == CoerceSsasFlag(TextValue(s))
  {
    StripUpper(s);
    LowerUpperText(Strip(s));
  }

  lemma LowerUpperText(s: string)
    ensures Lower(Upper(s)) == Lower(s)
  {
  }

  /** Whitespace runs of any length around a flag word change nothing. */
  lemma FlagIgnoresPadding(before: string, s: string, after: string)
    requires AllSpace(before) && AllSpace(after) && Trimmed(s)
    ensures CoerceSsasFlag(TextValue(before + s + after)) == CoerceSsasFlag(TextValue(s))
  {
    StripPadded(before, s, after);
  }

  /** Text of lower-case letters and digits is truthy exactly when it is one of the words. */
  lemma PlainFlagText(s: string)
    requires forall i :: 0 <= i < |s| ==> IsAlnum(s[i]) && !IsAsciiUpper(s[i])
    ensures CoerceSsasFlag(TextValue(s)) <==> s in TruthyWords
  {
    if |s| > 0 {
      assert IsAlnum(s[0]) && IsAlnum(s[|s| - 1]);
      assert s[0] as int !in SpaceCodes && s[|s| - 1] as int !in SpaceCodes;
    }
    LowerOfNoUpper(s);
  }

  /** Text such as `false`, `no` or `0` reads as unverified. */
  lemma FalseWordsUnverified(s: string)
    requires s == "false" || s == "no" || s == "0"
    ensures !CoerceSsasFlag(TextValue(s))
  {
    assert s !in TruthyWords by {
      assert |s| == 5 || |s| == 2 || (|s| == 1 && s[0] == '0');
      assert |"true"| == 4 && |"yes"| == 3;
      assert "1"[0] == '1' && "t"[0] == 't' && "y"[0] == 'y';
    }
    PlainFlagText(s);
  }

  /**
   * A column description entry: missing, a tuple or list (whose first
   * element may be missing or falsy), or an object with optional `name`
   * and `column_name` attributes and a text rendering.
   */
  datatype ColumnInfo =
    | NoColumn
    | Tuple(first: seq<Option<string>>)
    | Described(name: Option<string>, columnName: Option<string>, shown: string)

  /** `_extract_ssas_column_name`. */
  function ColumnName(c: ColumnInfo): (r: string)
    ensures c.NoColumn? ==> r == ""
    ensures c.Tuple? && |c.first| == 0 ==> r == ""
    ensures c.Tuple? && |c.first| > 0 ==> r == c.first[0].GetOr("")
    ensures c.Described? && c.name.Some? ==> r == c.name.value
    ensures c.Described? && c.name.None? && c.columnName.Some? ==> r == c.columnName.value
    ensures c.Described? && c.name.None? && c.columnName.None? ==> r == c.shown
  {
    match c
    case NoColumn => ""
    case Tuple(items) => if |items| == 0 then "" else items[0].GetOr("")
    case Described(name, columnName, shown) =>
      if name.Some? then name.value
      else if columnName.Some? then columnName.value
      else shown
  }

  predicate ItemExact(n: string) { n == "itemnumber" || n == "__itemnumber" }
  predicate VerifiedExact(n: string) { n == "isverified" || n == "verified" || n == "__isverified" }
  predicate ItemContains(n: string) { Contains(n, "itemnumber") }
  predicate VerifiedContains(n: string) { Contains(n, "isverified") || Contains(n, "verified") }

  /**
   * The first column the exact pass accepts if there is one, else the first
   * column the substring pass accepts.
   */
  function Ordinal(names: seq<string>, exact: string -> bool, contains: string -> bool): (r: Option<nat>)
    ensures r.None? <==> (forall i :: 0 <= i < |names| ==> !exact(names[i]))
                         && (forall i :: 0 <= i < |names| ==> !contains(names[i]))
    ensures r.Some? ==> r.value < |names| && (exact(names[r.value]) || contains(names[r.value]))
    ensures (exists i :: 0 <= i < |names| && exact(names[i])) ==>
      r.Some? && exact(names[r.value]) && forall j :: 0 <= j < r.value ==> !exact(names[j])
    ensures (forall i :: 0 <= i < |names| ==> !exact(names[i])) && r.Some? ==>
      contains(names[r.value]) && forall j :: 0 <= j < r.value ==> !contains(names[j])
  {
    match FirstWhere(names, exact)
    case Some(i) => Some(i)
    case None => FirstWhere(names, contains)
  }

  const OrdinalsError := "Could not detect ItemNumber/IsVerified columns in SSAS query result."

  /** The normalised names of the result columns, in column order. */
  function ColumnNames(columns: seq<ColumnInfo>): (r: seq<string>)
    ensures |r| == |columns|
    ensures forall i :: 0 <= i < |columns| ==> r[i] == AlnumLower(ColumnName(columns[i]))
  {
    seq(|columns|, i requires 0 <= i < |columns| => AlnumLower(ColumnName(columns[i])))
  }

  /**
   * `_resolve_ssas_field_ordinals`: the positions of the item-number and
   * verified-flag columns; an exact name wins over one that merely contains
   * the word, and a missing column is an error.
   */
  function ResolveOrdinals(columns: seq<ColumnInfo>): (r: Result<(nat, nat), string>)
    ensures var names := ColumnNames(columns);
      (r.Failure? <==> (forall i :: 0 <= i < |names| ==> !ItemContains(names[i]))
                       || (forall i :: 0 <= i < |names| ==> !VerifiedContains(names[i])))
      && (r.Failure? ==> r.error == OrdinalsError)
      && (r.Success? ==> r.value.0 < |columns| && r.value.1 < |columns|
                         && ItemContains(names[r.value.0]) && VerifiedContains(names[r.value.1]))
    ensures var names := ColumnNames(columns);
      r.Success? ==>
        && ((exists i :: 0 <= i < |names| && ItemExact(names[i])) ==>
              ItemExact(names[r.value.0]) && forall j :: 0 <= j < r.value.0 ==> !ItemExact(names[j]))
        && ((forall i :: 0 <= i < |names| ==> !ItemExact(names[i])) ==>
              forall j :: 0 <= j < r.value.0 ==> !ItemContains(names[j]))
    ensures var names := ColumnNames(columns);
      r.Success? ==>
        && ((exists i :: 0 <= i < |names| && VerifiedExact(names[i])) ==>
              VerifiedExact(names[r.value.1]) && forall j :: 0 <= j < r.value.1 ==> !VerifiedExact(names[j]))
        && ((forall i :: 0 <= i < |names| ==> !VerifiedExact(names[i])) ==>
              forall j :: 0 <= j < r.value.1 ==> !VerifiedContains(names[j]))
  {
    var names := ColumnNames(columns);
    ExactContains(names);
    var item := Ordinal(names, ItemExact, ItemContains);
    var verified := Ordinal(names, VerifiedExact, VerifiedContains);
    if item.None? || verified.None? then Failure(OrdinalsError)
    else Success((item.value, verified.value))
  }

  /** A name equal to a word contains it. */
  lemma ContainsSelf(s: string)
    ensures Contains(s, s)
  {
    assert s[..|s|] == s;
  }

  /** Normalised names that pass the exact test also pass the substring test. */
  lemma ExactContains(names: seq<string>)
    ensures forall i :: 0 <= i < |names| && ItemExact(names[i]) ==> ItemContains(names[i])
    ensures forall i :: 0 <= i < |names| && VerifiedExact(names[i]) ==> VerifiedContains(names[i])
  {
    forall i | 0 <= i < |names| ensures ItemExact(names[i]) ==> ItemContains(names[i]) {
      ContainsSelf(names[i]);
      if names[i] == "__itemnumber" {
        assert names[i][2..][..10] == "itemnumber";
        ContainsAfterPrefix(names[i], "itemnumber", 2);
      }
    }
    forall i | 0 <= i < |names| ensures VerifiedExact(names[i]) ==> VerifiedContains(names[i]) {
      ContainsSelf(names[i]);
      if names[i] == "__isverified" {
        assert names[i][2..][..10] == "isverified";
        ContainsAfterPrefix(names[i], "isverified", 2);
      }
    }
  }

  /** A text whose part from `k` on starts with `t` contains `t`. */
  lemma {:induction false} ContainsAfterPrefix(s: string, t: string, k: nat)
    requires k <= |s| && StartsWith(s[k..], t)
    ensures Contains(s, t)
    decreases k
  {
    if k > 0 {
      assert s[1..][k - 1..] == s[k..];
      ContainsAfterPrefix(s[1..], t, k - 1);
    } else {
      assert s[0..] == s;
    }
  }

  /** A column named exactly `ItemNumber` is chosen over an earlier one that only contains the word. */
  lemma ExactItemNamePreferred(columns: seq<ColumnInfo>, i: nat)
    requires i < |columns| && AlnumLower(ColumnName(columns[i])) == "itemnumber"
    requires forall j :: 0 <= j < i ==> AlnumLower(ColumnName(columns[j])) != "itemnumber"
    requires exists j :: 0 <= j < |columns| && VerifiedContains(AlnumLower(ColumnName(columns[j])))
    ensures ResolveOrdinals(columns).Success? && ResolveOrdinals(columns).value.0 == i
  {
    var names := ColumnNames(columns);
    forall j | 0 <= j < |names| ensures names[j] != "__itemnumber" {
      NoUnderscoreNames(ColumnName(columns[j]));
    }
    assert ItemExact(names[i]);
    var j :| 0 <= j < |columns| && VerifiedContains(AlnumLower(ColumnName(columns[j])));
    assert VerifiedContains(names[j]);
    ExactContains(names);
    var r := ResolveOrdinals(columns);
    assert r.Success?;
  }

  /** Without any column name containing `itemnumber` the resolution fails. */
  lemma MissingItemColumnFails(columns: seq<ColumnInfo>)
    requires forall j :: 0 <= j < |columns| ==> !Contains(AlnumLower(ColumnName(columns[j])), "itemnumber")
    ensures ResolveOrdinals(columns) == Failure(OrdinalsError)
  {
  }

  /**
   * The column a two-pass search settles on, stated on its own: the first
   * exact match when some column matches exactly, else the first column
   * containing the word.
   */
  predicate IsOrdinal(names: seq<string>, exact: string -> bool, contains: string -> bool, i: nat) {
    && i < |names|
    && if exists j :: 0 <= j < |names| && exact(names[j]) then
         exact(names[i]) && forall j :: 0 <= j < i ==> !exact(names[j])
       else
         contains(names[i]) && forall j :: 0 <= j < i ==> !contains(names[j])
  }

  /** The two passes pick a column exactly when it is the one `IsOrdinal` describes. */
  lemma OrdinalCharacterised(names: seq<string>, exact: string -> bool, contains: string -> bool, i: nat)
    ensures Ordinal(names, exact, contains) == Some(i) <==> IsOrdinal(names, exact, contains, i)
  {
    var r := Ordinal(names, exact, contains);
    if IsOrdinal(names, exact, contains, i) {
      if exists j :: 0 <= j < |names| && exact(names[j]) {
        assert exact(names[r.value]);
        assert !(r.value < i) && !(i < r.value);
      } else {
        assert contains(names[i]);
        assert r.Some?;
        assert !(r.value < i) && !(i < r.value);
      }
    }
  }

  /**
   * The resolution succeeds with a pair exactly when each member is the
   * column its own two-pass search describes.
   */
  lemma ResolveOrdinalsCharacterised(columns: seq<ColumnInfo>, item: nat, verified: nat)
    ensures ResolveOrdinals(columns) == Success((item, verified)) <==>
      IsOrdinal(ColumnNames(columns), ItemExact, ItemContains, item)
      && IsOrdinal(ColumnNames(columns), VerifiedExact, VerifiedContains, verified)
  {
    var names := ColumnNames(columns);
    OrdinalCharacterised(names, ItemExact, ItemContains, item);
    OrdinalCharacterised(names, VerifiedExact, VerifiedContains, verified);
  }

  // ---------------------------------------------------------------------------
  // Mock verification and the verified split
  // ---------------------------------------------------------------------------

  /** The sum of the code points of `s`. */
  function Checksum(s: string): nat {
    if |s| == 0 then 0 else s[0] as nat + Checksum(s[1..])
  }

  lemma {:induction false} ChecksumConcat(a: string, b: string)
    ensures Checksum(a + b) == Checksum(a) + Checksum(b)
  {
    if |a| == 0 {
      assert a + b == b;
    } else {
      assert (a + b)[0] == a[0];
      assert (a + b)[1..] == a[1..] + b;
      ChecksumConcat(a[1..], b);
    }
  }

  /** `_mock_verification_flags`: an item is verified unless its code-point sum is a multiple of 5. */
  function MockFlags(items: seq<string>): (r: map<string, bool>)
    ensures forall k :: k in r <==> k in items
    ensures forall k :: k in r ==> (r[k] <==> Checksum(k) % 5 != 0)
  {
    if |items| == 0 then map[]
    else MockFlags(items[..|items| - 1])[items[|items| - 1] := Checksum(items[|items| - 1]) % 5 != 0]
  }

  /** The mock verdict is unchanged by appending five copies of any character. */
  lemma MockFlagPeriodic(item: string, c: char)
    ensures var padded := item + [c, c, c, c, c];
      MockFlags([padded])[padded] == MockFlags([item])[item]
  {
    var padded := item + [c, c, c, c, c];
    ChecksumConcat(item, [c, c, c, c, c]);
    FiveCopies(c);
    ShiftByFives(Checksum(item), c as nat);
    assert MockFlags([padded])[padded] <==> Checksum(padded) % 5 != 0;
    assert MockFlags([item])[item] <==> Checksum(item) % 5 != 0;
  }

  lemma FiveCopies(c: char)
    ensures Checksum([c, c, c, c, c]) == 5 * (c as nat)
  {
    assert Checksum([c]) == c as nat;
    assert Checksum([c, c]) == 2 * (c as nat) by { ChecksumConcat([c], [c]); }
    assert Checksum([c, c, c, c]) == 4 * (c as nat) by { ChecksumConcat([c, c], [c, c]); }
    ChecksumConcat([c, c, c, c], [c]);
    assert [c, c, c, c] + [c] == [c, c, c, c, c];
  }

  lemma ShiftByFives(x: nat, k: nat)
    ensures (x + 5 * k) % 5 == x % 5
  {
  }

  /** An item's flag: the looked-up verdict, with a missing item counted unverified. */
  function IsVerified(flags: map<string, bool>, item: string): bool {
    item in flags && flags[item]
  }

  /** The lines whose verdict is `want`, in table order. */
  function KeepVerdict(t: seq<Line>, flags: map<string, bool>, want: bool): (r: seq<Line>)
    ensures |r| <= |t|
    ensures forall l :: l in r <==> l in t && IsVerified(flags, l.item) == want
  {
    if |t| == 0 then []
    else
      var rest := KeepVerdict(t[1..], flags, want);
      assert forall l :: l in t <==> l == t[0] || l in t[1..];
      if IsVerified(flags, t[0].item) == want then [t[0]] + rest else rest
  }

  /** `add_verification_flags`: the lines with a true flag and the rest, each in table order. */
  function SplitVerified(t: seq<Line>, flags: map<string, bool>): (r: (seq<Line>, seq<Line>))
    ensures forall l :: l in r.0 <==> l in t && IsVerified(flags, l.item)
    ensures forall l :: l in r.1 <==> l in t && !IsVerified(flags, l.item)
  {
    (KeepVerdict(t, flags, true), KeepVerdict(t, flags, false))
  }

  /** Each line lands in exactly one half. */
  lemma {:induction false} SplitVerifiedCounts(t: seq<Line>, flags: map<string, bool>)
    ensures |KeepVerdict(t, flags, true)| + |KeepVerdict(t, flags, false)| == |t|
  {
    if |t| > 0 {
      SplitVerifiedCounts(t[1..], flags);
    }
  }

  /** Keeping some of the lines keeps the aggregate's ascending item order. */
  lemma {:induction false} KeepVerdictSorted(t: seq<Line>, flags: map<string, bool>, want: bool)
    requires StrictlySorted(t)
    ensures StrictlySorted(KeepVerdict(t, flags, want))
  {
    if |t| > 0 {
      var rest := KeepVerdict(t[1..], flags, want);
      SortedTail(t);
      KeepVerdictSorted(t[1..], flags, want);
      if IsVerified(flags, t[0].item) == want {
        forall j | 0 <= j < |rest| ensures StrLess(t[0].item, rest[j].item) {
          assert rest[j] in t[1..];
          var k :| 0 <= k < |t[1..]| && t[1..][k] == rest[j];
          assert t[k + 1] == rest[j];
        }
        SortedCons(t[0], rest);
      }
    }
  }

  // ---------------------------------------------------------------------------
  // The mock packaging response
  // ---------------------------------------------------------------------------

  /** `max(1, ceil(quantity / 4))`: four units to a package, and at least one package. */
  function PackageCount(quantity: int): (r: nat)
    ensures r >= 1 && 4 * r >= quantity
    ensures r == 1 || 4 * (r - 1) < quantity
  {
    var c := -((-quantity) / 4);
    if c < 1 then 1 else c
  }

  /** Placeholder box dimensions of an item. */
  datatype Dims = Dims(length: nat, width: nat, height: nat)

  /** The dimensions derived from an item's seed: three independent digits of the seed. */
  function PlaceholderDims(seed: nat): (r: Dims)
    ensures 10 <= r.length <= 17 && 8 <= r.width <= 13 && 4 <= r.height <= 7
    ensures 320 <= r.length * r.width * r.height <= 1547
  {
    var r := Dims(10 + seed % 8, 8 + (seed / 8) % 6, 4 + (seed / 64) % 4);
    VolumeBounds(r);
    r
  }

  lemma VolumeBounds(d: Dims)
    requires 10 <= d.length <= 17 && 8 <= d.width <= 13 && 4 <= d.height <= 7
    ensures 320 <= d.length * d.width * d.height <= 1547
  {
    assert d.length * d.width <= 17 * 13 by {
      assert d.length * d.width <= 17 * d.width;
    }
    assert d.length * d.width >= 10 * 8 by {
      assert d.length * d.width >= 10 * d.width;
    }
  }

  /** Every box within the bounds is the placeholder of some seed. */
  lemma PlaceholderDimsOnto(d: Dims)
    requires 10 <= d.length <= 17 && 8 <= d.width <= 13 && 4 <= d.height <= 7
    ensures exists seed :: PlaceholderDims(seed) == d
  {
    var a, b, c := d.length - 10, d.width - 8, d.height - 4;
    var low := (b - 2 * c) % 6;
    var q := 8 * c + low;
    var seed := a + 8 * q;
    assert seed % 8 == a && seed / 8 == q;
    assert q / 8 == c && q % 6 == b by {
      assert q == 6 * (c - (b - 2 * c) / 6) + b;
    }
    assert seed / 64 == q / 8;
    assert PlaceholderDims(seed) == d;
  }
}
