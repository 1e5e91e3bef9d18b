/**
 * Helpers of the FedEx address-validation page: rendering tracking numbers
 * that a spreadsheet turned into scientific notation, picking the first
 * filled column of a row, persisting the "disputed" mark and hiding
 * disputed rows, and the download file name.
 */
module Fedex {
  import opened Wrappers
  import opened Text
  import opened Decimals

  // ---------------------------------------------------------------------------
  // Tracking numbers
  // ---------------------------------------------------------------------------

  /** Whether the text holds an `e` in either case, i.e. `"e" in text.lower()`. */
  predicate HasExponentMark(t: string) {
    IndexOfExponent(t).Some?
  }

  /** How `normalize_tracking_number` renders a finite number: fixed point, then trailing zeros and point dropped. */
  function RenderAsWritten(d: Dec): (r: string)
    requires d.Finite?
    ensures |r| <= |FixedText(d)| && FixedText(d)[..|r|] == r
    ensures forall i :: |r| <= i < |FixedText(d)| ==> FixedText(d)[i] == '0' || FixedText(d)[i] == '.'
    ensures |r| == 0 || r[|r| - 1] != '.'
  {
    var f := FixedText(d);
    ZerosThenPoint(f);
    RStrip(RStrip(f, '0'), '.')
  }

  /** Dropping trailing zeros and then a trailing point removes a tail of zeros and points. */
  lemma ZerosThenPoint(f: string)
    ensures var r := RStrip(RStrip(f, '0'), '.');
      |r| <= |f| && f[..|r|] == r
      && (forall i :: |r| <= i < |f| ==> f[i] == '0' || f[i] == '.')
      && (|r| == 0 || r[|r| - 1] != '.')
  {
    var z := RStrip(f, '0');
    var r := RStrip(z, '.');
    assert f[..|r|] == z[..|r|];
    forall i | |r| <= i < |f| ensures f[i] == '0' || f[i] == '.' {
      if i < |z| { assert f[i] == z[i]; }
    }
  }

  /** The rendering the page intends: only zeros after a decimal point are dropped. */
  function Render(d: Dec): (r: string)
    requires d.Finite?
    ensures d.exp >= 0 ==> r == FixedText(d)
    ensures d.exp < 0 ==> r == RenderAsWritten(d)
  {
    if d.exp < 0 then RStrip(RStrip(FixedText(d), '0'), '.') else FixedText(d)
  }

  /**
   * The stripped, non-blank cell text: returned as it is without an
   * exponent mark or when it is not a number, else rendered by `render`.
   */
  function RenderTracking(t: string, asWritten: bool): (r: string)
    ensures !HasExponentMark(t) || ParseDecimal(t).None? ==> r == t
    ensures Trimmed(t) && HasExponentMark(t) && ParseDecimal(t).Some? ==>
      ParseDecimal(t).value.Finite?
      && r == (if asWritten then RenderAsWritten(ParseDecimal(t).value) else Render(ParseDecimal(t).value))
  {
    TrackingOnlyFinite(t);
    if !HasExponentMark(t) then t
    else
      match ParseDecimal(t)
      case None => t
      case Some(d) =>
        if !d.Finite? then t
        else if asWritten then RenderAsWritten(d)
        else Render(d)
  }

  /**
   * `normalize_tracking_number` (`asWritten`) and the intended variant:
   * missing or blank cells give the empty text, text without an exponent
   * mark is returned stripped, text with one is rendered as a number in
   * fixed point, and text that is not a number is returned stripped.
   */
  function NormalizeTracking(v: Option<string>, asWritten: bool): (r: string)
    ensures v.None? || IsBlank(v.value) ==> r == ""
    ensures v.Some? && !IsBlank(v.value) && !HasExponentMark(Strip(v.value)) ==> r == Strip(v.value)
    ensures v.Some? && !IsBlank(v.value) && HasExponentMark(Strip(v.value)) && ParseDecimal(Strip(v.value)).None? ==>
      r == Strip(v.value)
    ensures v.Some? && !IsBlank(v.value) && HasExponentMark(Strip(v.value)) && ParseDecimal(Strip(v.value)).Some? ==>
      var d := ParseDecimal(Strip(v.value)).value;
      d.Finite? && r == (if asWritten then RenderAsWritten(d) else Render(d))
  {
    match v
    case None => ""
    case Some(s) =>
      var t := Strip(s);
      if t == "" then ""
      else
        TrackingOnlyFinite(t);
        RenderTracking(t, asWritten)
  }

  /** Text with an exponent mark never reads as infinity or NaN. */
  lemma TrackingOnlyFinite(t: string)
    ensures Trimmed(t) && HasExponentMark(t) && ParseDecimal(t).Some? ==> ParseDecimal(t).value.Finite?
  {
    if !Trimmed(t) || !HasExponentMark(t) { return; }
    var k := IndexOfExponent(t).value;
    assert Strip(t) == t;
    ExponentTextFinite(t, k);
  }

  /** A whole number with its exponent multiplied out. */
  function Unscaled(d: Dec): (r: Dec)
    requires d.Finite? && d.exp >= 0
  {
    Finite(d.neg, d.coeff * Pow10(d.exp), 0)
  }

  /** The intended rendering of a whole number is plain digits that read back as the same number. */
  lemma RenderWholeRoundTrip(d: Dec)
    requires d.Finite? && d.exp >= 0
    ensures ParseDecimal(Render(d)) == Some(Unscaled(d))
    ensures forall i :: 0 <= i < |Render(d)| ==> IsDigit(Render(d)[i]) || (i == 0 && Render(d)[i] == '-')
  {
    FixedTextRoundTrip(d);
  }

  /**
   * A whole number written in scientific notation comes out, as intended,
   * as plain digits that read back as the same number.
   */
  lemma TrackingWholeRoundTrip(s: string, d: Dec)
    requires !IsBlank(s) && HasExponentMark(Strip(s)) && ParseDecimal(Strip(s)) == Some(d)
    requires d.Finite? && d.exp >= 0
    ensures ParseDecimal(NormalizeTracking(Some(s), false)) == Some(Unscaled(d))
    ensures !HasExponentMark(NormalizeTracking(Some(s), false))
  {
    TrackingRendered(s, d);
    RenderWholeRoundTrip(d);
    RenderWholeWithoutMark(d);
  }

  /** A cell holding a finite number with an exponent mark is rendered from that number. */
  lemma TrackingRendered(s: string, d: Dec)
    requires !IsBlank(s) && HasExponentMark(Strip(s)) && ParseDecimal(Strip(s)) == Some(d)
    ensures d.Finite? && NormalizeTracking(Some(s), false) == Render(d)
  {
    TrackingOnlyFinite(Strip(s));
  }

  /** The intended rendering of a whole number has no exponent mark. */
  lemma RenderWholeWithoutMark(d: Dec)
    requires d.Finite? && d.exp >= 0
    ensures !HasExponentMark(Render(d))
  {
    var r := Render(d);
    RenderWholeRoundTrip(d);
    forall i | 0 <= i < |r| ensures !IsExponentMark(r[i]) {
      assert IsDigit(r[i]) || r[i] == '-';
    }
  }

  /** The last digit of a number's rendering is its last decimal digit. */
  lemma NatToStringLast(n: nat)
    ensures NatToString(n)[|NatToString(n)| - 1] == DigitChar(n % 10)
    ensures n % 10 != 0 ==> NatToString(n)[|NatToString(n)| - 1] != '0'
  {
  }

  /** Dropping trailing zeros from a text padded with zeros gives the text back when it does not end in zero. */
  lemma {:induction false} RStripZeros(a: string, k: nat)
    requires |a| > 0 && a[|a| - 1] != '0'
    ensures RStrip(a + Zeros(k), '0') == a
    decreases k
  {
    var t := a + Zeros(k);
    if k == 0 {
      assert t == a;
    } else {
      assert t[|t| - 1] == '0';
      assert t[..|t| - 1] == a + Zeros(k - 1);
      RStripZeros(a, k - 1);
    }
  }

  /**
   * As written, a whole number in scientific notation loses the zeros its
   * exponent stands for: `79483E7`, the value a spreadsheet shows as
   * `7.9483E+11`, comes out as `79483` instead of `794830000000`.
   */
  lemma TrackingDropsZeros(digits: string, k: nat)
    requires |digits| > 0 && AllDigits(digits) && DigitsValue(digits) % 10 != 0 && k > 0
    ensures var t := digits + "E" + NatToString(k);
      NormalizeTracking(Some(t), true) == NatToString(DigitsValue(digits))
      && NormalizeTracking(Some(t), false) == NatToString(DigitsValue(digits)) + Zeros(k)
  {
    var t := digits + "E" + NatToString(k);
    var d := Finite(false, DigitsValue(digits), k);
    ScientificDigits(digits, k);
    ScientificText(digits, k);
    assert IsExponentMark(t[|digits|]);
    RenderDropsZeros(d);
  }

  /** A whole number not ending in zero, with a positive exponent, loses its zeros as written but not as intended. */
  lemma RenderDropsZeros(d: Dec)
    requires d.Finite? && !d.neg && d.coeff % 10 != 0 && d.exp > 0
    ensures RenderAsWritten(d) == NatToString(d.coeff)
    ensures Render(d) == NatToString(d.coeff) + Zeros(d.exp)
  {
    var n := NatToString(d.coeff);
    WholeFixedText(d);
    NatToStringLast(d.coeff);
    RStripZeros(n, d.exp);
    RStripDigits(n);
  }

  /** A positive whole number with a positive exponent is written as its digits followed by that many zeros. */
  lemma WholeFixedText(d: Dec)
    requires d.Finite? && !d.neg && d.coeff != 0 && d.exp > 0
    ensures FixedText(d) == NatToString(d.coeff) + Zeros(d.exp)
  {
    assert FixedExp(d) == d.exp;
  }

  /** Text ending in a digit has no trailing point to drop. */
  lemma RStripDigits(n: string)
    requires |n| > 0 && IsDigit(n[|n| - 1])
    ensures RStrip(n, '.') == n
  {
  }

  /** `digits E k` has no whitespace at either end and is not blank. */
  lemma ScientificText(digits: string, k: nat)
    requires |digits| > 0 && AllDigits(digits)
    ensures Trimmed(digits + "E" + NatToString(k)) && !IsBlank(digits + "E" + NatToString(k))
  {
    var e := NatToString(k);
    var t := digits + "E" + e;
    assert t[0] == digits[0] && t[|t| - 1] == e[|e| - 1];
    assert IsDigit(t[0]) && IsDigit(t[|t| - 1]);
  }

  // ---------------------------------------------------------------------------
  // Rows of the results file
  // ---------------------------------------------------------------------------

  /** A row of the results file: column name to cell text, a missing cell as None. */
  type Row = map<string, Option<string>>

  /** Whether the row holds a non-blank value in column `c`. */
  predicate Filled(row: Row, c: string) {
    c in row && row[c].Some? && !IsBlank(row[c].value)
  }

  /** The position of the first candidate column the row fills. */
  function FirstFilled(row: Row, candidates: seq<string>): (r: Option<nat>)
    ensures r.None? <==> forall i :: 0 <= i < |candidates| ==> !Filled(row, candidates[i])
    ensures r.Some? ==> r.value < |candidates| && Filled(row, candidates[r.value])
    ensures r.Some? ==> forall j :: 0 <= j < r.value ==> !Filled(row, candidates[j])
  {
    if |candidates| == 0 then None
    else if Filled(row, candidates[0]) then Some(0)
    else
      match FirstFilled(row, candidates[1..])
      case None => None
      case Some(i) => Some(i + 1)
  }

  /** `_first_present`: the stripped value of the first candidate column the row fills, else empty. */
  function FirstPresent(row: Row, candidates: seq<string>): (r: string)
    ensures r == "" <==> forall i :: 0 <= i < |candidates| ==> !Filled(row, candidates[i])
    ensures r != "" ==> var i := FirstFilled(row, candidates).value;
      r == Strip(row[candidates[i]].value)
  {
    match FirstFilled(row, candidates)
    case None => ""
    case Some(i) => Strip(row[candidates[i]].value)
  }

  /** The results table: its column names and its rows, indexed from 0. */
  datatype Table = Table(columns: seq<string>, rows: seq<Row>)

  const DisputedColumn := "Disputed"

  /** The table with a `Disputed` column: added with empty cells when missing. */
  function WithDisputed(t: Table): (r: Table)
    ensures DisputedColumn in r.columns
    ensures |r.rows| == |t.rows|
    ensures DisputedColumn in t.columns ==> r == t
    ensures DisputedColumn !in t.columns ==>
      r.columns == t.columns + [DisputedColumn]
      && forall i :: 0 <= i < |t.rows| ==> r.rows[i] == t.rows[i][DisputedColumn := Some("")]
  {
    if DisputedColumn in t.columns then t
    else
      Table(t.columns + [DisputedColumn],
            seq(|t.rows|, i requires 0 <= i < |t.rows| => t.rows[i][DisputedColumn := Some("")]))
  }

  /** Set `Disputed` to `1` in the rows at the given positions, skipping positions the table does not have. */
  function MarkAt(rows: seq<Row>, indices: seq<int>): (r: seq<Row>)
    ensures |r| == |rows|
    ensures forall i :: 0 <= i < |rows| && i in indices ==> r[i] == rows[i][DisputedColumn := Some("1")]
    ensures forall i :: 0 <= i < |rows| && i !in indices ==> r[i] == rows[i]
  {
    if |indices| == 0 then rows
    else
      var idx := indices[|indices| - 1];
      var before := MarkAt(rows, indices[..|indices| - 1]);
      assert forall i :: i in indices <==> i in indices[..|indices| - 1] || i == idx by {
        assert indices == indices[..|indices| - 1] + [idx];
      }
      if 0 <= idx < |rows| then before[idx := before[idx][DisputedColumn := Some("1")]]
      else before
  }

  /**
   * `mark_rows_as_disputed`: every existing row at a given index gets
   * `Disputed` = `1`, every other row and every other cell is unchanged,
   * and the column is added first when the file lacks it.
   */
  function MarkDisputed(t: Table, indices: seq<int>): (r: Table)
    ensures r.columns == WithDisputed(t).columns
    ensures |r.rows| == |t.rows|
    ensures forall i :: 0 <= i < |t.rows| && i in indices ==>
      DisputedColumn in r.rows[i] && r.rows[i][DisputedColumn] == Some("1")
    ensures forall i, c :: 0 <= i < |t.rows| && c != DisputedColumn ==>
      (c in r.rows[i] <==> c in t.rows[i]) && (c in t.rows[i] ==> r.rows[i][c] == t.rows[i][c])
    ensures forall i :: 0 <= i < |t.rows| && i !in indices ==> r.rows[i] == WithDisputed(t).rows[i]
  {
    var base := WithDisputed(t);
    Table(base.columns, MarkAt(base.rows, indices))
  }

  /** Whether a row is shown: its `Disputed` value, missing read as empty, is blank. */
  predicate Undisputed(row: Row) {
    DisputedColumn !in row || row[DisputedColumn].None? || IsBlank(row[DisputedColumn].value)
  }

  /** The positions of the rows the page shows, in order. */
  function Shown(t: Table): (r: seq<nat>)
    ensures forall i: nat :: i in r <==> i < |t.rows| && (DisputedColumn !in t.columns || Undisputed(t.rows[i]))
    ensures forall a, b :: 0 <= a < b < |r| ==> r[a] < r[b]
  {
    ShownUpTo(t, |t.rows|)
  }

  function ShownUpTo(t: Table, n: nat): (r: seq<nat>)
    requires n <= |t.rows|
    ensures forall i: nat :: i in r <==> i < n && (DisputedColumn !in t.columns || Undisputed(t.rows[i]))
    ensures forall a, b :: 0 <= a < b < |r| ==> r[a] < r[b]
    ensures forall a :: 0 <= a < |r| ==> r[a] < n
  {
    if n == 0 then []
    else
      var before := ShownUpTo(t, n - 1);
      if DisputedColumn !in t.columns || Undisputed(t.rows[n - 1]) then before + [n - 1] else before
  }

  /** Adding the empty `Disputed` column hides nothing. */
  lemma WithDisputedShowsSame(t: Table, i: nat)
    ensures i in Shown(WithDisputed(t)) <==> i in Shown(t)
  {
    if DisputedColumn !in t.columns && i < |t.rows| {
      assert WithDisputed(t).rows[i][DisputedColumn] == Some("");
      assert IsBlank("");
    }
  }

  /**
   * After marking, the page shows exactly the rows it showed before that
   * were not marked.
   */
  lemma MarkedRowsHidden(t: Table, indices: seq<int>, i: nat)
    ensures i in Shown(MarkDisputed(t, indices)) <==> i in Shown(t) && i !in indices
  {
    var base := WithDisputed(t);
    WithDisputedShowsSame(t, i);
    if i < |t.rows| && i in indices {
      assert MarkDisputed(t, indices).rows[i][DisputedColumn] == Some("1");
      assert !IsBlank("1") by {
        assert !IsSpace("1"[0]);
      }
    }
  }

  // ---------------------------------------------------------------------------
  // Download
  // ---------------------------------------------------------------------------

  /** The download name with every double quote replaced by an underscore. */
  function SafeName(name: string): (r: string)
    ensures |r| == |name|
    ensures '"' !in r
    ensures forall i :: 0 <= i < |name| && name[i] != '"' ==> r[i] == name[i]
    ensures forall i :: 0 <= i < |name| && name[i] == '"' ==> r[i] == '_'
  {
    if |name| == 0 then ""
    else [if name[0] == '"' then '_' else name[0]] + SafeName(name[1..])
  }

  /** A name with no double quote is used as it is. */
  lemma {:induction false} SafeNameKeepsPlain(name: string)
    requires '"' !in name
    ensures SafeName(name) == name
  {
    if |name| > 0 {
      SafeNameKeepsPlain(name[1..]);
      assert [name[0]] + name[1..] == name;
    }
  }

  /** Escaping an escaped name changes nothing. */
  lemma SafeNameIdempotent(name: string)
    ensures SafeName(SafeName(name)) == SafeName(name)
  {
    SafeNameKeepsPlain(SafeName(name));
  }
}
