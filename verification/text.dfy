/**
 * The string built-ins the program leans on, stated once: Python's notion of
 * whitespace, `strip`, `split`, ASCII case mapping, decimal digits, `int()`
 * on text, zero-padded rendering and code-point ordering of strings.
 */
module Text {
  import opened Wrappers

  // ---------------------------------------------------------------------------
  // Character classes
  // ---------------------------------------------------------------------------

  /** `str.isspace()` (also the regex class `\s`) for one character. */
  predicate IsSpace(c: char) {
    c as int in SpaceCodes
  }

  /** The code points `str.isspace()` accepts. */
  const SpaceCodes: set<int> := {
    9, 10, 11, 12, 13, 28, 29, 30, 31, 32, 0x85, 0xA0, 0x1680,
    0x2000, 0x2001, 0x2002, 0x2003, 0x2004, 0x2005, 0x2006, 0x2007, 0x2008, 0x2009, 0x200A,
    0x2028, 0x2029, 0x202F, 0x205F, 0x3000}

  predicate NoSpace(s: string) {
    forall i :: 0 <= i < |s| ==> !IsSpace(s[i])
  }

  predicate AllSpace(s: string) {
    forall i :: 0 <= i < |s| ==> IsSpace(s[i])
  }

  predicate IsDigit(c: char) {
    '0' <= c <= '9'
  }

  predicate AllDigits(s: string) {
    forall i :: 0 <= i < |s| ==> IsDigit(s[i])
  }

  predicate IsAsciiUpper(c: char) {
    'A' <= c <= 'Z'
  }

  predicate IsAsciiLower(c: char) {
    'a' <= c <= 'z'
  }

  /** `str.isalnum()` restricted to ASCII letters and digits. */
  predicate IsAlnum(c: char) {
    IsDigit(c) || IsAsciiUpper(c) || IsAsciiLower(c)
  }

  predicate IsAscii(s: string) {
    forall i :: 0 <= i < |s| ==> s[i] as int < 128
  }

  // ---------------------------------------------------------------------------
  // Case mapping (ASCII)
  // ---------------------------------------------------------------------------

  function LowerChar(c: char): char {
    if IsAsciiUpper(c) then (c as int + 32) as char else c
  }

  function UpperChar(c: char): char {
    if IsAsciiLower(c) then (c as int - 32) as char else c
  }

  /** `str.lower()` with the ASCII case mapping. */
  function Lower(s: string): (r: string)
    ensures |r| == |s|
    ensures forall i :: 0 <= i < |s| ==> r[i] == LowerChar(s[i])
  {
    seq(|s|, i requires 0 <= i < |s| => LowerChar(s[i]))
  }

  /** `str.upper()` with the ASCII case mapping. */
  function Upper(s: string): (r: string)
    ensures |r| == |s|
    ensures forall i :: 0 <= i < |s| ==> r[i] == UpperChar(s[i])
  {
    seq(|s|, i requires 0 <= i < |s| => UpperChar(s[i]))
  }

  /** `str.capitalize()`: first character upper-cased, the rest lower-cased. */
  function Capitalize(s: string): (r: string)
    ensures |r| == |s|
    ensures |s| > 0 ==> r[0] == UpperChar(s[0])
    ensures forall i :: 1 <= i < |s| ==> r[i] == LowerChar(s[i])
  {
    if |s| == 0 then "" else [UpperChar(s[0])] + Lower(s[1..])
  }

  predicate HasNoUpper(s: string) {
    forall i :: 0 <= i < |s| ==> !IsAsciiUpper(s[i])
  }

  lemma LowerOfNoUpper(s: string)
    requires HasNoUpper(s)
    ensures Lower(s) == s
  {
  }

  // ---------------------------------------------------------------------------
  // strip()
  // ---------------------------------------------------------------------------

  /** Number of leading whitespace characters. */
  function LeadCount(s: string): (n: nat)
    ensures n <= |s|
    ensures forall i :: 0 <= i < n ==> IsSpace(s[i])
    ensures n < |s| ==> !IsSpace(s[n])
  {
    if |s| > 0 && IsSpace(s[0]) then 1 + LeadCount(s[1..]) else 0
  }

  /** Number of trailing whitespace characters. */
  function TrailCount(s: string): (n: nat)
    ensures n <= |s|
    ensures forall i :: |s| - n <= i < |s| ==> IsSpace(s[i])
    ensures n < |s| ==> !IsSpace(s[|s| - 1 - n])
  {
    if |s| > 0 && IsSpace(s[|s| - 1]) then 1 + TrailCount(s[..|s| - 1]) else 0
  }

  /** Neither end of `s` is whitespace. */
  predicate Trimmed(s: string) {
    |s| == 0 || (!IsSpace(s[0]) && !IsSpace(s[|s| - 1]))
  }

  /** `str.strip()`: the text between the leading and trailing whitespace runs. */
  function Strip(s: string): (r: string)
    ensures |r| <= |s|
    ensures Trimmed(r)
    ensures r == "" <==> AllSpace(s)
    ensures Trimmed(s) ==> r == s
    ensures LeadCount(s) < |s| ==> LeadCount(s) < |s| - TrailCount(s) && r == s[LeadCount(s) .. |s| - TrailCount(s)]
  {
    var a := LeadCount(s);
    if a == |s| then "" else s[a .. |s| - TrailCount(s)]
  }

  /** A whitespace run followed by text that does not start with whitespace leads with exactly that run. */
  lemma {:induction false} LeadRun(w: string, t: string)
    requires AllSpace(w) && (|t| == 0 || !IsSpace(t[0]))
    ensures LeadCount(w + t) == |w|
    decreases |w|
  {
    if |w| > 0 {
      assert (w + t)[1..] == w[1..] + t;
      LeadRun(w[1..], t);
    } else {
      assert w + t == t;
    }
  }

  /** Text that does not end in whitespace followed by a whitespace run trails with exactly that run. */
  lemma {:induction false} TrailRun(t: string, w: string)
    requires AllSpace(w) && (|t| == 0 || !IsSpace(t[|t| - 1]))
    ensures TrailCount(t + w) == |w|
    decreases |w|
  {
    if |w| > 0 {
      var n := |w| - 1;
      assert (t + w)[..|t + w| - 1] == t + w[..n];
      TrailRun(t, w[..n]);
    } else {
      assert t + w == t;
    }
  }

  /** Stripping a trimmed text padded with whitespace runs gives it back. */
  lemma StripPadded(before: string, t: string, after: string)
    requires AllSpace(before) && AllSpace(after) && Trimmed(t)
    ensures Strip(before + t + after) == t
  {
    var s := before + t + after;
    if |t| == 0 {
      assert AllSpace(s) by {
        forall i | 0 <= i < |s| ensures IsSpace(s[i]) {
          if i < |before| { assert s[i] == before[i]; } else { assert s[i] == after[i - |before|]; }
        }
      }
      return;
    }
    assert s == before + (t + after);
    LeadRun(before, t + after);
    assert s == (before + t) + after;
    TrailRun(before + t, after);
    assert s[|before|..|s| - |after|] == t;
  }

  /** A text field the program treats as empty: nothing but whitespace. */
  predicate IsBlank(s: string) {
    AllSpace(s)
  }

  /** `a` and `b` have whitespace at exactly the same positions. */
  predicate SameSpaces(a: string, b: string) {
    |a| == |b| && forall i :: 0 <= i < |a| ==> (IsSpace(a[i]) <==> IsSpace(b[i]))
  }

  lemma StripPositions(a: string, b: string)
    requires SameSpaces(a, b)
    ensures LeadCount(a) == LeadCount(b) && TrailCount(a) == TrailCount(b)
  {
  }

  /** Lower-casing keeps the leading and trailing whitespace runs. */
  lemma LowerSameCounts(s: string)
    ensures LeadCount(Lower(s)) == LeadCount(s) && TrailCount(Lower(s)) == TrailCount(s)
  {
    assert SameSpaces(s, Lower(s));
    StripPositions(s, Lower(s));
  }

  /** Upper-casing keeps the leading and trailing whitespace runs. */
  lemma UpperSameCounts(s: string)
    ensures LeadCount(Upper(s)) == LeadCount(s) && TrailCount(Upper(s)) == TrailCount(s)
  {
    assert SameSpaces(s, Upper(s));
    StripPositions(s, Upper(s));
  }

  /** `Strip` cuts the text between its leading and trailing whitespace runs. */
  lemma StripSlice(s: string)
    ensures LeadCount(s) == |s| ==> Strip(s) == ""
    ensures LeadCount(s) < |s| ==> LeadCount(s) <= |s| - TrailCount(s) && Strip(s) == s[LeadCount(s) .. |s| - TrailCount(s)]
  {
  }

  /** Lower-casing a slice is slicing the lower-cased text. */
  lemma LowerSlice(s: string, a: nat, b: nat)
    requires a <= b <= |s|
    ensures Lower(s)[a..b] == Lower(s[a..b])
  {
    assert forall i :: 0 <= i < b - a ==> Lower(s)[a..b][i] == LowerChar(s[a..b][i]);
  }

  /** Upper-casing a slice is slicing the upper-cased text. */
  lemma UpperSlice(s: string, a: nat, b: nat)
    requires a <= b <= |s|
    ensures Upper(s)[a..b] == Upper(s[a..b])
  {
    assert forall i :: 0 <= i < b - a ==> Upper(s)[a..b][i] == UpperChar(s[a..b][i]);
  }

  /** Two texts with the same whitespace runs at their ends are stripped at the same positions. */
  lemma StripSameCounts(s: string, t: string)
    requires |t| == |s| && LeadCount(t) == LeadCount(s) && TrailCount(t) == TrailCount(s)
    ensures LeadCount(s) == |s| ==> Strip(t) == ""
    ensures LeadCount(s) < |s| ==> LeadCount(s) <= |s| - TrailCount(s) && Strip(t) == t[LeadCount(s) .. |s| - TrailCount(s)]
  {
    StripSlice(t);
  }

  /** Stripping commutes with ASCII lower-casing. */
  lemma StripLower(s: string)
    ensures Strip(Lower(s)) == Lower(Strip(s))
  {
    LowerSameCounts(s);
    StripSameCounts(s, Lower(s));
    StripSlice(s);
    if LeadCount(s) < |s| {
      LowerSlice(s, LeadCount(s), |s| - TrailCount(s));
    }
  }

  /** Stripping commutes with ASCII upper-casing. */
  lemma StripUpper(s: string)
    ensures Strip(Upper(s)) == Upper(Strip(s))
  {
    UpperSameCounts(s);
    StripSameCounts(s, Upper(s));
    StripSlice(s);
    if LeadCount(s) < |s| {
      UpperSlice(s, LeadCount(s), |s| - TrailCount(s));
    }
  }

  // ---------------------------------------------------------------------------
  // split() and its inverse
  // ---------------------------------------------------------------------------

  /** `s.split(d)` for a one-character separator: never an empty list. */
  function Split(s: string, d: char): (r: seq<string>)
    ensures |r| >= 1
    ensures forall i :: 0 <= i < |r| ==> d !in r[i]
    ensures Join(r, d) == s
  {
    if |s| == 0 then [""]
    else
      var rest := Split(s[1..], d);
      if s[0] == d then
        assert Join([""] + rest, d) == [d] + Join(rest, d);
        [""] + rest
      else
        var r := [[s[0]] + rest[0]] + rest[1..];
        assert |rest| > 1 ==> Join(rest, d) == rest[0] + [d] + Join(rest[1..], d);
        assert |r| > 1 ==> r[1..] == rest[1..];
        r
  }

  /** `d.join(parts)`. */
  function Join(parts: seq<string>, d: char): string
    requires |parts| >= 1
  {
    if |parts| == 1 then parts[0] else parts[0] + [d] + Join(parts[1..], d)
  }

  lemma {:induction false} SplitNoSeparator(s: string, d: char)
    requires d !in s
    ensures Split(s, d) == [s]
  {
    if |s| > 0 {
      SplitNoSeparator(s[1..], d);
      assert [s[0]] + s[1..] == s;
    }
  }

  /** Splitting `a + d + b`, where `a` holds no separator, peels off `a`. */
  lemma {:induction false} SplitCons(a: string, d: char, b: string)
    requires d !in a
    ensures Split(a + [d] + b, d) == [a] + Split(b, d)
  {
    if |a| == 0 {
      assert a + [d] + b == [d] + b;
      assert ([d] + b)[1..] == b;
    } else {
      var s := a + [d] + b;
      assert s[1..] == a[1..] + [d] + b;
      SplitCons(a[1..], d, b);
      assert [a[0]] + a[1..] == a;
    }
  }

  // ---------------------------------------------------------------------------
  // Prefixes, suffixes, containment, ordering
  // ---------------------------------------------------------------------------

  predicate StartsWith(s: string, p: string) {
    |p| <= |s| && s[..|p|] == p
  }

  predicate EndsWith(s: string, p: string) {
    |p| <= |s| && s[|s| - |p|..] == p
  }

  /** Python's `t in s` for strings. */
  predicate Contains(s: string, t: string)
    decreases |s|
  {
    StartsWith(s, t) || (|s| > 0 && Contains(s[1..], t))
  }

  /** Python's `a < b` on strings: code-point lexicographic order. */
  predicate StrLess(a: string, b: string)
    decreases |a|
  {
    |b| > 0 && (|a| == 0 || a[0] < b[0] || (a[0] == b[0] && StrLess(a[1..], b[1..])))
  }

  lemma {:induction false} StrLessIrreflexive(a: string)
    ensures !StrLess(a, a)
    decreases |a|
  {
    if |a| > 0 {
      StrLessIrreflexive(a[1..]);
    }
  }

  lemma {:induction false} StrLessTransitive(a: string, b: string, c: string)
    requires StrLess(a, b) && StrLess(b, c)
    ensures StrLess(a, c)
    decreases |a|
  {
    if |a| > 0 && a[0] == b[0] && b[0] == c[0] {
      StrLessTransitive(a[1..], b[1..], c[1..]);
    }
  }

  lemma {:induction false} StrLessTotal(a: string, b: string)
    ensures a == b || StrLess(a, b) || StrLess(b, a)
    decreases |a|
  {
    if |a| > 0 && |b| > 0 && a[0] == b[0] {
      StrLessTotal(a[1..], b[1..]);
      if a[1..] == b[1..] {
        assert a == [a[0]] + a[1..] && b == [b[0]] + b[1..];
      }
    }
  }

  // ---------------------------------------------------------------------------
  // Decimal digits
  // ---------------------------------------------------------------------------

  function DigitVal(c: char): nat
    requires IsDigit(c)
  {
    c as int - '0' as int
  }

  function DigitChar(d: nat): (c: char)
    requires d < 10
    ensures IsDigit(c) && DigitVal(c) == d
  {
    ('0' as int + d) as char
  }

  function Pow10(k: nat): (r: nat)
    ensures r >= 1
  {
    if k == 0 then 1 else 10 * Pow10(k - 1)
  }

  /** The number a string of decimal digits denotes. */
  function DigitsValue(s: string): nat
    requires AllDigits(s)
  {
    if |s| == 0 then 0 else DigitsValue(s[..|s| - 1]) * 10 + DigitVal(s[|s| - 1])
  }

  lemma DigitsValueSnoc(a: string, c: char)
    requires AllDigits(a) && IsDigit(c)
    ensures AllDigits(a + [c]) && DigitsValue(a + [c]) == DigitsValue(a) * 10 + DigitVal(c)
  {
    assert (a + [c])[..|a|] == a;
  }

  /** `str(n)` for a natural number: the shortest decimal rendering. */
  function NatToString(n: nat): (r: string)
    ensures |r| >= 1 && AllDigits(r)
    ensures DigitsValue(r) == n
    ensures |r| > 1 ==> r[0] != '0'
    decreases n
  {
    if n < 10 then [DigitChar(n)]
    else
      var head := NatToString(n / 10);
      DigitsValueSnoc(head, DigitChar(n % 10));
      head + [DigitChar(n % 10)]
  }

  lemma NatToStringInjective(a: nat, b: nat)
    requires NatToString(a) == NatToString(b)
    ensures a == b
  {
    assert DigitsValue(NatToString(a)) == DigitsValue(NatToString(b));
  }

  lemma {:induction false} NatToStringShort(n: nat, k: nat)
    requires k >= 1 && n < Pow10(k)
    ensures |NatToString(n)| <= k
    decreases k
  {
    if n >= 10 {
      assert n / 10 < Pow10(k - 1);
      NatToStringShort(n / 10, k - 1);
    }
  }

  function Zeros(k: nat): (r: string)
    ensures |r| == k && AllDigits(r)
    ensures forall i :: 0 <= i < k ==> r[i] == '0'
  {
    seq(k, _ => '0')
  }

  lemma {:induction false} ZerosValue(k: nat)
    ensures DigitsValue(Zeros(k)) == 0
  {
    if k > 0 {
      assert Zeros(k)[..k - 1] == Zeros(k - 1);
      ZerosValue(k - 1);
    }
  }

  /** Leading zeros do not change the value of a digit string. */
  lemma {:induction false} LeadingZeros(k: nat, s: string)
    requires AllDigits(s)
    ensures AllDigits(Zeros(k) + s) && DigitsValue(Zeros(k) + s) == DigitsValue(s)
    decreases |s|
  {
    var t := Zeros(k) + s;
    if |s| == 0 {
      assert t == Zeros(k);
      ZerosValue(k);
    } else {
      assert t[..|t| - 1] == Zeros(k) + s[..|s| - 1];
      LeadingZeros(k, s[..|s| - 1]);
    }
  }

  /** Appending `k` zeros multiplies the value by ten to the `k`. */
  lemma {:induction false} TrailingZeros(s: string, k: nat)
    requires AllDigits(s)
    ensures AllDigits(s + Zeros(k)) && DigitsValue(s + Zeros(k)) == DigitsValue(s) * Pow10(k)
    decreases k
  {
    if k == 0 {
      assert s + Zeros(0) == s;
    } else {
      var t := s + Zeros(k);
      assert t[..|t| - 1] == s + Zeros(k - 1);
      TrailingZeros(s, k - 1);
    }
  }

  /** `f"{n:0{width}d}"` for a natural number. */
  function ZeroPad(n: nat, width: nat): (r: string)
    ensures |r| == if |NatToString(n)| >= width then |NatToString(n)| else width
    ensures AllDigits(r) && DigitsValue(r) == n
  {
    var d := NatToString(n);
    if |d| >= width then d
    else
      LeadingZeros(width - |d|, d);
      Zeros(width - |d|) + d
  }

  /** A number below ten to the `width` is rendered in exactly `width` digits. */
  lemma ZeroPadWidth(n: nat, width: nat)
    requires width >= 1 && n < Pow10(width)
    ensures |ZeroPad(n, width)| == width
  {
    NatToStringShort(n, width);
  }

  // ---------------------------------------------------------------------------
  // int() on text
  // ---------------------------------------------------------------------------

  predicate DigitsOrUnderscores(s: string) {
    forall i :: 0 <= i < |s| ==> IsDigit(s[i]) || s[i] == '_'
  }

  /** Digits with single underscores between them, as `int()` accepts. */
  predicate IsDigitGroup(s: string) {
    && |s| > 0
    && IsDigit(s[0])
    && IsDigit(s[|s| - 1])
    && DigitsOrUnderscores(s)
    && forall i :: 0 <= i < |s| - 1 && s[i] == '_' ==> IsDigit(s[i + 1])
  }

  function DropUnderscores(s: string): (r: string)
    requires DigitsOrUnderscores(s)
    ensures AllDigits(r)
    ensures AllDigits(s) ==> r == s
  {
    if |s| == 0 then ""
    else if s[0] == '_' then DropUnderscores(s[1..])
    else [s[0]] + DropUnderscores(s[1..])
  }

  /** Python's `int(text)`: surrounding whitespace, an optional sign, grouped digits. */
  function ParseInt(t: string): Option<int> {
    var u := Strip(t);
    if |u| > 0 && (u[0] == '+' || u[0] == '-') then
      var body := u[1..];
      if IsDigitGroup(body) then
        var v: int := DigitsValue(DropUnderscores(body));
        Some(if u[0] == '-' then -v else v)
      else None
    else if IsDigitGroup(u) then
      Some(DigitsValue(DropUnderscores(u)))
    else None
  }

  /** `int()` reads back any non-empty run of plain digits as its value. */
  lemma ParseIntDigits(s: string)
    requires |s| > 0 && AllDigits(s)
    ensures ParseInt(s) == Some(DigitsValue(s))
  {
    assert IsDigit(s[0]) && IsDigit(s[|s| - 1]);
    assert Trimmed(s);
    assert Strip(s) == s;
    assert forall i :: 0 <= i < |s| ==> s[i] != '_';
    assert IsDigitGroup(s);
    assert DropUnderscores(s) == s;
  }
}
