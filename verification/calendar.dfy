/**
 * Civil dates and wall-clock times, and the text forms the program writes
 * them in.  The conversion of a UTC instant to America/New_York wall-clock
 * time depends on the time-zone database, so it enters the model as a
 * function parameter of type `EasternZone`.
 */
module Calendar {
  import opened Text
  import opened Clock

  datatype Date = Date(year: int, month: int, day: int)

  predicate IsLeapYear(y: int) {
    y % 4 == 0 && (y % 100 != 0 || y % 400 == 0)
  }

  function DaysInMonth(y: int, m: int): int
    requires 1 <= m <= 12
  {
    if m == 2 then (if IsLeapYear(y) then 29 else 28)
    else if m == 4 || m == 6 || m == 9 || m == 11 then 30
    else 31
  }

  /** The dates Python's `date` type can hold. */
  predicate ValidDate(d: Date) {
    1 <= d.year <= 9999 && 1 <= d.month <= 12 && 1 <= d.day <= DaysInMonth(d.year, d.month)
  }

  type CivilDate = d: Date | ValidDate(d) witness Date(2000, 1, 1)

  datatype WallClock = WallClock(date: Date, hour: int, minute: int, second: int)

  predicate ValidWallClock(w: WallClock) {
    ValidDate(w.date) && 0 <= w.hour < 24 && 0 <= w.minute < 60 && 0 <= w.second < 60
  }

  /** A valid wall-clock reading, to whole seconds. */
  type CivilTime = w: WallClock | ValidWallClock(w) witness WallClock(Date(2000, 1, 1), 0, 0, 0)

  /** `to_eastern`: a UTC instant read on the America/New_York wall clock. */
  type EasternZone = Instant -> CivilTime

  /** `%Y`, `f"{n:04d}"`: four digits for every year a date can hold. */
  function Pad4(n: nat): (r: string)
    ensures AllDigits(r) && DigitsValue(r) == n
    ensures n < 10000 ==> |r| == 4
  {
    var r := ZeroPad(n, 4);
    assert n < 10000 ==> |r| == 4 by {
      if n < 10000 {
        assert Pow10(4) == 10000;
        ZeroPadWidth(n, 4);
      }
    }
    r
  }

  lemma Pad2Width(n: nat)
    requires n < 100
    ensures |Pad2(n)| == 2
  {
    ZeroPadWidth(n, 2);
  }

  /** `date.isoformat()`: `YYYY-MM-DD`. */
  function IsoDate(d: CivilDate): (r: string)
    ensures |r| == 10
    ensures r[4] == '-' && r[7] == '-'
    ensures AllDigits(r[..4]) && DigitsValue(r[..4]) == d.year
    ensures AllDigits(r[5..7]) && DigitsValue(r[5..7]) == d.month
    ensures AllDigits(r[8..]) && DigitsValue(r[8..]) == d.day
  {
    var y, m, dd := Pad4(d.year), Pad2(d.month), Pad2(d.day);
    var r := y + "-" + m + "-" + dd;
    assert r[..4] == y && r[5..7] == m && r[8..] == dd;
    r
  }

  /** Equal ISO texts name the same date. */
  lemma IsoDateInjective(a: CivilDate, b: CivilDate)
    requires IsoDate(a) == IsoDate(b)
    ensures a == b
  {
    var s, t := IsoDate(a), IsoDate(b);
    assert s[..4] == t[..4] && s[5..7] == t[5..7] && s[8..] == t[8..];
  }

  /** `%Y%m%d`: four digits of year, then two of month and two of day. */
  function CompactDate(d: CivilDate): (r: string)
    ensures |r| == 8 && AllDigits(r)
    ensures AllDigits(r[..4]) && DigitsValue(r[..4]) == d.year
    ensures AllDigits(r[4..6]) && DigitsValue(r[4..6]) == d.month
    ensures AllDigits(r[6..]) && DigitsValue(r[6..]) == d.day
  {
    Pad2Width(d.month);
    Pad2Width(d.day);
    var y, m, dd := Pad4(d.year), Pad2(d.month), Pad2(d.day);
    var r := y + m + dd;
    assert r[..4] == y && r[4..6] == m && r[6..] == dd;
    r
  }

  /** `%H%M%S`: two digits each of hour, minute and second. */
  function CompactTime(w: CivilTime): (r: string)
    ensures |r| == 6 && AllDigits(r)
    ensures AllDigits(r[..2]) && DigitsValue(r[..2]) == w.hour
    ensures AllDigits(r[2..4]) && DigitsValue(r[2..4]) == w.minute
    ensures AllDigits(r[4..]) && DigitsValue(r[4..]) == w.second
  {
    Pad2Width(w.hour);
    Pad2Width(w.minute);
    Pad2Width(w.second);
    var h, m, sec := Pad2(w.hour), Pad2(w.minute), Pad2(w.second);
    var r := h + m + sec;
    assert r[..2] == h && r[2..4] == m && r[4..] == sec;
    r
  }

  /** Two three-part concatenations with equally long first and second parts agree part by part. */
  lemma ThreeParts(a: string, b: string, c: string, d: string, e: string, f: string)
    requires a + b + c == d + e + f && |a| == |d| && |b| == |e|
    ensures a == d && b == e && c == f
  {
    var s := a + b + c;
    assert s[..|a|] == a;
    assert (d + e + f)[..|d|] == d;
    assert s[|a|..|a| + |b|] == b;
    assert (d + e + f)[|d|..|d| + |e|] == e;
    assert s[|a| + |b|..] == c;
    assert (d + e + f)[|d| + |e|..] == f;
  }

  /** Equal compact dates name the same date. */
  lemma CompactDateInjective(a: CivilDate, b: CivilDate)
    requires CompactDate(a) == CompactDate(b)
    ensures a == b
  {
    Pad2Width(a.month);
    Pad2Width(b.month);
    ThreeParts(Pad4(a.year), Pad2(a.month), Pad2(a.day), Pad4(b.year), Pad2(b.month), Pad2(b.day));
  }

  /** Equal compact times name the same time of day. */
  lemma CompactTimeInjective(a: CivilTime, b: CivilTime)
    requires CompactTime(a) == CompactTime(b)
    ensures a.hour == b.hour && a.minute == b.minute && a.second == b.second
  {
    Pad2Width(a.hour);
    Pad2Width(a.minute);
    Pad2Width(b.hour);
    Pad2Width(b.minute);
    ThreeParts(Pad2(a.hour), Pad2(a.minute), Pad2(a.second), Pad2(b.hour), Pad2(b.minute), Pad2(b.second));
  }
}
