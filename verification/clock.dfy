/**
 * Durations and their renderings: the `HH:MM[:SS]` formatters, the parser
 * that reads a typed duration back, and the "time ago" label shown next to
 * live activities.  Instants are whole microseconds since the Unix epoch,
 * the resolution the program stores them at.
 */
module Clock {
  import opened Wrappers
  import opened Text

  /** A UTC instant in microseconds since the epoch. */
  type Instant = int

  const MicrosPerSecond: nat := 1_000_000

  /** `int(delta.total_seconds())` for a delta of `us` microseconds: truncation toward zero. */
  function WholeSeconds(us: int): (r: int)
    ensures us >= 0 ==> 0 <= r && r * MicrosPerSecond <= us < (r + 1) * MicrosPerSecond
    ensures us < 0 ==> r <= 0 && -r * MicrosPerSecond <= -us < (-r + 1) * MicrosPerSecond
  {
    if us >= 0 then us / MicrosPerSecond else -((-us) / MicrosPerSecond)
  }

  /** `max(0, int(seconds))`. */
  function Clamp(seconds: int): nat {
    if seconds < 0 then 0 else seconds
  }

  /** `f"{n:02d}"`. */
  function Pad2(n: nat): (r: string)
    ensures AllDigits(r) && DigitsValue(r) == n
    ensures n < 100 ==> |r| == 2
    ensures |r| >= 2
  {
    var r := ZeroPad(n, 2);
    assert n < 100 ==> |r| == 2 by {
      if n < 100 {
        assert Pow10(2) == 100;
        ZeroPadWidth(n, 2);
      }
    }
    r
  }

  /** A duration splits into whole hours, whole minutes of the rest, and the leftover seconds. */
  lemma HmsSplit(t: nat)
    ensures (t % 3600) / 60 < 60
    ensures (t / 3600) * 3600 + ((t % 3600) / 60) * 60 + t % 60 == t
  {
    var q, r := t / 3600, t % 3600;
    assert t == q * 3600 + r;
    var m, s := r / 60, r % 60;
    assert r == m * 60 + s;
    assert t == (q * 60 + m) * 60 + s;
    assert t % 60 == s;
  }

  /** The whole hours and minutes of a clamped duration, each padded to two digits. */
  function FormatHhMmParts(seconds: int): (r: (string, string))
    ensures AllDigits(r.0) && |r.0| >= 2
    ensures AllDigits(r.1) && |r.1| == 2 && DigitsValue(r.1) < 60
    ensures DigitsValue(r.0) * 3600 + DigitsValue(r.1) * 60 + Clamp(seconds) % 60 == Clamp(seconds)
  {
    var t := Clamp(seconds);
    HmsSplit(t);
    (Pad2(t / 3600), Pad2((t % 3600) / 60))
  }

  /** `HH:MM` of a clamped duration; the seconds are dropped, not rounded. */
  function FormatHhmm(seconds: int): (r: string)
    ensures var (h, m) := FormatHhMmParts(seconds); r == h + ":" + m
  {
    var t := Clamp(seconds);
    Pad2(t / 3600) + ":" + Pad2((t % 3600) / 60)
  }

  /** `HH:MM:SS` of a clamped duration: hours widen past 99, the other fields stay two digits. */
  function FormatHhmmss(seconds: int): (r: string)
    ensures var (h, m) := FormatHhMmParts(seconds); r == h + ":" + m + ":" + Pad2(Clamp(seconds) % 60)
  {
    var t := Clamp(seconds);
    Pad2(t / 3600) + ":" + Pad2((t % 3600) / 60) + ":" + Pad2(t % 60)
  }

  /** Seconds of an `H:M:S` or `H:M` text, or `-1` when it is neither. */
  function ParseHhmmss(text: string): int {
    ParseFields(Split(Strip(text), ':'))
  }

  /** Hours, minutes and optional seconds, each read by `int()`; anything else is `-1`. */
  function ParseFields(parts: seq<string>): (r: int)
    ensures |parts| != 2 && |parts| != 3 ==> r == -1
    ensures |parts| == 2 && (ParseInt(parts[0]).None? || ParseInt(parts[1]).None?) ==> r == -1
    ensures |parts| == 3 && (ParseInt(parts[0]).None? || ParseInt(parts[1]).None? || ParseInt(parts[2]).None?) ==> r == -1
  {
    if |parts| == 3 then
      match (ParseInt(parts[0]), ParseInt(parts[1]), ParseInt(parts[2]))
      case (Some(h), Some(m), Some(s)) => h * 3600 + m * 60 + s
      case _ => -1
    else if |parts| == 2 then
      match (ParseInt(parts[0]), ParseInt(parts[1]))
      case (Some(h), Some(m)) => h * 3600 + m * 60
      case _ => -1
    else -1
  }

  /** Anything but two or three colon-separated fields, each an integer to `int()`, reads as `-1`. */
  lemma ParseHhmmssShape(text: string)
    ensures var parts := Split(Strip(text), ':');
      |parts| != 2 && |parts| != 3 ==> ParseHhmmss(text) == -1
    ensures var parts := Split(Strip(text), ':');
      (exists i :: 0 <= i < |parts| && ParseInt(parts[i]).None?) ==> ParseHhmmss(text) == -1
  {
    var parts := Split(Strip(text), ':');
    if i :| 0 <= i < |parts| && ParseInt(parts[i]).None? {
      if |parts| == 2 || |parts| == 3 {
        assert i == 0 || i == 1 || i == 2;
      }
    }
  }

  lemma SplitThree(a: string, b: string, c: string)
    requires AllDigits(a) && AllDigits(b) && AllDigits(c)
    ensures Split(a + ":" + b + ":" + c, ':') == [a, b, c]
  {
    SplitNoSeparator(c, ':');
    SplitCons(b, ':', c);
    assert a + ":" + b + ":" + c == a + [':'] + (b + [':'] + c);
    SplitCons(a, ':', b + [':'] + c);
  }

  lemma SplitTwo(a: string, b: string)
    requires AllDigits(a) && AllDigits(b)
    ensures Split(a + ":" + b, ':') == [a, b]
  {
    SplitNoSeparator(b, ':');
    SplitCons(a, ':', b);
  }

  /** Three digit fields joined by colons parse to their weighted sum. */
  lemma ParseThreeFields(h: string, m: string, s: string)
    requires |h| > 0 && |m| > 0 && |s| > 0
    requires AllDigits(h) && AllDigits(m) && AllDigits(s)
    ensures ParseHhmmss(h + ":" + m + ":" + s) == DigitsValue(h) * 3600 + DigitsValue(m) * 60 + DigitsValue(s)
  {
    JoinedThreeTrimmed(h, m, s);
    SplitThree(h, m, s);
    ParseDigitFields(h, m, s);
  }

  lemma JoinedThreeTrimmed(h: string, m: string, s: string)
    requires |h| > 0 && |s| > 0 && AllDigits(h) && AllDigits(s)
    ensures Strip(h + ":" + m + ":" + s) == h + ":" + m + ":" + s
  {
    var text := h + ":" + m + ":" + s;
    assert text[0] == h[0] && IsDigit(h[0]);
    assert text[|text| - 1] == s[|s| - 1] && IsDigit(s[|s| - 1]);
    assert Trimmed(text);
  }

  lemma ParseDigitFields(h: string, m: string, s: string)
    requires |h| > 0 && |m| > 0 && |s| > 0
    requires AllDigits(h) && AllDigits(m) && AllDigits(s)
    ensures ParseFields([h, m, s]) == DigitsValue(h) * 3600 + DigitsValue(m) * 60 + DigitsValue(s)
  {
    ParseIntDigits(h);
    ParseIntDigits(m);
    ParseIntDigits(s);
  }

  /** Two digit fields joined by a colon parse as hours and minutes. */
  lemma ParseTwoFields(h: string, m: string)
    requires |h| > 0 && |m| > 0
    requires AllDigits(h) && AllDigits(m)
    ensures ParseHhmmss(h + ":" + m) == DigitsValue(h) * 3600 + DigitsValue(m) * 60
  {
    var text := h + ":" + m;
    assert Strip(text) == text by {
      assert text[0] == h[0] && IsDigit(h[0]);
      assert text[|text| - 1] == m[|m| - 1] && IsDigit(m[|m| - 1]);
      assert Trimmed(text);
    }
    SplitTwo(h, m);
    ParseDigitPair(h, m);
  }

  lemma ParseDigitPair(h: string, m: string)
    requires |h| > 0 && |m| > 0
    requires AllDigits(h) && AllDigits(m)
    ensures ParseFields([h, m]) == DigitsValue(h) * 3600 + DigitsValue(m) * 60
  {
    var parts := [h, m];
    ParseIntDigits(h);
    ParseIntDigits(m);
    assert ParseInt(parts[0]) == Some(DigitsValue(h));
    assert ParseInt(parts[1]) == Some(DigitsValue(m));
  }

  /** Reading back what `FormatHhmmss` wrote yields the clamped duration. */
  lemma ParseFormatHhmmss(seconds: int)
    ensures ParseHhmmss(FormatHhmmss(seconds)) == Clamp(seconds)
  {
    var (h, m) := FormatHhMmParts(seconds);
    ParseThreeFields(h, m, Pad2(Clamp(seconds) % 60));
  }

  /** Reading back what `FormatHhmm` wrote yields the clamped duration in whole minutes. */
  lemma ParseFormatHhmm(seconds: int)
    ensures ParseHhmmss(FormatHhmm(seconds)) == Clamp(seconds) - Clamp(seconds) % 60
  {
    var (h, m) := FormatHhMmParts(seconds);
    ParseTwoFields(h, m);
  }

  /** Text with no colon is a single field, which reads as `-1`. */
  lemma ParseHhmmssNoColon(text: string)
    requires ':' !in Strip(text)
    ensures ParseHhmmss(text) == -1
  {
    SplitNoSeparator(Strip(text), ':');
  }

  /** Text that is not two or three colon-separated integers reads as `-1`. */
  lemma ParseHhmmssRejects()
    ensures ParseHhmmss("") == -1
    ensures ParseHhmmss("abc") == -1
  {
    ParseHhmmssNoColon("");
    assert Strip("abc") == "abc" by {
      assert Trimmed("abc");
    }
    ParseHhmmssNoColon("abc");
  }

  /** Four fields are one too many, even when each is a number. */
  lemma ParseHhmmssTooManyFields()
    ensures ParseHhmmss("1:2:3:4") == -1
  {
    var text := "1" + [':'] + ("2" + [':'] + ("3" + [':'] + "4"));
    assert text == "1:2:3:4";
    assert Trimmed(text);
    SplitNoSeparator("4", ':');
    SplitCons("3", ':', "4");
    SplitCons("2", ':', "3" + [':'] + "4");
    SplitCons("1", ':', "2" + [':'] + ("3" + [':'] + "4"));
    assert |Split(text, ':')| == 4;
  }

  /** Fields are not range-checked. */
  lemma ParseHhmmssMinutesOverflow()
    ensures ParseHhmmss("00:90") == 5400
  {
    var zero, ninety := "00", "90";
    assert zero + ":" + ninety == "00:90" by {
      assert |zero + ":" + ninety| == 5;
      forall i | 0 <= i < 5 ensures (zero + ":" + ninety)[i] == "00:90"[i] {
      }
    }
    assert DigitsValue(zero) == 0 by {
      assert zero[..1] == "0";
    }
    assert DigitsValue(ninety) == 90 by {
      assert ninety[..1] == "9";
    }
    ParseTwoFields(zero, ninety);
  }

  /** Surrounding whitespace runs of any length are ignored. */
  lemma ParseHhmmssStrips(before: string, text: string, after: string)
    requires AllSpace(before) && AllSpace(after) && Trimmed(text)
    ensures ParseHhmmss(before + text + after) == ParseHhmmss(text)
  {
    StripPadded(before, text, after);
  }

  // ---------------------------------------------------------------------------
  // "time ago"
  // ---------------------------------------------------------------------------

  datatype AgoUnit = Minute | Hour | Day

  function UnitSeconds(u: AgoUnit): nat {
    match u
    case Minute => 60
    case Hour => 3600
    case Day => 86400
  }

  /** What follows the count: the unit, with `days` from two on, and `ago`. */
  function AgoSuffix(u: AgoUnit, n: nat): string {
    match u
    case Minute => " min ago"
    case Hour => " hr ago"
    case Day => if n > 1 then " days ago" else " day ago"
  }

  /** The coarsest unit that fits in `s` seconds and how many whole units fit. */
  function AgoCount(s: int): (r: (nat, AgoUnit))
    requires s >= 60
    ensures r.0 >= 1
    ensures r.0 * UnitSeconds(r.1) <= s < (r.0 + 1) * UnitSeconds(r.1)
    ensures r.1 == Minute <==> s < 3600
    ensures r.1 == Day <==> s >= 86400
  {
    if s < 3600 then (s / 60, Minute)
    else if s < 86400 then (s / 3600, Hour)
    else (s / 86400, Day)
  }

  /** Units in increasing size. */
  function UnitRank(u: AgoUnit): nat {
    match u
    case Minute => 0
    case Hour => 1
    case Day => 2
  }

  /** An older instant never shows a finer unit, nor a smaller count in the same unit. */
  lemma AgoCountMonotone(a: int, b: int)
    requires 60 <= a <= b
    ensures UnitRank(AgoCount(a).1) <= UnitRank(AgoCount(b).1)
    ensures AgoCount(a).1 == AgoCount(b).1 ==> AgoCount(a).0 <= AgoCount(b).0
  {
  }

  /**
   * `format_time_ago`: the label for an instant relative to `now`, from the
   * whole seconds between them; a missing instant gives the empty label.
   */
  function FormatTimeAgo(dt: Option<Instant>, now: Instant): (r: string)
    ensures dt.None? <==> r == ""
    ensures dt.Some? ==> EndsWith(r, " ago")
    ensures dt.Some? ==> var s := WholeSeconds(now - dt.value);
      && (s < 60 ==> r == "less than a minute ago")
      && (60 <= s < 3600 ==> r == NatToString(s / 60) + " min ago")
      && (3600 <= s < 86400 ==> r == NatToString(s / 3600) + " hr ago")
      && (s >= 86400 && s / 86400 == 1 ==> r == NatToString(s / 86400) + " day ago")
      && (s >= 86400 && s / 86400 > 1 ==> r == NatToString(s / 86400) + " days ago")
  {
    match dt
    case None => ""
    case Some(t) => AgoText(WholeSeconds(now - t))
  }

  /**
   * The label for an instant `seconds` whole seconds in the past: below a
   * minute a fixed text, then whole minutes, whole hours, and whole days
   * with the plural from two days on.
   */
  function AgoText(seconds: int): (r: string)
    ensures EndsWith(r, " ago")
    ensures seconds < 60 ==> r == "less than a minute ago"
    ensures 60 <= seconds < 3600 ==> r == NatToString(seconds / 60) + " min ago"
    ensures 3600 <= seconds < 86400 ==> r == NatToString(seconds / 3600) + " hr ago"
    ensures seconds >= 86400 && seconds / 86400 == 1 ==> r == NatToString(seconds / 86400) + " day ago"
    ensures seconds >= 86400 && seconds / 86400 > 1 ==> r == NatToString(seconds / 86400) + " days ago"
    ensures seconds >= 60 ==> StartsWith(r, NatToString(AgoCount(seconds).0))
  {
    if seconds < 60 then
      var r := "less than a minute ago";
      assert r[|r| - 4..] == " ago";
      r
    else
      var (n, u) := AgoCount(seconds);
      AgoLabel(n, u)
  }

  /** `"<n> <unit> ago"`. */
  function AgoLabel(n: nat, u: AgoUnit): (r: string)
    ensures StartsWith(r, NatToString(n)) && EndsWith(r, " ago")
    ensures r == NatToString(n) + AgoSuffix(u, n)
  {
    var x := AgoSuffix(u, n);
    var r := NatToString(n) + x;
    assert r[..|NatToString(n)|] == NatToString(n);
    assert x[|x| - 4..] == " ago";
    assert r[|r| - 4..] == x[|x| - 4..];
    r
  }
}
