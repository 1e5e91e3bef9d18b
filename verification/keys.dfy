/**
 * User keys: the filesystem-safe form of a login used to name live-activity
 * files and the per-user partitions of the completed-task lake.
 */
module Keys {
  import opened Text

  /** Characters that survive sanitising: `[a-z0-9_.-]`. */
  predicate IsKeyChar(c: char) {
    IsAsciiLower(c) || IsDigit(c) || c == '_' || c == '-' || c == '.'
  }

  predicate IsKey(s: string) {
    forall i :: 0 <= i < |s| ==> IsKeyChar(s[i])
  }

  /** `re.sub(r"\s+", "_", s)`: every maximal whitespace run becomes one underscore. */
  function CollapseSpaces(s: string): (r: string)
    ensures NoSpace(r)
    ensures |r| <= |s|
    decreases |s|
  {
    if |s| == 0 then ""
    else if IsSpace(s[0]) then "_" + CollapseSpaces(s[LeadCount(s)..])
    else [s[0]] + CollapseSpaces(s[1..])
  }

  /** `re.sub(r"[^a-z0-9_\-\.]", "", s)`: drop every other character. */
  function KeepKeyChars(s: string): (r: string)
    ensures IsKey(r)
    ensures |r| <= |s|
  {
    if |s| == 0 then ""
    else if IsKeyChar(s[0]) then [s[0]] + KeepKeyChars(s[1..])
    else KeepKeyChars(s[1..])
  }

  /** Filtering keeps every key character as often as it occurs, and only those. */
  lemma {:induction false} KeepKeyCharsCounts(s: string, c: char)
    ensures multiset(KeepKeyChars(s))[c] == if IsKeyChar(c) then multiset(s)[c] else 0
  {
    if |s| > 0 {
      assert s == [s[0]] + s[1..];
      KeepKeyCharsCounts(s[1..], c);
    }
  }

  /** `sanitize_key`: strip, lower-case, whitespace runs to `_`, then drop disallowed characters. */
  function SanitizeKey(value: string): (r: string)
    ensures IsKey(r)
    ensures |r| <= |value|
  {
    KeepKeyChars(CollapseSpaces(Lower(Strip(value))))
  }

  /** A text with no whitespace passes the whitespace step unchanged. */
  lemma {:induction false} CollapseNoSpace(s: string)
    requires NoSpace(s)
    ensures CollapseSpaces(s) == s
  {
    if |s| > 0 {
      CollapseNoSpace(s[1..]);
      assert [s[0]] + s[1..] == s;
    }
  }

  /** A key passes the filter unchanged. */
  lemma {:induction false} KeepKey(s: string)
    requires IsKey(s)
    ensures KeepKeyChars(s) == s
  {
    if |s| > 0 {
      KeepKey(s[1..]);
      assert [s[0]] + s[1..] == s;
    }
  }

  /** A string is its own key exactly when it is made of key characters only. */
  lemma SanitizeFixedPoints(s: string)
    ensures SanitizeKey(s) == s <==> IsKey(s)
  {
    if IsKey(s) {
      assert NoSpace(s);
      assert Strip(s) == s;
      LowerOfNoUpper(s);
      CollapseNoSpace(s);
      KeepKey(s);
    }
  }

  /** Sanitising twice is sanitising once. */
  lemma SanitizeIdempotent(s: string)
    ensures SanitizeKey(SanitizeKey(s)) == SanitizeKey(s)
  {
    SanitizeFixedPoints(SanitizeKey(s));
  }

  lemma LowerCapitalize(s: string)
    ensures Lower(Capitalize(s)) == Lower(s)
  {
  }

  /**
   * The key derived from the capitalised login on restore is the key derived
   * from the login itself everywhere else.
   */
  lemma SanitizeCapitalized(login: string)
    ensures SanitizeKey(Capitalize(login)) == SanitizeKey(login)
  {
    var c := Capitalize(login);
    assert SameSpaces(login, c);
    StripPositions(login, c);
    StripLower(c);
    StripLower(login);
    LowerCapitalize(login);
    assert Strip(Lower(c)) == Strip(Lower(login));
  }

  /** The key under which a maintenance script files its logs: never empty. */
  function LogUserKey(login: string): (r: string)
    ensures r != ""
    ensures IsKey(r)
    ensures SanitizeKey(login) != "" ==> r == SanitizeKey(login)
    ensures SanitizeKey(login) == "" ==> r == "unknown_user"
  {
    var k := SanitizeKey(login);
    if k == "" then "unknown_user" else k
  }

  /**
   * Any whitespace around two words goes, and any whitespace run between
   * them becomes one underscore.
   */
  lemma SanitizeJoinsWords(before: string, first: string, gap: string, last: string, after: string)
    requires AllSpace(before) && AllSpace(gap) && AllSpace(after) && |gap| > 0
    requires |first| > 0 && |last| > 0 && IsKey(first) && IsKey(last)
    ensures SanitizeKey(before + first + gap + last + after) == first + "_" + last
  {
    var inner := first + gap + last;
    assert before + first + gap + last + after == before + inner + after;
    KeyNotSpace(first[0]);
    KeyNotSpace(last[|last| - 1]);
    assert inner[0] == first[0] && inner[|inner| - 1] == last[|last| - 1];
    StripPadded(before, inner, after);
    WordsNoUpper(first, gap, last);
    CollapseGap(first, gap, last);
    WordsKey(first, last);
    SanitizeSteps(before + inner + after, inner, first + "_" + last);
  }

  lemma KeyNotSpace(c: char)
    requires IsKeyChar(c)
    ensures !IsSpace(c)
  {
    assert c as int !in SpaceCodes;
  }

  lemma WordsNoUpper(first: string, gap: string, last: string)
    requires IsKey(first) && IsKey(last) && AllSpace(gap)
    ensures HasNoUpper(first + gap + last)
  {
    assert HasNoUpper(first) && HasNoUpper(last);
    assert HasNoUpper(gap) by {
      forall i | 0 <= i < |gap| ensures !IsAsciiUpper(gap[i]) {
        assert gap[i] as int in SpaceCodes;
      }
    }
    NoUpperConcat(first, gap);
    NoUpperConcat(first + gap, last);
  }

  lemma WordsKey(first: string, last: string)
    requires IsKey(first) && IsKey(last)
    ensures IsKey(first + "_" + last)
  {
    assert IsKey("_");
    KeyConcat(first, "_");
    KeyConcat(first + "_", last);
  }

  lemma SanitizeSteps(x: string, stripped: string, key: string)
    requires Strip(x) == stripped && HasNoUpper(stripped)
    requires CollapseSpaces(stripped) == key && IsKey(key)
    ensures SanitizeKey(x) == key
  {
    LowerOfNoUpper(stripped);
    KeepKey(key);
  }

  lemma KeyConcat(a: string, b: string)
    requires IsKey(a) && IsKey(b)
    ensures IsKey(a + b)
  {
  }

  lemma NoUpperConcat(a: string, b: string)
    requires HasNoUpper(a) && HasNoUpper(b)
    ensures HasNoUpper(a + b)
  {
  }

  lemma CollapseGap(first: string, gap: string, last: string)
    requires IsKey(first) && IsKey(last) && |last| > 0 && AllSpace(gap) && |gap| > 0
    ensures CollapseSpaces(first + gap + last) == first + "_" + last
  {
    assert first + gap + last == first + (gap + last);
    CollapseGapTail(gap, last);
    KeyPlain(first);
    CollapsePrefix(first, gap + last);
  }

  /** A whitespace run before a key becomes one underscore. */
  lemma CollapseGapTail(gap: string, last: string)
    requires IsKey(last) && |last| > 0 && AllSpace(gap) && |gap| > 0
    ensures CollapseSpaces(gap + last) == "_" + last
  {
    var tail := gap + last;
    KeyNotSpace(last[0]);
    LeadRun(gap, last);
    assert tail[|gap|..] == last;
    KeyPlain(last);
    CollapseNoSpace(last);
    assert IsSpace(tail[0]);
  }

  lemma {:induction false} CollapsePrefix(a: string, b: string)
    requires NoSpace(a)
    ensures CollapseSpaces(a + b) == a + CollapseSpaces(b)
  {
    if |a| > 0 {
      assert (a + b)[1..] == a[1..] + b;
      CollapsePrefix(a[1..], b);
    } else {
      assert a + b == b;
    }
  }

  /** Keeping key characters works piecewise over a concatenation. */
  lemma {:induction false} KeepConcat(a: string, b: string)
    ensures KeepKeyChars(a + b) == KeepKeyChars(a) + KeepKeyChars(b)
    decreases |a|
  {
    if |a| > 0 {
      assert (a + b)[1..] == a[1..] + b;
      KeepConcat(a[1..], b);
    } else {
      assert a + b == b;
    }
  }

  /**
   * A character outside `[a-z0-9_.-]` that is neither whitespace nor an
   * upper-case letter is removed, not replaced: `a/b` gives `ab`.
   */
  lemma SanitizeDropsDisallowed(a: string, c: char, b: string)
    requires |a| > 0 && |b| > 0 && IsKey(a) && IsKey(b)
    requires !IsKeyChar(c) && !IsSpace(c) && !IsAsciiUpper(c)
    ensures SanitizeKey(a + [c] + b) == a + b
  {
    var s := a + [c] + b;
    assert Strip(s) == s by {
      KeyNotSpace(a[0]);
      KeyNotSpace(b[|b| - 1]);
      assert s[0] == a[0] && s[|s| - 1] == b[|b| - 1];
    }
    assert NoSpace(s) && HasNoUpper(s) by {
      KeyPlain(a);
      KeyPlain(b);
      PlainConcat(a, [c]);
      PlainConcat(a + [c], b);
    }
    SanitizePlain(s);
    assert KeepKeyChars(s) == a + b by {
      KeepConcat(a + [c], b);
      KeepConcat(a, [c]);
      assert KeepKeyChars([c]) == KeepKeyChars([c][1..]);
      KeepKey(a);
      KeepKey(b);
    }
  }

  /** Text without whitespace or upper-case letters is only filtered. */
  lemma SanitizePlain(s: string)
    requires Strip(s) == s && NoSpace(s) && HasNoUpper(s)
    ensures SanitizeKey(s) == KeepKeyChars(s)
  {
    LowerOfNoUpper(s);
    CollapseNoSpace(s);
  }

  /** A key holds neither whitespace nor an upper-case letter. */
  lemma KeyPlain(s: string)
    requires IsKey(s)
    ensures NoSpace(s) && HasNoUpper(s)
  {
    forall i | 0 <= i < |s| ensures !IsSpace(s[i]) {
      KeyNotSpace(s[i]);
    }
  }

  lemma PlainConcat(a: string, b: string)
    requires NoSpace(a) && HasNoUpper(a) && NoSpace(b) && HasNoUpper(b)
    ensures NoSpace(a + b) && HasNoUpper(a + b)
  {
  }
}
