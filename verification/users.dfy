/**
 * Who the user is: the login-to-full-name table read from the Users sheet
 * (or from the startup output), the name shown for a login, and the rule
 * that admits a user to the analytics page.
 */
module Users {
  import opened Wrappers
  import opened Text

  /** One row of the Users table: the login and the full name, each possibly missing. */
  datatype UserRow = UserRow(user: Option<string>, fullName: Option<string>)

  /** The normalised login of a row: stripped and lower-cased; missing or blank logins give none. */
  function RowLogin(row: UserRow): (r: Option<string>)
    ensures r.Some? ==> r.value != "" && Trimmed(r.value) && HasNoUpper(r.value)
  {
    match row.user
    case None => None
    case Some(u) =>
      var n := Lower(Strip(u));
      StripLower(u);
      LowerNoUpper(Strip(u));
      if n == "" then None else Some(n)
  }

  lemma LowerNoUpper(s: string)
    ensures HasNoUpper(Lower(s))
  {
  }

  /**
   * The full name of a row, stripped.  A missing name reads as the text
   * `missing`: the Users-sheet reader gives the empty text, while the
   * startup-output reader converts the column with `astype(str)` first, so
   * a missing cell becomes whatever that conversion prints for it ("nan"
   * for a numeric hole, "None" for an object one).
   */
  function RowName(row: UserRow, missing: string): (r: string)
    ensures Trimmed(r)
    ensures row.fullName.None? ==> r == Strip(missing)
    ensures row.fullName.Some? ==> r == Strip(row.fullName.value)
  {
    match row.fullName
    case None => Strip(missing)
    case Some(n) => Strip(n)
  }

  /** Whether a row puts `login` in the table. */
  predicate Names(row: UserRow, login: string, missing: string) {
    RowLogin(row) == Some(login) && RowName(row, missing) != ""
  }

  /** Whether some row puts `login` in the table. */
  predicate NamedBy(rows: seq<UserRow>, login: string, missing: string) {
    exists i :: 0 <= i < |rows| && Names(rows[i], login, missing)
  }

  /**
   * `load_user_fullname_map`: normalised login to stripped full name, for
   * every row with a login and a non-blank name; a later row wins.
   */
  function FullNameMap(rows: seq<UserRow>, missing: string): (r: map<string, string>)
    ensures forall k :: k in r <==> NamedBy(rows, k, missing)
    ensures forall k :: k in r ==> k != "" && Trimmed(k) && HasNoUpper(k) && r[k] != "" && Trimmed(r[k])
  {
    if |rows| == 0 then map[]
    else
      var prefix := rows[..|rows| - 1];
      var before := FullNameMap(prefix, missing);
      var row := rows[|rows| - 1];
      NamesSplit(rows, missing);
      if RowLogin(row).Some? && RowName(row, missing) != "" then
        before[RowLogin(row).value := RowName(row, missing)]
      else before
  }

  /** A login is named by some row exactly when an earlier row or the last row names it. */
  lemma NamesSplit(rows: seq<UserRow>, missing: string)
    requires |rows| > 0
    ensures forall k :: NamedBy(rows, k, missing) <==>
      NamedBy(rows[..|rows| - 1], k, missing) || Names(rows[|rows| - 1], k, missing)
  {
    forall k ensures NamedBy(rows, k, missing) <==>
      NamedBy(rows[..|rows| - 1], k, missing) || Names(rows[|rows| - 1], k, missing)
    {
      NamesSplitAt(rows, missing, k);
    }
  }

  lemma NamesSplitAt(rows: seq<UserRow>, missing: string, k: string)
    requires |rows| > 0
    ensures NamedBy(rows, k, missing) <==>
      NamedBy(rows[..|rows| - 1], k, missing) || Names(rows[|rows| - 1], k, missing)
  {
    if NamedBy(rows, k, missing) {
      NamedByLastOrEarlier(rows, missing, k);
    }
    if NamedBy(rows[..|rows| - 1], k, missing) {
      NamedByEarlier(rows, missing, k);
    }
  }

  /** A row that names `k` is the last row or one of the earlier rows. */
  lemma NamedByLastOrEarlier(rows: seq<UserRow>, missing: string, k: string)
    requires |rows| > 0 && NamedBy(rows, k, missing)
    ensures NamedBy(rows[..|rows| - 1], k, missing) || Names(rows[|rows| - 1], k, missing)
  {
    var prefix := rows[..|rows| - 1];
    var i :| 0 <= i < |rows| && Names(rows[i], k, missing);
    if i < |rows| - 1 {
      assert prefix[i] == rows[i];
    }
  }

  /** An earlier row that names `k` still names it in the whole table. */
  lemma NamedByEarlier(rows: seq<UserRow>, missing: string, k: string)
    requires |rows| > 0 && NamedBy(rows[..|rows| - 1], k, missing)
    ensures NamedBy(rows, k, missing)
  {
    var prefix := rows[..|rows| - 1];
    var i :| 0 <= i < |prefix| && Names(prefix[i], k, missing);
    assert rows[i] == prefix[i];
  }

  /** The name stored for a login is the one on the last row that names it. */
  lemma {:induction false} FullNameMapLastWins(rows: seq<UserRow>, missing: string, k: string, i: int)
    requires 0 <= i < |rows| && Names(rows[i], k, missing)
    requires forall j :: i < j < |rows| ==> !Names(rows[j], k, missing)
    ensures k in FullNameMap(rows, missing)
    ensures FullNameMap(rows, missing)[k] == RowName(rows[i], missing)
    decreases |rows|
  {
    var prefix := rows[..|rows| - 1];
    var row := rows[|rows| - 1];
    var r := FullNameMap(rows, missing);
    var before := FullNameMap(prefix, missing);
    if i < |rows| - 1 {
      assert prefix[i] == rows[i];
      forall j | i < j < |prefix| ensures !Names(prefix[j], k, missing) {
        assert prefix[j] == rows[j];
      }
      FullNameMapLastWins(prefix, missing, k, i);
      assert !Names(row, k, missing);
      assert r[k] == before[k];
    } else {
      assert row == rows[i];
      assert r == before[k := RowName(row, missing)];
    }
  }

  /** `get_full_name_for_user`: the table's name for the normalised login, or the login as given. */
  function FullNameFor(mapping: map<string, string>, login: string): (r: string)
    ensures Lower(Strip(login)) in mapping ==> r == mapping[Lower(Strip(login))]
    ensures Lower(Strip(login)) !in mapping ==> r == login
  {
    var k := Lower(Strip(login));
    if k in mapping then mapping[k] else login
  }

  /** With the sheet reader a user is shown by name or by login, never by an empty text. */
  lemma ShownNameNonEmpty(rows: seq<UserRow>, login: string)
    requires login != ""
    ensures FullNameFor(FullNameMap(rows, ""), login) != ""
  {
  }

  /** The lookup ignores letter case and surrounding spaces in the login. */
  lemma FullNameIgnoresCase(mapping: map<string, string>, login: string)
    requires Lower(Strip(login)) in mapping
    ensures FullNameFor(mapping, Upper(login)) == FullNameFor(mapping, login)
  {
    StripUpper(login);
    LowerUpper(Strip(login));
  }

  lemma LowerUpper(s: string)
    ensures Lower(Upper(s)) == Lower(s)
  {
  }

  /**
   * A user whose name cell is missing: the sheet reader leaves them out
   * so the login is shown, while the startup-output reader stores the
   * converted text of the hole ("nan" or "None") and shows that instead.
   */
  lemma MissingNameShownAsText(login: string, missing: string)
    requires !IsBlank(login)
    requires !AllSpace(missing)
    ensures FullNameFor(FullNameMap([UserRow(Some(login), None)], missing), login) == Strip(missing)
    ensures FullNameFor(FullNameMap([UserRow(Some(login), None)], ""), login) == login
  {
    var row := UserRow(Some(login), None);
    StripLower(login);
    assert RowLogin(row) == Some(Lower(Strip(login)));
    assert RowName(row, missing) == Strip(missing);
  }

  /** Whether an entry of the allowed list matches the login or the full name, ignoring case. */
  predicate Admits(entry: string, login: string, fullName: string) {
    Lower(entry) == Lower(Strip(login)) || Lower(entry) == Lower(Strip(fullName))
  }

  /**
   * The analytics permission: everyone when no list is configured, else
   * those whose stripped lower-cased login or full name matches a
   * lower-cased entry of the list.
   */
  function CanViewAnalytics(login: string, fullName: string, allowed: seq<string>): (r: bool)
    ensures |allowed| == 0 ==> r
    ensures |allowed| > 0 ==> (r <==> exists i :: 0 <= i < |allowed| && Admits(allowed[i], login, fullName))
  {
    if |allowed| == 0 then true
    else
      var lowered := seq(|allowed|, i requires 0 <= i < |allowed| => Lower(allowed[i]));
      assert forall i :: 0 <= i < |allowed| ==> lowered[i] == Lower(allowed[i]);
      Lower(Strip(login)) in lowered || Lower(Strip(fullName)) in lowered
  }

  /** Listing a user's login in any letter case admits them. */
  lemma ListedLoginAdmitted(login: string, fullName: string, allowed: seq<string>)
    requires Upper(Strip(login)) in allowed
    ensures CanViewAnalytics(login, fullName, allowed)
  {
    var i :| 0 <= i < |allowed| && allowed[i] == Upper(Strip(login));
    LowerUpper(Strip(login));
    assert Lower(allowed[i]) == Lower(Strip(login));
  }
}
