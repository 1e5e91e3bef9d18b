/**
 * The daily startup job: it keeps exactly one accounts table in the
 * personnel directory, named after today's date.  If today's file is there
 * it does nothing; otherwise it deletes every parquet file it can and writes
 * today's table, read from the personnel sheet.
 */
module Startup {
  import opened Wrappers
  import opened Text
  import opened Calendar

  /** A sheet row: each cell as the text `str()` gives for it, or nothing for an empty cell. */
  datatype SheetRow = SheetRow(companyGroup: Option<string>, customerCode: Option<string>)

  /** A row of the daily table: both cells as stripped text. */
  datatype AccountRow = AccountRow(companyGroup: string, customerCode: string)

  /** What a directory entry holds: an accounts table this job wrote, or anything else. */
  datatype Content = AccountsTable(rows: seq<AccountRow>) | OtherFile

  /** The personnel directory: entry name to content. */
  type Dir = map<string, Content>

  /** Whether `glob("*.parquet")` lists the name. */
  predicate IsParquet(name: string) {
    EndsWith(name, ".parquet")
  }

  /** `get_todays_filename`: `accounts_YYYY-MM-DD.parquet`. */
  function TodaysFilename(today: CivilDate): (r: string)
    ensures |r| == 27
    ensures StartsWith(r, "accounts_") && IsParquet(r)
    ensures r[9..19] == IsoDate(today)
  {
    var r := "accounts_" + IsoDate(today) + ".parquet";
    assert r[..9] == "accounts_";
    assert r[9..19] == IsoDate(today);
    assert r[|r| - 8..] == ".parquet";
    r
  }

  /** Different days never share a file name. */
  lemma TodaysFilenameInjective(a: CivilDate, b: CivilDate)
    requires TodaysFilename(a) == TodaysFilename(b)
    ensures a == b
  {
    assert TodaysFilename(a)[9..19] == TodaysFilename(b)[9..19];
    IsoDateInjective(a, b);
  }

  // ---------------------------------------------------------------------------
  // Reading the sheet
  // ---------------------------------------------------------------------------

  /** A cell after `astype(str).str.strip()`: an empty cell reads as `nan`. */
  function CellText(c: Option<string>): (r: string)
    ensures Trimmed(r)
    ensures c.None? ==> r == "nan"
    ensures c.Some? ==> r == Strip(c.value)
  {
    match c
    case None => "nan"
    case Some(s) => Strip(s)
  }

  function Cleaned(row: SheetRow): (r: AccountRow) {
    AccountRow(CellText(row.companyGroup), CellText(row.customerCode))
  }

  /** Whether a cleaned row survives: at least one cell is not the text `nan`. */
  predicate Kept(row: AccountRow) {
    row.companyGroup != "nan" || row.customerCode != "nan"
  }

  /** Every sheet row cleaned, in sheet order. */
  function CleanedRows(sheet: seq<SheetRow>): (r: seq<AccountRow>)
    ensures |r| == |sheet|
    ensures forall i :: 0 <= i < |sheet| ==> r[i] == Cleaned(sheet[i])
  {
    if |sheet| == 0 then [] else [Cleaned(sheet[0])] + CleanedRows(sheet[1..])
  }

  /** `a` is `b` with some elements left out, the rest kept in order. */
  predicate Subsequence<T(==)>(a: seq<T>, b: seq<T>)
    decreases |b|
  {
    |a| == 0 || (|b| > 0 && if a[0] == b[0] then Subsequence(a[1..], b[1..]) else Subsequence(a, b[1..]))
  }

  /**
   * `load_accounts`: the cleaned rows, in sheet order, without those whose
   * two cells both read `nan`; a kept row appears as often as in the sheet.
   */
  function LoadAccounts(sheet: seq<SheetRow>): (r: seq<AccountRow>)
    ensures |r| <= |sheet|
    ensures forall row :: row in r <==> row in CleanedRows(sheet) && Kept(row)
    ensures forall row :: multiset(r)[row] == if Kept(row) then multiset(CleanedRows(sheet))[row] else 0
    ensures Subsequence(r, CleanedRows(sheet))
  {
    if |sheet| == 0 then []
    else
      var rest := LoadAccounts(sheet[1..]);
      var row := Cleaned(sheet[0]);
      var cleaned := CleanedRows(sheet);
      assert cleaned == [row] + CleanedRows(sheet[1..]);
      assert multiset(cleaned) == multiset{row} + multiset(CleanedRows(sheet[1..]));
      if Kept(row) then
        var r := [row] + rest;
        assert multiset(r) == multiset{row} + multiset(rest);
        assert r[1..] == rest && cleaned[1..] == CleanedRows(sheet[1..]);
        r
      else
        assert |rest| > 0 ==> rest[0] in rest && Kept(rest[0]) && rest[0] != cleaned[0];
        assert cleaned[1..] == CleanedRows(sheet[1..]);
        rest
  }

  /** A row with both cells empty is dropped, and so is one whose cells both say `nan`. */
  lemma EmptySheetRowDropped(sheet: seq<SheetRow>, i: nat)
    requires i < |sheet| && CellText(sheet[i].companyGroup) == "nan" && CellText(sheet[i].customerCode) == "nan"
    ensures |LoadAccounts(sheet)| < |sheet|
  {
    LoadAccountsDrops(sheet, i);
  }

  lemma {:induction false} LoadAccountsDrops(sheet: seq<SheetRow>, i: nat)
    requires i < |sheet| && !Kept(Cleaned(sheet[i]))
    ensures |LoadAccounts(sheet)| < |sheet|
    decreases i
  {
    if i > 0 {
      assert sheet[1..][i - 1] == sheet[i];
      LoadAccountsDrops(sheet[1..], i - 1);
    }
  }

  /** A row with one filled cell whose text is not `nan` is kept, cleaned. */
  lemma FilledRowKept(sheet: seq<SheetRow>, i: nat, code: string)
    requires i < |sheet| && sheet[i].customerCode == Some(code) && Strip(code) != "nan"
    ensures Cleaned(sheet[i]) in LoadAccounts(sheet)
  {
    assert Kept(Cleaned(sheet[i])) by {
      assert Cleaned(sheet[i]).customerCode == Strip(code);
    }
  }

  // ---------------------------------------------------------------------------
  // The rotation
  // ---------------------------------------------------------------------------

  /** `listing` enumerates the parquet entries of `dir`, each once. */
  ghost predicate IsParquetListing(listing: seq<string>, dir: Dir) {
    (forall i, j :: 0 <= i < j < |listing| ==> listing[i] != listing[j])
    && (forall n :: n in listing <==> n in dir && IsParquet(n))
  }

  /** Every entry that survives the deletions: non-parquet entries and those whose deletion fails. */
  function Survivors(dir: Dir, stuck: set<string>): (r: Dir)
    ensures forall n :: n in r <==> n in dir && (!IsParquet(n) || n in stuck)
    ensures forall n :: n in r ==> r[n] == dir[n]
  {
    map n | n in dir && (!IsParquet(n) || n in stuck) :: dir[n]
  }

  /**
   * The directory after a run: unchanged when today's file exists; else
   * every parquet entry whose deletion does not fail is gone, and today's
   * table is written from the sheet.  `sheet` is None when reading the
   * workbook raises (missing or locked, or without one of the two
   * columns); the run then stops after the deletions, with no table.
   */
  function Rotated(dir: Dir, today: CivilDate, stuck: set<string>, sheet: Option<seq<SheetRow>>): (r: Dir)
    ensures TodaysFilename(today) in dir ==> r == dir
    ensures TodaysFilename(today) !in dir ==>
      forall n :: n != TodaysFilename(today) ==>
        (n in r <==> n in dir && (!IsParquet(n) || n in stuck)) && (n in r ==> r[n] == dir[n])
    ensures TodaysFilename(today) !in dir ==>
      (TodaysFilename(today) in r <==> sheet.Some?)
      && (sheet.Some? ==> r[TodaysFilename(today)] == AccountsTable(LoadAccounts(sheet.value)))
  {
    var name := TodaysFilename(today);
    if name in dir then dir
    else if sheet.None? then Survivors(dir, stuck)
    else Survivors(dir, stuck)[name := AccountsTable(LoadAccounts(sheet.value))]
  }

  /**
   * `delete_all_parquet_files`: try to delete each listed entry; a deletion
   * that fails (the names in `stuck`) is logged and skipped.  `failed` is
   * what the log reports as not deleted.
   */
  method DeleteAllParquet(dir: Dir, listing: seq<string>, stuck: set<string>) returns (r: Dir, failed: seq<string>)
    requires IsParquetListing(listing, dir)
    ensures forall n :: n in r <==> n in dir && (!IsParquet(n) || n in stuck)
    ensures forall n :: n in r ==> r[n] == dir[n]
    ensures forall n :: n in failed <==> n in dir && IsParquet(n) && n in stuck
    ensures |failed| <= |listing|
  {
    r := dir;
    failed := [];
    var i := 0;
    while i < |listing|
      invariant 0 <= i <= |listing|
      invariant forall n :: n in r <==> n in dir && !(n in listing[..i] && n !in stuck)
      invariant forall n :: n in r ==> r[n] == dir[n]
      invariant forall n :: n in failed <==> n in listing[..i] && n in stuck
      invariant |failed| <= i
    {
      var name := listing[i];
      assert listing[..i + 1] == listing[..i] + [name];
      if name in stuck {
        failed := failed + [name];
      } else {
        r := r - {name};
      }
      i := i + 1;
    }
    assert listing[..i] == listing;
  }

  /**
   * `main`: nothing happens when today's file exists; otherwise the
   * parquet entries are deleted where possible and today's table is
   * written from the sheet.  `raised` reports that reading the workbook
   * raised after the deletions.
   */
  method RunStartup(dir: Dir, today: CivilDate, listing: seq<string>, stuck: set<string>,
                    sheet: Option<seq<SheetRow>>)
    returns (r: Dir, failed: seq<string>, raised: bool)
    requires IsParquetListing(listing, dir)
    ensures r == Rotated(dir, today, stuck, sheet)
    ensures raised <==> TodaysFilename(today) !in dir && sheet.None?
    ensures TodaysFilename(today) in dir ==> failed == []
    ensures TodaysFilename(today) !in dir ==> forall n :: n in failed <==> n in dir && IsParquet(n) && n in stuck
  {
    var name := TodaysFilename(today);
    if name in dir {
      return dir, [], false;
    }
    var kept;
    kept, failed := DeleteAllParquet(dir, listing, stuck);
    assert kept == Survivors(dir, stuck);
    if sheet.None? {
      return kept, failed, true;
    }
    r := kept[name := AccountsTable(LoadAccounts(sheet.value))];
    raised := false;
  }

  /**
   * After a run today's table is in the directory unless the workbook could
   * not be read, and it is the sheet's when the run wrote it.
   */
  lemma RotationWritesToday(dir: Dir, today: CivilDate, stuck: set<string>, sheet: Option<seq<SheetRow>>)
    ensures TodaysFilename(today) in Rotated(dir, today, stuck, sheet) <==>
      TodaysFilename(today) in dir || sheet.Some?
    ensures TodaysFilename(today) !in dir && sheet.Some? ==>
      Rotated(dir, today, stuck, sheet)[TodaysFilename(today)] == AccountsTable(LoadAccounts(sheet.value))
  {
    var name := TodaysFilename(today);
    assert IsParquet(name);
  }

  /**
   * An unreadable workbook still costs the old files: every parquet entry
   * whose deletion does not fail is gone, and no accounts table is left
   * unless a deletion failed.
   */
  lemma UnreadableSheetLeavesNoTable(dir: Dir, today: CivilDate, stuck: set<string>)
    requires TodaysFilename(today) !in dir
    ensures var r := Rotated(dir, today, stuck, None);
      forall n :: n in r && IsParquet(n) <==> n in dir && IsParquet(n) && n in stuck
  {
  }

  /** Once a run has left today's file, a second run on the same day changes nothing, whatever fails and whatever the sheet says. */
  lemma RotationIdempotent(dir: Dir, today: CivilDate, stuck: set<string>, sheet: Option<seq<SheetRow>>,
                           stuck2: set<string>, sheet2: Option<seq<SheetRow>>)
    ensures var once := Rotated(dir, today, stuck, sheet);
      TodaysFilename(today) in once ==> Rotated(once, today, stuck2, sheet2) == once
    ensures TodaysFilename(today) in dir || sheet.Some? ==> var once := Rotated(dir, today, stuck, sheet);
      Rotated(once, today, stuck2, sheet2) == once
  {
    RotationWritesToday(dir, today, stuck, sheet);
  }

  /** When no deletion fails and the sheet is read, today's file is the only parquet entry left. */
  lemma RotationLeavesOnlyToday(dir: Dir, today: CivilDate, stuck: set<string>, sheet: seq<SheetRow>)
    requires TodaysFilename(today) !in dir
    requires forall n :: n in dir && IsParquet(n) ==> n !in stuck
    ensures forall n :: n in Rotated(dir, today, stuck, Some(sheet)) && IsParquet(n) <==> n == TodaysFilename(today)
  {
  }

  /** Entries that are not parquet files are never touched. */
  lemma RotationKeepsOthers(dir: Dir, today: CivilDate, stuck: set<string>, sheet: Option<seq<SheetRow>>, n: string)
    requires !IsParquet(n)
    ensures var r := Rotated(dir, today, stuck, sheet);
      (n in r <==> n in dir) && (n in dir ==> r[n] == dir[n])
  {
    assert n != TodaysFilename(today);
  }

  /** Yesterday's file is gone after today's run unless deleting it failed. */
  lemma RotationDropsYesterday(dir: Dir, yesterday: CivilDate, today: CivilDate, stuck: set<string>,
                               sheet: Option<seq<SheetRow>>)
    requires yesterday != today && TodaysFilename(today) !in dir
    ensures TodaysFilename(yesterday) in Rotated(dir, today, stuck, sheet) <==>
      TodaysFilename(yesterday) in dir && TodaysFilename(yesterday) in stuck
  {
    if TodaysFilename(yesterday) == TodaysFilename(today) {
      TodaysFilenameInjective(yesterday, today);
    }
  }
}
