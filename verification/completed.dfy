/**
 * The completed-task lake: one parquet file per submitted task, under
 * `user=<key>/year=YYYY/month=MM/day=DD/`, the day being the Eastern date
 * the task started on.  The lake is a map from paths to stored tables; a
 * directory listing is passed in as a sequence of paths.
 */
module Completed {
  import opened Wrappers
  import opened Text
  import opened Clock
  import opened Calendar
  import opened Files
  import opened Records

  type Lake = map<Path, Stored<seq<TaskRecord>>>

  // ---------------------------------------------------------------------------
  // Partition paths
  // ---------------------------------------------------------------------------

  /**
   * `year=<y>/month=<mm>/day=<dd>`: the year in its shortest decimal form,
   * month and day in two digits.
   */
  function DayPart(d: CivilDate): (r: seq<string>)
    ensures |r| == 3
    ensures |r[0]| >= 6 && r[0][..5] == "year=" && AllDigits(r[0][5..])
      && DigitsValue(r[0][5..]) == d.year && (|r[0]| == 6 || r[0][5] != '0')
    ensures |r[1]| == 8 && r[1][..6] == "month=" && AllDigits(r[1][6..]) && DigitsValue(r[1][6..]) == d.month
    ensures |r[2]| == 6 && r[2][..4] == "day=" && AllDigits(r[2][4..]) && DigitsValue(r[2][4..]) == d.day
  {
    Pad2Width(d.month);
    Pad2Width(d.day);
    var y, m, dd := NatToString(d.year), Pad2(d.month), Pad2(d.day);
    var r := ["year=" + y, "month=" + m, "day=" + dd];
    assert r[0][..5] == "year=" && r[0][5..] == y;
    assert r[1][..6] == "month=" && r[1][6..] == m;
    assert r[2][..4] == "day=" && r[2][4..] == dd;
    r
  }

  /** Removing a known prefix recovers what followed it. */
  lemma PrefixCancel(p: string, a: string, b: string)
    requires p + a == p + b
    ensures a == b
  {
    assert a == (p + a)[|p|..];
    assert b == (p + b)[|p|..];
  }

  /** Distinct dates have distinct partitions. */
  lemma DayPartInjective(a: CivilDate, b: CivilDate)
    requires DayPart(a) == DayPart(b)
    ensures a == b
  {
    PrefixCancel("year=", NatToString(a.year), NatToString(b.year));
    NatToStringInjective(a.year, b.year);
    PrefixCancel("month=", Pad2(a.month), Pad2(b.month));
    PrefixCancel("day=", Pad2(a.day), Pad2(b.day));
  }

  /** `build_out_dir`: the directory a task started at `ts` is filed under. */
  function BuildOutDir(root: Path, key: string, ts: Instant, east: EasternZone): (r: Path)
    ensures |r| == |root| + 4 && r[..|root|] == root
    ensures r[|root|] == "user=" + key
    ensures r[|root| + 1..] == DayPart(east(ts).date)
  {
    root + ["user=" + key] + DayPart(east(ts).date)
  }

  /** Two instants share a directory exactly when they fall on the same Eastern date. */
  lemma SameDirIffSameDate(root: Path, key: string, a: Instant, b: Instant, east: EasternZone)
    ensures BuildOutDir(root, key, a, east) == BuildOutDir(root, key, b, east) <==> east(a).date == east(b).date
  {
    if BuildOutDir(root, key, a, east) == BuildOutDir(root, key, b, east) {
      var da, db := BuildOutDir(root, key, a, east), BuildOutDir(root, key, b, east);
      assert da[|root| + 1..] == db[|root| + 1..];
      DayPartInjective(east(a).date, east(b).date);
    }
  }

  /** Different users never share a directory. */
  lemma OutDirSeparatesUsers(root: Path, k1: string, k2: string, a: Instant, b: Instant, east: EasternZone)
    requires k1 != k2
    ensures BuildOutDir(root, k1, a, east) != BuildOutDir(root, k2, b, east)
  {
    var d1, d2 := BuildOutDir(root, k1, a, east), BuildOutDir(root, k2, b, east);
    if d1 == d2 {
      assert d1[|root|] == d2[|root|];
      PrefixCancel("user=", k1, k2);
    }
  }

  /** `task_<%Y%m%d_%H%M%S>_<first 8 characters of the id>.parquet`. */
  function CompletedFileName(start: CivilTime, taskId: string): (r: string)
    ensures StartsWith(r, "task_") && EndsWith(r, ".parquet") && |r| >= 29
    ensures r[5..13] == CompactDate(start.date) && r[13] == '_' && r[14..20] == CompactTime(start)
    ensures r[20] == '_' && r[21..|r| - 8] == (if |taskId| <= 8 then taskId else taskId[..8])
  {
    var id := if |taskId| <= 8 then taskId else taskId[..8];
    NameParts(CompactDate(start.date), CompactTime(start), id);
    "task_" + CompactDate(start.date) + "_" + CompactTime(start) + "_" + id + ".parquet"
  }

  /** Where each part of a completed-task file name sits. */
  lemma NameParts(date: string, time: string, id: string)
    requires |date| == 8 && |time| == 6
    ensures var r := "task_" + date + "_" + time + "_" + id + ".parquet";
      |r| == 29 + |id| && r[..5] == "task_" && r[5..13] == date && r[13] == '_' && r[14..20] == time
      && r[20] == '_' && r[21..|r| - 8] == id && r[|r| - 8..] == ".parquet"
  {
    var p := "task_" + date + "_" + time;
    var q := "_" + id + ".parquet";
    var r := p + q;
    assert "task_" + date + "_" + time + "_" + id + ".parquet" == r;
    assert r[..20] == p;
    assert p[5..13] == date;
    assert p[14..20] == time;
    assert r[5..13] == p[5..13];
    assert r[14..20] == p[14..20];
    assert r[20..] == q;
    assert q[1..|q| - 8] == id;
    assert r[21..|r| - 8] == q[1..|q| - 8];
  }

  /** Where a submission started at `start` lands. */
  function SubmissionPath(root: Path, key: string, start: Instant, east: EasternZone, taskId: string): (r: Path)
    ensures |r| == |root| + 5 && r[..|root| + 4] == BuildOutDir(root, key, start, east)
    ensures r[|root| + 4] != "" && EndsWith(r[|root| + 4], ".parquet")
  {
    BuildOutDir(root, key, start, east) + [CompletedFileName(east(start), taskId)]
  }

  // ---------------------------------------------------------------------------
  // Today's tasks
  // ---------------------------------------------------------------------------

  /**
   * The files `load_recent_tasks` scans: `*.parquet` directly under today's
   * partition of one user (a non-empty key) or of every `user=*` directory.
   */
  predicate InScope(p: Path, root: Path, userKey: string, today: CivilDate) {
    |p| == |root| + 5 && p[..|root|] == root
    && (if userKey != "" then p[|root|] == "user=" + userKey else StartsWith(p[|root|], "user="))
    && p[|root| + 1..|root| + 4] == DayPart(today)
    && EndsWith(p[|root| + 4], ".parquet")
  }

  /** A submission is in a user's view of today exactly when its Eastern start date is today. */
  lemma SubmissionInScopeIff(root: Path, key: string, start: Instant, east: EasternZone, taskId: string,
                             today: CivilDate)
    requires key != ""
    ensures InScope(SubmissionPath(root, key, start, east, taskId), root, key, today) <==> east(start).date == today
    ensures InScope(SubmissionPath(root, key, start, east, taskId), root, "", today) <==> east(start).date == today
  {
    var p := SubmissionPath(root, key, start, east, taskId);
    var dir := BuildOutDir(root, key, start, east);
    assert p[..|root|] == root;
    assert p[|root|] == "user=" + key;
    assert ("user=" + key)[..5] == "user=";
    assert p[|root| + 1..|root| + 4] == dir[|root| + 1..] == DayPart(east(start).date);
    if p[|root| + 1..|root| + 4] == DayPart(today) {
      DayPartInjective(east(start).date, today);
    }
  }

  /** `listing` enumerates the lake's files, each once. */
  ghost predicate IsListing(listing: seq<Path>, lake: Lake) {
    (forall i, j :: 0 <= i < j < |listing| ==> listing[i] != listing[j])
    && (forall p :: p in listing <==> p in lake)
  }

  /** The listed files in scope, in listing order. */
  function Select(listing: seq<Path>, root: Path, userKey: string, today: CivilDate): (r: seq<Path>)
    ensures forall p :: p in r <==> p in listing && InScope(p, root, userKey, today)
  {
    if |listing| == 0 then []
    else
      var rest := Select(listing[1..], root, userKey, today);
      assert forall p :: p in listing <==> p == listing[0] || p in listing[1..];
      if InScope(listing[0], root, userKey, today) then [listing[0]] + rest else rest
  }

  function AllWhole(lake: Lake, files: seq<Path>): (r: bool)
    requires forall p :: p in files ==> p in lake
    ensures r <==> forall p :: p in files ==> lake[p].Whole?
  {
    if |files| == 0 then true
    else
      assert forall p :: p in files <==> p == files[0] || p in files[1..];
      lake[files[0]].Whole? && AllWhole(lake, files[1..])
  }

  /** The rows of the given files, concatenated. */
  function RowsOf(lake: Lake, files: seq<Path>): (r: seq<TaskRecord>)
    requires forall p :: p in files ==> p in lake && lake[p].Whole?
    ensures forall p :: p in files ==> multiset(lake[p].value) <= multiset(r)
  {
    if |files| == 0 then []
    else
      var rest := RowsOf(lake, files[1..]);
      assert forall p :: p in files <==> p == files[0] || p in files[1..];
      lake[files[0]].value + rest
  }

  /** `a` sorts no later than `b` in a descending sort of start times with nulls last. */
  predicate AtLeast(a: Option<Instant>, b: Option<Instant>) {
    b.None? || (a.Some? && a.value >= b.value)
  }

  predicate Descending(s: seq<TaskRecord>) {
    forall i, j :: 0 <= i < j < |s| ==> AtLeast(s[i].start, s[j].start)
  }

  lemma DescendingCons(h: TaskRecord, t: seq<TaskRecord>)
    requires Descending(t)
    requires forall e :: e in t ==> AtLeast(h.start, e.start)
    ensures Descending([h] + t)
  {
    var s := [h] + t;
    forall i, j | 0 <= i < j < |s| ensures AtLeast(s[i].start, s[j].start) {
      if i == 0 {
        assert s[j] == t[j - 1];
      } else {
        assert s[i] == t[i - 1] && s[j] == t[j - 1];
      }
    }
  }

  function Insert(x: TaskRecord, s: seq<TaskRecord>): (r: seq<TaskRecord>)
    requires Descending(s)
    ensures Descending(r) && multiset(r) == multiset(s) + multiset{x}
  {
    if |s| == 0 then [x]
    else if AtLeast(x.start, s[0].start) then
      assert forall e :: e in s ==> AtLeast(x.start, e.start) by {
        forall e | e in s ensures AtLeast(x.start, e.start) {
          var j :| 0 <= j < |s| && s[j] == e;
          if j > 0 {
            assert AtLeast(s[0].start, s[j].start);
          }
        }
      }
      DescendingCons(x, s);
      [x] + s
    else
      assert s == [s[0]] + s[1..];
      var tail := Insert(x, s[1..]);
      assert forall e :: e in tail ==> AtLeast(s[0].start, e.start) by {
        forall e | e in tail ensures AtLeast(s[0].start, e.start) {
          assert e in multiset(tail);
          if e != x {
            assert e in multiset(s[1..]);
            var j :| 0 <= j < |s[1..]| && s[1..][j] == e;
            assert s[j + 1] == e;
          }
        }
      }
      DescendingCons(s[0], tail);
      [s[0]] + tail
  }

  /** `sort_values(ascending=False)`; the source's sort does not fix the order of ties, this one does. */
  function SortDescending(s: seq<TaskRecord>): (r: seq<TaskRecord>)
    ensures Descending(r) && multiset(r) == multiset(s)
  {
    if |s| == 0 then []
    else
      assert s == [s[0]] + s[1..];
      Insert(s[0], SortDescending(s[1..]))
  }

  /** How many rows `DataFrame.head(limit)` keeps of `n`; a negative limit drops that many from the end. */
  function HeadCount(n: nat, limit: int): (k: nat)
    ensures k <= n
    ensures limit >= 0 ==> k == if limit < n then limit else n
    ensures limit < 0 ==> k == if n + limit > 0 then n + limit else 0
  {
    if limit >= 0 then (if limit < n then limit else n)
    else if n + limit > 0 then n + limit else 0
  }

  /** A prefix of a descending sequence holds its largest elements. */
  lemma PrefixIsTop(sorted: seq<TaskRecord>, k: nat)
    requires Descending(sorted) && k <= |sorted|
    ensures forall x, y :: x in multiset(sorted) - multiset(sorted[..k]) && y in sorted[..k] ==>
      AtLeast(y.start, x.start)
  {
    assert sorted == sorted[..k] + sorted[k..];
    assert multiset(sorted) == multiset(sorted[..k]) + multiset(sorted[k..]);
    forall x, y | x in multiset(sorted) - multiset(sorted[..k]) && y in sorted[..k]
      ensures AtLeast(y.start, x.start)
    {
      assert x in multiset(sorted[k..]);
      var j :| 0 <= j < |sorted[k..]| && sorted[k..][j] == x;
      var i :| 0 <= i < k && sorted[i] == y;
      assert sorted[k + j] == x;
    }
  }

  /** `sort_values(..., ascending=False).head(limit)`: the `limit` latest-starting rows, latest first. */
  function TopRows(rows: seq<TaskRecord>, limit: int): (r: seq<TaskRecord>)
    ensures Descending(r)
    ensures multiset(r) <= multiset(rows)
    ensures |r| == HeadCount(|rows|, limit)
    ensures forall x, y :: x in multiset(rows) - multiset(r) && y in r ==> AtLeast(y.start, x.start)
  {
    var sorted := SortDescending(rows);
    var k := HeadCount(|sorted|, limit);
    var r := sorted[..k];
    assert Descending(r);
    assert multiset(r) <= multiset(rows) by {
      assert sorted == r + sorted[k..];
      assert multiset(sorted) == multiset(r) + multiset(sorted[k..]);
    }
    assert multiset(rows) - multiset(r) == multiset(sorted) - multiset(r);
    PrefixIsTop(sorted, k);
    r
  }

  /**
   * `load_recent_tasks`: today's tasks, latest start first, at most `limit`
   * of them; nothing when no file is in scope or any file in scope cannot
   * be read.
   */
  function LoadRecent(lake: Lake, listing: seq<Path>, root: Path, userKey: string, today: CivilDate, limit: int)
    : (r: seq<TaskRecord>)
    requires IsListing(listing, lake)
    ensures Descending(r)
    ensures limit >= 0 ==> |r| <= limit
    ensures var files := Select(listing, root, userKey, today);
      (exists p :: p in files && lake[p].Partial?) ==> r == []
    ensures var files := Select(listing, root, userKey, today);
      (forall p :: p in files ==> lake[p].Whole?) ==>
        var rows := RowsOf(lake, files);
        && multiset(r) <= multiset(rows)
        && |r| == HeadCount(|rows|, limit)
        && forall x, y :: x in multiset(rows) - multiset(r) && y in r ==> AtLeast(y.start, x.start)
  {
    var files := Select(listing, root, userKey, today);
    if |files| == 0 || !AllWhole(lake, files) then []
    else TopRows(RowsOf(lake, files), limit)
  }

  /** A task filed today is listed when today's files hold no more rows than the limit. */
  lemma SubmittedTaskListed(lake: Lake, listing: seq<Path>, root: Path, key: string, start: Instant,
                            east: EasternZone, rec: TaskRecord, limit: int)
    requires IsListing(listing, lake) && key != ""
    requires var p := SubmissionPath(root, key, start, east, rec.taskId);
      p in lake && lake[p] == Whole([rec])
    requires var files := Select(listing, root, key, east(start).date);
      (forall p :: p in files ==> lake[p].Whole?) && |RowsOf(lake, files)| <= limit
    ensures rec in LoadRecent(lake, listing, root, key, east(start).date, limit)
  {
    var today := east(start).date;
    var p := SubmissionPath(root, key, start, east, rec.taskId);
    SubmissionInScopeIff(root, key, start, east, rec.taskId, today);
    var files := Select(listing, root, key, today);
    assert p in files;
    var rows := RowsOf(lake, files);
    assert rec in multiset(rows) by {
      assert multiset(lake[p].value) <= multiset(rows);
      assert rec in multiset([rec]);
    }
    var r := LoadRecent(lake, listing, root, key, today, limit);
    assert |r| == |rows|;
    assert multiset(r) == multiset(rows) by {
      assert multiset(r) <= multiset(rows);
      assert |multiset(r)| == |multiset(rows)|;
      MultisetSubsetSameSize(multiset(r), multiset(rows));
    }
    assert rec in multiset(r);
  }

  lemma MultisetSubsetSameSize<T>(a: multiset<T>, b: multiset<T>)
    requires a <= b && |a| == |b|
    ensures a == b
  {
    var d := b - a;
    assert b == a + d;
  }
}
