/**
 * The live-activity store: one small table per user, named
 * `user=<key>.parquet`, holding the task that user currently has running
 * or paused.  The directory is a map from user key to stored table.
 */
module LiveStore {
  import opened Wrappers
  import opened Text
  import opened Clock
  import opened Files
  import opened Keys
  import opened Records

  type Store = map<string, Stored<seq<LiveRow>>>

  /** The file a user's live activity lives in. */
  function LiveFileName(key: string): (r: string)
    ensures StartsWith(r, "user=") && EndsWith(r, ".parquet")
  {
    var r := "user=" + key + ".parquet";
    assert r[..5] == "user=";
    assert r[|r| - 8..] == ".parquet";
    r
  }

  /** Distinct keys never share a file. */
  lemma LiveFileNameInjective(a: string, b: string)
    requires LiveFileName(a) == LiveFileName(b)
    ensures a == b
  {
    var s := LiveFileName(a);
    assert s[5..|s| - 8] == a;
    assert LiveFileName(b)[5..|s| - 8] == b;
  }

  /** The row `save_live_activity` writes. */
  function NewLiveRow(
    key: string, login: string, fullName: string, taskName: string, cadence: string,
    account: string, coveringFor: string, notes: string, start: Option<Instant>,
    state: Phase, pausedSeconds: int, pauseStart: Option<Instant>): (r: LiveRow)
    ensures r.userKey == key && r.userLogin == login
    ensures r.isCoveringFor <==> !IsBlank(coveringFor)
    ensures r.coveringFor.GetOr("") == coveringFor
    ensures r.notes.None? <==> IsBlank(notes)
    ensures r.notes.Some? ==> r.notes.value == Strip(notes)
    ensures r.state == Some(state) && r.pausedSeconds == Val(pausedSeconds) && r.pauseStart == pauseStart
  {
    LiveRow(key, login, NoneIfEmpty(fullName), taskName, cadence, NoneIfEmpty(account),
            IsCovering(coveringFor), NoneIfEmpty(coveringFor), CleanNotes(notes),
            start, Some(state), Val(pausedSeconds), pauseStart)
  }

  /**
   * `save_live_activity`: replace the user's file with a one-row table.
   * When the atomic write fails (`fails`) the call raises, which the second
   * component reports, and the file is as it was; a temporary file the
   * write leaves behind is not a `user=*.parquet` entry.
   */
  function Save(store: Store, row: LiveRow, fails: bool): (r: (Store, bool))
    ensures r.1 <==> fails
    ensures !fails ==> row.userKey in r.0 && r.0[row.userKey] == Whole([row])
    ensures fails ==> r.0 == store
    ensures forall k :: k != row.userKey ==> (k in r.0 <==> k in store) && (k in store ==> r.0[k] == store[k])
  {
    if fails then (store, true) else (store[row.userKey := Whole([row])], false)
  }

  /**
   * `update_live_activity_state`: overwrite the three state columns on
   * every row.  A missing, unreadable or empty file is left alone, and so
   * is the file when the write fails (`fails`): that error is swallowed.
   */
  function UpdateState(store: Store, key: string, state: Phase, pausedSeconds: int, pauseStart: Option<Instant>,
                       fails: bool): (r: Store)
    ensures fails || key !in store || store[key].Partial? || |store[key].value| == 0 ==> r == store
    ensures forall k :: k != key ==> (k in r <==> k in store) && (k in store ==> r[k] == store[k])
    ensures !fails && key in store && store[key].Whole? && |store[key].value| > 0 ==>
      key in r && r[key].Whole? && |r[key].value| == |store[key].value|
      && forall i :: 0 <= i < |r[key].value| ==>
           r[key].value[i] == store[key].value[i].(state := Some(state), pausedSeconds := Val(pausedSeconds),
                                                   pauseStart := pauseStart)
  {
    if fails || key !in store then store
    else match store[key]
      case Partial => store
      case Whole(rows) =>
        if |rows| == 0 then store
        else
          var updated := seq(|rows|, i requires 0 <= i < |rows| =>
            rows[i].(state := Some(state), pausedSeconds := Val(pausedSeconds), pauseStart := pauseStart));
          store[key := Whole(updated)]
  }

  /**
   * `delete_live_activity`: remove the file if it is there.  A failing
   * unlink (`fails`) is swallowed and leaves the file in place.
   */
  function Delete(store: Store, key: string, fails: bool): (r: Store)
    ensures !fails ==> key !in r
    ensures fails ==> r == store
    ensures forall k :: k != key ==> (k in r <==> k in store) && (k in store ==> r[k] == store[k])
  {
    if fails then store else store - {key}
  }

  /** What `load_own_live_activity` hands back to the restore step. */
  datatype OwnActivity = OwnActivity(
    fullName: string,
    taskName: string,
    cadence: string,
    account: string,
    coveringFor: string,
    notes: string,
    start: Option<Instant>,
    state: Phase,
    pausedSeconds: int,
    pauseStart: Option<Instant>)

  /** The first row of the user's file, with nulls read back as empty text. */
  function LoadOwn(store: Store, key: string): (r: Option<OwnActivity>)
    ensures key !in store || store[key].Partial? || |store[key].value| == 0 ==> r.None?
    ensures r.Some? ==> store[key].value[0].pausedSeconds != Null
  {
    if key !in store then None
    else match store[key]
      case Partial => None
      case Whole(rows) =>
        if |rows| == 0 then None
        else
          var row := rows[0];
          match row.pausedSeconds
          case Null => None
          case _ =>
            Some(OwnActivity(
              row.fullName.GetOr(""), row.taskName, row.cadence, row.companyGroup.GetOr(""),
              row.coveringFor.GetOr(""), row.notes.GetOr(""), row.start,
              row.state.GetOr(Running),
              match row.pausedSeconds case Val(n) => n case _ => 0,
              row.pauseStart))
  }

  /** A missing `PausedSeconds` column reads back as zero and a missing `State` as running. */
  lemma LoadOwnDefaults(store: Store, key: string, row: LiveRow)
    requires key in store && store[key] == Whole([row.(pausedSeconds := Absent, state := None)])
    ensures LoadOwn(store, key).Some?
    ensures LoadOwn(store, key).value.pausedSeconds == 0
    ensures LoadOwn(store, key).value.state == Running
  {
  }

  /** Saving then loading the same key gives back what was saved; only notes come back stripped. */
  lemma SaveThenLoadOwn(
    store: Store, key: string, login: string, fullName: string, taskName: string, cadence: string,
    account: string, coveringFor: string, notes: string, start: Option<Instant>,
    state: Phase, pausedSeconds: int, pauseStart: Option<Instant>)
    ensures var row := NewLiveRow(key, login, fullName, taskName, cadence, account, coveringFor, notes,
                                  start, state, pausedSeconds, pauseStart);
      LoadOwn(Save(store, row, false).0, key)
      == Some(OwnActivity(fullName, taskName, cadence, account, coveringFor,
                          if IsBlank(notes) then "" else Strip(notes),
                          start, state, pausedSeconds, pauseStart))
  {
  }

  /** After a state update the loaded activity carries the new state and nothing else changed. */
  lemma UpdateThenLoadOwn(store: Store, key: string, state: Phase, pausedSeconds: int, pauseStart: Option<Instant>)
    requires LoadOwn(store, key).Some?
    ensures var before := LoadOwn(store, key).value;
      LoadOwn(UpdateState(store, key, state, pausedSeconds, pauseStart, false), key)
      == Some(before.(state := state, pausedSeconds := pausedSeconds, pauseStart := pauseStart))
  {
  }

  /**
   * Whatever the file held before, a readable activity after an update that
   * did not fail carries the update's state; after a failed one the loaded
   * activity is the one from before.
   */
  lemma UpdateLoadsNewState(store: Store, key: string, state: Phase, pausedSeconds: int, pauseStart: Option<Instant>,
                            fails: bool)
    ensures var r := LoadOwn(UpdateState(store, key, state, pausedSeconds, pauseStart, fails), key);
      && (!fails && r.Some? ==>
            r.value.state == state && r.value.pausedSeconds == pausedSeconds && r.value.pauseStart == pauseStart)
      && (fails ==> r == LoadOwn(store, key))
  {
  }

  // ---------------------------------------------------------------------------
  // The team view
  // ---------------------------------------------------------------------------

  /** `listing` enumerates the keys of `store`, each once, in the directory's order. */
  ghost predicate IsListing(listing: seq<string>, store: Store) {
    (forall i, j :: 0 <= i < j < |listing| ==> listing[i] != listing[j])
    && (forall k :: k in listing <==> k in store)
  }

  ghost predicate AllWhole(store: Store) {
    forall k :: k in store ==> store[k].Whole?
  }

  /** Whether every listed file reads back as a whole table. */
  function ListedWhole(store: Store, listing: seq<string>): (r: bool)
    requires forall k :: k in listing ==> k in store
    ensures r <==> forall k :: k in listing ==> store[k].Whole?
  {
    if |listing| == 0 then true
    else
      assert forall k :: k in listing <==> k == listing[0] || k in listing[1..];
      store[listing[0]].Whole? && ListedWhole(store, listing[1..])
  }

  /** The rows of the listed files, concatenated in listing order. */
  function RowsOf(store: Store, listing: seq<string>): (r: seq<LiveRow>)
    requires forall k :: k in listing ==> k in store && store[k].Whole?
    ensures forall row :: row in r <==> exists k :: k in listing && row in store[k].value
  {
    if |listing| == 0 then []
    else
      var rest := RowsOf(store, listing[1..]);
      assert forall k :: k in listing <==> k == listing[0] || k in listing[1..];
      store[listing[0]].value + rest
  }

  /** Whether a row belongs to someone other than `exclude`; a blank or absent exclusion keeps every row. */
  predicate KeptBy(exclude: Option<string>, column: string) {
    exclude.None? || exclude.value == "" || column != exclude.value
  }

  function Filter(rows: seq<LiveRow>, exclude: Option<string>, byLogin: bool): (r: seq<LiveRow>)
    ensures forall row :: row in r <==> row in rows && KeptBy(exclude, if byLogin then row.userLogin else row.userKey)
  {
    if |rows| == 0 then []
    else
      var rest := Filter(rows[1..], exclude, byLogin);
      var row := rows[0];
      assert forall x :: x in rows <==> x == row || x in rows[1..];
      if KeptBy(exclude, if byLogin then row.userLogin else row.userKey) then [row] + rest else rest
  }

  /**
   * `load_live_activities`: every user's row except those of the excluded
   * user; any unreadable file empties the whole view.  `byLogin` selects the
   * variant that compares the exclusion against `UserLogin` instead of
   * `UserKey`.
   */
  function ListActivities(store: Store, listing: seq<string>, exclude: Option<string>, byLogin: bool)
    : (r: seq<LiveRow>)
    requires IsListing(listing, store)
    ensures !AllWhole(store) ==> r == []
    ensures AllWhole(store) ==> forall row :: row in r <==>
      (exists k :: k in store && row in store[k].value)
      && KeptBy(exclude, if byLogin then row.userLogin else row.userKey)
  {
    if |listing| == 0 then []
    else if !ListedWhole(store, listing) then []
    else Filter(RowsOf(store, listing), exclude, byLogin)
  }

  /** The view by user key: exactly the stored rows whose key is not the excluded one. */
  lemma ListByKeyExcludesOwn(store: Store, listing: seq<string>, key: string)
    requires IsListing(listing, store) && AllWhole(store) && key != ""
    ensures forall row :: row in ListActivities(store, listing, Some(key), false) ==> row.userKey != key
    ensures forall k, row :: k in store && row in store[k].value && row.userKey != key ==>
      row in ListActivities(store, listing, Some(key), false)
  {
  }

  /**
   * The variant that compares the exclusion with `UserLogin` while being
   * handed the sanitised key keeps the user's own row whenever the login is
   * not already a key, e.g. any login with an upper-case letter.
   */
  lemma ListByLoginKeepsOwnRow(store: Store, listing: seq<string>, row: LiveRow)
    requires IsListing(listing, store) && AllWhole(store)
    requires row.userKey in store && row in store[row.userKey].value
    requires row.userKey == SanitizeKey(row.userLogin) && !IsKey(row.userLogin)
    ensures row in ListActivities(store, listing, Some(row.userKey), true)
  {
    SanitizeFixedPoints(row.userLogin);
  }

  /** Comparing with `UserKey` instead hides the user's own row, whatever the login looks like. */
  lemma ListByKeyHidesOwnRow(store: Store, listing: seq<string>, row: LiveRow)
    requires IsListing(listing, store)
    requires row.userKey == SanitizeKey(row.userLogin) && row.userKey != ""
    ensures row !in ListActivities(store, listing, Some(row.userKey), false)
  {
  }
}
