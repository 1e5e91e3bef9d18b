/**
 * The rows the program persists: one completed-task record per submitted
 * task, and one live-activity row per user with a task in progress, plus
 * the field normalisation both writers share.
 */
module Records {
  import opened Wrappers
  import opened Text
  import opened Clock

  /** The timer phase; persisted in the live-activity `State` column. */
  datatype Phase = Idle | Running | Paused | Ended

  /** `value or None` for a text field: the empty string is stored as null. */
  function NoneIfEmpty(s: string): (r: Option<string>)
    ensures r.None? <==> s == ""
    ensures r.GetOr("") == s
  {
    if s == "" then None else Some(s)
  }

  /** `bool(covering_for and covering_for.strip())`. */
  predicate IsCovering(coveringFor: string) {
    !IsBlank(coveringFor)
  }

  /** `notes.strip() if notes and notes.strip() else None`. */
  function CleanNotes(notes: string): (r: Option<string>)
    ensures r.None? <==> IsBlank(notes)
    ensures r.Some? ==> r.value != "" && Trimmed(r.value) && r.value == Strip(notes)
  {
    if IsBlank(notes) then None else Some(Strip(notes))
  }

  /** Normalising notes a second time changes nothing. */
  lemma CleanNotesIdempotent(notes: string)
    ensures CleanNotes(CleanNotes(notes).GetOr("")) == CleanNotes(notes)
  {
  }

  /** A completed task as written to the lake (the `PARQUET_SCHEMA` columns). */
  datatype TaskRecord = TaskRecord(
    taskId: string,
    userLogin: string,
    fullName: Option<string>,
    taskName: string,
    cadence: Option<string>,
    companyGroup: Option<string>,
    isCoveringFor: bool,
    coveringFor: Option<string>,
    notes: Option<string>,
    partiallyComplete: bool,
    start: Option<Instant>,
    end: Option<Instant>,
    durationSeconds: int,
    upload: Instant,
    appVersion: string)

  /** A parquet cell that may be a missing column, a null, or a value. */
  datatype Cell<T> = Absent | Null | Val(value: T)

  /** A live-activity row (the `LIVE_ACTIVITY_SCHEMA` columns); `state` is `None` when the column is missing. */
  datatype LiveRow = LiveRow(
    userKey: string,
    userLogin: string,
    fullName: Option<string>,
    taskName: string,
    cadence: string,
    companyGroup: Option<string>,
    isCoveringFor: bool,
    coveringFor: Option<string>,
    notes: Option<string>,
    start: Option<Instant>,
    state: Option<Phase>,
    pausedSeconds: Cell<int>,
    pauseStart: Option<Instant>)
}
