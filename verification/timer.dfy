/**
 * The task timer of the tracker page: the per-browser session state, the
 * button callbacks that move it between idle, running, paused and ended,
 * the elapsed-time rule, cadence auto-selection, the duration typed into
 * the submit dialog, the completed record, and the guard that publishes a
 * live activity once per start.  The clock is an explicit `now`.
 */
module Timer {
  import opened Wrappers
  import opened Text
  import opened Clock
  import opened Records

  /**
   * The session state: every `DEFAULT_STATE` entry, plus three entries the
   * program sets outside it (`submit_partially_complete`,
   * `current_user_key`, `uploaded`).
   */
  datatype Session = Session(
    phase: Phase,
    start: Option<Instant>,
    end: Option<Instant>,
    pauseStart: Option<Instant>,
    pausedSeconds: int,
    elapsedSeconds: int,
    notes: string,
    selectedCadence: Option<string>,
    lastTaskName: string,
    resetCounter: int,
    confirmOpen: bool,
    confirmRendered: bool,
    partiallyComplete: bool,
    coveringFor: string,
    liveSaved: bool,
    liveTaskName: string,
    liveCadence: string,
    liveAccount: string,
    stateRestored: bool,
    restoredTaskName: Option<string>,
    restoredAccount: Option<string>,
    restoredCoveringFor: Option<string>,
    submitPartiallyComplete: bool,
    currentUserKey: Option<string>,
    uploaded: bool)

  /** `DEFAULT_STATE`, with the three extra entries at their initial values. */
  const Defaults: Session := Session(
    Idle, None, None, None, 0, 0, "", None, "", 0, false, false, false, "",
    false, "", "", "", false, None, None, None, false, None, false)

  /** A Python truthy optional text: present and non-empty. */
  predicate Truthy(o: Option<string>) {
    o.Some? && o.value != ""
  }

  // ---------------------------------------------------------------------------
  // Elapsed time
  // ---------------------------------------------------------------------------

  /** An idle timer holds no trace of a task: no start, end or open pause, and nothing paused. */
  predicate IdleClean(s: Session) {
    s.phase == Idle ==> s.start.None? && s.end.None? && s.pauseStart.None? && s.pausedSeconds == 0
  }

  /** Ending always records an end time, so an ended timer has one. */
  predicate WellFormed(s: Session) {
    s.phase == Ended && s.start.Some? ==> s.end.Some?
  }

  /**
   * `compute_elapsed_seconds`: whole seconds from start to now (to the end
   * once ended), less the paused seconds and, while paused, the open pause;
   * never negative.
   */
  function ComputeElapsed(s: Session, now: Instant): (r: int)
    requires WellFormed(s)
    ensures r >= 0
    ensures s.start.None? ==> r == 0
    ensures s.start.Some? && s.phase == Ended ==>
      r == Clamp(WholeSeconds(s.end.value - s.start.value) - s.pausedSeconds)
    ensures s.start.Some? && (s.phase == Running || s.phase == Idle) ==>
      r == Clamp(WholeSeconds(now - s.start.value) - s.pausedSeconds)
    ensures s.start.Some? && s.phase == Paused ==>
      r == Clamp(WholeSeconds(now - s.start.value) - s.pausedSeconds
                 - (if s.pauseStart.Some? then WholeSeconds(now - s.pauseStart.value) else 0))
  {
    if s.start.None? then 0
    else
      var reference := if s.phase == Ended then s.end.value else now;
      var base := WholeSeconds(reference - s.start.value);
      var paused := s.pausedSeconds
        + if s.phase == Paused && s.pauseStart.Some? then WholeSeconds(now - s.pauseStart.value) else 0;
      Clamp(base - paused)
  }

  lemma WholeSecondsMonotone(a: int, b: int)
    requires a <= b
    ensures WholeSeconds(a) <= WholeSeconds(b)
  {
  }

  /** Truncating a longer span gains at most one second more than the span itself. */
  lemma WholeSecondsSpread(a: int, d: int)
    requires a >= 0 && d >= 0
    ensures WholeSeconds(d) <= WholeSeconds(a + d) - WholeSeconds(a) <= WholeSeconds(d) + 1
  {
    var m := MicrosPerSecond;
    assert WholeSeconds(a + d) == (a + d) / m && WholeSeconds(a) == a / m && WholeSeconds(d) == d / m;
    assert a == (a / m) * m + a % m;
    assert d == (d / m) * m + d % m;
    assert a + d == (a / m + d / m) * m + (a % m + d % m);
  }

  /** While running, the displayed time never goes backwards. */
  lemma RunningNeverDecreases(s: Session, t1: Instant, t2: Instant)
    requires WellFormed(s) && s.phase == Running && t1 <= t2
    ensures ComputeElapsed(s, t1) <= ComputeElapsed(s, t2)
  {
    if s.start.Some? {
      WholeSecondsMonotone(t1 - s.start.value, t2 - s.start.value);
    }
  }

  /** While paused, the displayed time stands still up to one second of truncation. */
  lemma PausedStandsStill(s: Session, t1: Instant, t2: Instant)
    requires WellFormed(s) && s.phase == Paused && s.start.Some? && s.pauseStart.Some?
    requires s.start.value <= s.pauseStart.value <= t1 <= t2
    ensures ComputeElapsed(s, t2) - 1 <= ComputeElapsed(s, t1) <= ComputeElapsed(s, t2) + 1
  {
    var st, ps := s.start.value, s.pauseStart.value;
    WholeSecondsSpread(t1 - st, t2 - t1);
    WholeSecondsSpread(t1 - ps, t2 - t1);
    assert t2 - st == (t1 - st) + (t2 - t1);
    assert t2 - ps == (t1 - ps) + (t2 - t1);
  }

  // ---------------------------------------------------------------------------
  // Button callbacks
  // ---------------------------------------------------------------------------

  /** `start_task`. */
  function StartTask(s: Session, now: Instant): (r: Session)
    ensures r.phase == Running && r.start == Some(now) && !r.liveSaved
    ensures r.pausedSeconds == s.pausedSeconds && r.pauseStart == s.pauseStart && r.end == s.end
  {
    s.(phase := Running, start := Some(now), liveSaved := false)
  }

  /** `pause_task`: the pause opens now; the paused total is not touched. */
  function PauseTask(s: Session, now: Instant): (r: Session)
    ensures r.phase == Paused && r.pauseStart == Some(now)
    ensures r.pausedSeconds == s.pausedSeconds && r.start == s.start && r.end == s.end && r.liveSaved == s.liveSaved
  {
    s.(phase := Paused, pauseStart := Some(now))
  }

  /** `resume_task`: folds the open pause into the total; with no open pause the callback raises. */
  function ResumeTask(s: Session, now: Instant): (r: Option<Session>)
    ensures r.None? <==> s.pauseStart.None?
    ensures r.Some? ==> (r.value.phase == Running && r.value.pauseStart.None?
      && r.value.pausedSeconds == s.pausedSeconds + WholeSeconds(now - s.pauseStart.value)
      && r.value.start == s.start && r.value.end == s.end && r.value.liveSaved == s.liveSaved)
  {
    match s.pauseStart
    case None => None
    case Some(p) =>
      Some(s.(pausedSeconds := s.pausedSeconds + WholeSeconds(now - p), pauseStart := None, phase := Running))
  }

  /** `end_task`: records the end time and nothing else; an open pause stays open. */
  function EndTask(s: Session, now: Instant): (r: Session)
    ensures r.phase == Ended && r.end == Some(now)
    ensures r.pausedSeconds == s.pausedSeconds && r.pauseStart == s.pauseStart && r.start == s.start
    ensures WellFormed(r)
  {
    s.(phase := Ended, end := Some(now))
  }

  /**
   * `reset_all`: every `DEFAULT_STATE` entry back to its default except
   * `state_restored`; the counter it increments is overwritten back to 0.
   * The three entries outside `DEFAULT_STATE` are kept.
   */
  function ResetAll(s: Session): (r: Session)
    ensures r.phase == Idle && IdleClean(r) && WellFormed(r)
    ensures r.resetCounter == 0 && !r.liveSaved && r.selectedCadence.None? && !r.confirmOpen
    ensures r.stateRestored == s.stateRestored && r.currentUserKey == s.currentUserKey
    ensures r.uploaded == s.uploaded && r.submitPartiallyComplete == s.submitPartiallyComplete
    ensures r == Defaults.(stateRestored := s.stateRestored, currentUserKey := s.currentUserKey,
                           uploaded := s.uploaded, submitPartiallyComplete := s.submitPartiallyComplete)
  {
    var bumped := s.(resetCounter := s.resetCounter + 1);
    Defaults.(stateRestored := bumped.stateRestored, submitPartiallyComplete := bumped.submitPartiallyComplete,
              currentUserKey := bumped.currentUserKey, uploaded := bumped.uploaded)
  }

  /** Nothing of the task being reset survives: two sessions that agree outside `DEFAULT_STATE` reset alike. */
  lemma ResetForgetsTask(s: Session, t: Session)
    requires s.stateRestored == t.stateRestored && s.currentUserKey == t.currentUserKey
    requires s.uploaded == t.uploaded && s.submitPartiallyComplete == t.submitPartiallyComplete
    ensures ResetAll(s) == ResetAll(t)
  {
  }

  /** Ending while paused leaves the open pause out of the paused total, so it counts as working time. */
  lemma EndWhilePausedCountsOpenPause(s: Session, now: Instant, later: Instant)
    requires WellFormed(s) && s.phase == Paused && s.start.Some? && s.pauseStart.Some?
    ensures ComputeElapsed(EndTask(s, now), later) == Clamp(WholeSeconds(now - s.start.value) - s.pausedSeconds)
    ensures ComputeElapsed(EndTask(s, now), later)
         == Clamp(ComputeElapsed(s, now) + WholeSeconds(now - s.pauseStart.value))
         || ComputeElapsed(s, now) == 0
  {
  }

  /** The buttons of the timer panel. */
  datatype Button = StartButton | PauseButton | ResumeButton | EndButton | UploadButton | ResetButton

  /** Which buttons the panel offers in each phase; Start also needs a task and a cadence. */
  predicate Enabled(s: Session, b: Button, taskName: string) {
    match b
    case StartButton => s.phase == Idle && taskName != "" && Truthy(s.selectedCadence)
    case PauseButton => s.phase == Running
    case ResumeButton => s.phase == Paused
    case EndButton => s.phase == Running || s.phase == Paused
    case UploadButton => s.phase == Ended
    case ResetButton => s.phase == Ended
  }

  /** The session after a button's callback; `None` when the callback raises. */
  function Press(s: Session, b: Button, now: Instant): (r: Option<Session>)
    ensures b != ResumeButton ==> r.Some?
  {
    match b
    case StartButton => Some(StartTask(s, now))
    case PauseButton => Some(PauseTask(s, now))
    case ResumeButton => ResumeTask(s, now)
    case EndButton => Some(EndTask(s, now))
    case UploadButton =>
      Some(s.(submitPartiallyComplete := s.partiallyComplete, confirmOpen := true, confirmRendered := false))
    case ResetButton => Some(ResetAll(s))
  }

  /** The phase changes the panel allows. */
  predicate AllowedMove(a: Phase, b: Phase) {
    (a == Idle && b == Running)
    || (a == Running && b == Paused)
    || (a == Paused && b == Running)
    || ((a == Running || a == Paused) && b == Ended)
    || (a == Ended && (b == Idle || b == Ended))
  }

  /** Every enabled button makes an allowed move and keeps the session well formed and a clean idle. */
  lemma PressMakesAllowedMove(s: Session, b: Button, taskName: string, now: Instant)
    requires WellFormed(s) && IdleClean(s) && Enabled(s, b, taskName) && Press(s, b, now).Some?
    ensures AllowedMove(s.phase, Press(s, b, now).value.phase)
    ensures WellFormed(Press(s, b, now).value) && IdleClean(Press(s, b, now).value)
  {
    match b
    case StartButton =>
    case PauseButton =>
    case ResumeButton =>
    case EndButton =>
    case UploadButton =>
    case ResetButton =>
  }

  /** The button that makes a given allowed move. */
  function ButtonFor(a: Phase, b: Phase): Button {
    match (a, b)
    case (Idle, _) => StartButton
    case (Running, Paused) => PauseButton
    case (Paused, Running) => ResumeButton
    case (Ended, Idle) => ResetButton
    case (Ended, _) => UploadButton
    case _ => EndButton
  }

  /** Conversely, every allowed move is made by some enabled button (a start needs a task and a cadence). */
  lemma AllowedMoveHasButton(s: Session, target: Phase, taskName: string, now: Instant)
    requires AllowedMove(s.phase, target)
    requires s.phase == Idle ==> taskName != "" && Truthy(s.selectedCadence)
    requires s.phase == Paused && target == Running ==> s.pauseStart.Some?
    ensures var b := ButtonFor(s.phase, target);
      Enabled(s, b, taskName) && Press(s, b, now).Some? && Press(s, b, now).value.phase == target
  {
  }

  // ---------------------------------------------------------------------------
  // Pauses over a run
  // ---------------------------------------------------------------------------

  /** Whole seconds of each (pause, resume) pair, summed. */
  function PauseTotal(pauses: seq<(Instant, Instant)>): int {
    if |pauses| == 0 then 0
    else WholeSeconds(pauses[0].1 - pauses[0].0) + PauseTotal(pauses[1..])
  }

  /** Pausing and resuming at each pair of instants in turn. */
  function PauseAndResume(s: Session, pauses: seq<(Instant, Instant)>): Option<Session>
    decreases |pauses|
  {
    if |pauses| == 0 then Some(s)
    else
      match ResumeTask(PauseTask(s, pauses[0].0), pauses[0].1)
      case None => None
      case Some(next) => PauseAndResume(next, pauses[1..])
  }

  /** After any number of completed pauses the paused total is the sum of their whole seconds. */
  lemma {:induction false} PausedTotalIsSumOfPauses(s: Session, pauses: seq<(Instant, Instant)>)
    requires s.phase == Running && s.pauseStart.None?
    ensures PauseAndResume(s, pauses).Some?
    ensures var r := PauseAndResume(s, pauses).value;
      r.phase == Running && r.start == s.start && r.pauseStart.None?
      && r.pausedSeconds == s.pausedSeconds + PauseTotal(pauses)
    decreases |pauses|
  {
    if |pauses| > 0 {
      var next := ResumeTask(PauseTask(s, pauses[0].0), pauses[0].1).value;
      PausedTotalIsSumOfPauses(next, pauses[1..]);
    }
  }

  /** A timer started at `t0` and paused in between shows the span less every pause. */
  lemma ElapsedAfterPauses(s: Session, t0: Instant, pauses: seq<(Instant, Instant)>, now: Instant)
    requires s.phase == Idle && IdleClean(s)
    ensures var r := PauseAndResume(StartTask(s, t0), pauses);
      r.Some? && WellFormed(r.value)
      && ComputeElapsed(r.value, now) == Clamp(WholeSeconds(now - t0) - PauseTotal(pauses))
  {
    PausedTotalIsSumOfPauses(StartTask(s, t0), pauses);
  }

  // ---------------------------------------------------------------------------
  // Cadence selection
  // ---------------------------------------------------------------------------

  /** A row of the task list: a task name and its cadence, which may be missing. */
  datatype TaskRow = TaskRow(name: string, cadence: Option<string>)

  /** The cadences of a task, each once, in order of first appearance, missing ones dropped. */
  function AvailableCadences(rows: seq<TaskRow>, taskName: string): (r: seq<string>)
    ensures forall i, j :: 0 <= i < j < |r| ==> r[i] != r[j]
    ensures forall c :: c in r <==> exists i :: 0 <= i < |rows| && rows[i].name == taskName && rows[i].cadence == Some(c)
  {
    if |rows| == 0 then []
    else
      var prefix := AvailableCadences(rows[..|rows| - 1], taskName);
      var last := rows[|rows| - 1];
      assert forall i :: 0 <= i < |rows| - 1 ==> rows[..|rows| - 1][i] == rows[i];
      if last.name == taskName && last.cadence.Some? && last.cadence.value !in prefix
      then prefix + [last.cadence.value]
      else prefix
  }

  /** The page's variant: no cadences at all until a task is chosen. */
  function PageAvailableCadences(rows: seq<TaskRow>, taskName: string): (r: seq<string>)
    ensures taskName == "" ==> r == []
    ensures taskName != "" ==> r == AvailableCadences(rows, taskName)
  {
    if taskName == "" then [] else AvailableCadences(rows, taskName)
  }

  const CadenceOrder: seq<string> := ["Daily", "Weekly", "Periodic"]

  /** The first of Daily, Weekly, Periodic the task offers. */
  function FirstAvailable(available: seq<string>): (r: Option<string>)
    ensures r.Some? ==> r.value in available && r.value in CadenceOrder
    ensures r.None? <==> forall c :: c in CadenceOrder ==> c !in available
    ensures r.Some? ==> forall i :: 0 <= i < |CadenceOrder| && CadenceOrder[i] == r.value ==>
      forall j :: 0 <= j < i ==> CadenceOrder[j] !in available
  {
    if "Daily" in available then Some("Daily")
    else if "Weekly" in available then Some("Weekly")
    else if "Periodic" in available then Some("Periodic")
    else None
  }

  /**
   * The auto-selection that runs while idle with a task chosen: a new task
   * clears the cadence, and a cadence the task does not offer is replaced
   * by the first one it does.
   */
  function AutoSelect(s: Session, taskName: string, available: seq<string>): (r: Session)
    ensures r == s.(selectedCadence := r.selectedCadence, lastTaskName := r.lastTaskName)
    ensures taskName == "" || s.phase != Idle ==> r == s
    ensures taskName != "" && s.phase == Idle ==>
      r.lastTaskName == taskName && (r.selectedCadence.None? || r.selectedCadence.value in available)
    ensures taskName != "" && s.phase == Idle && r.selectedCadence != s.selectedCadence ==>
      r.selectedCadence == FirstAvailable(available)
    ensures taskName == s.lastTaskName && s.selectedCadence.Some? && s.selectedCadence.value in available ==> r == s
  {
    if taskName != "" && s.phase == Idle then Refill(ClearOnNewTask(s, taskName), available) else s
  }

  /** A missing cadence, or one the task does not offer, is replaced by the first one it does. */
  function Refill(s: Session, available: seq<string>): (r: Session)
    ensures r == s.(selectedCadence := r.selectedCadence)
    ensures r.selectedCadence.None? || r.selectedCadence.value in available
    ensures r.selectedCadence != s.selectedCadence ==> r.selectedCadence == FirstAvailable(available)
    ensures s.selectedCadence.Some? && s.selectedCadence.value in available ==> r == s
  {
    if s.selectedCadence.None? || s.selectedCadence.value !in available
    then s.(selectedCadence := FirstAvailable(available))
    else s
  }

  /** A task other than the last one clears the cadence and becomes the last one. */
  function ClearOnNewTask(s: Session, taskName: string): (r: Session)
    ensures r == s.(selectedCadence := r.selectedCadence, lastTaskName := taskName)
    ensures taskName == s.lastTaskName ==> r == s
    ensures taskName != s.lastTaskName ==> r.selectedCadence.None?
  {
    if taskName != s.lastTaskName then s.(selectedCadence := None, lastTaskName := taskName) else s
  }

  /** Running the selection again on the next rerun changes nothing. */
  lemma AutoSelectIdempotent(s: Session, taskName: string, available: seq<string>)
    ensures AutoSelect(AutoSelect(s, taskName, available), taskName, available) == AutoSelect(s, taskName, available)
  {
  }

  // ---------------------------------------------------------------------------
  // Submission
  // ---------------------------------------------------------------------------

  /** The dialog's duration: the typed text when it parses to a non-negative value, else the elapsed time. */
  function SubmittedDuration(edited: string, elapsed: int): (r: int)
    ensures ParseHhmmss(edited) >= 0 ==> r == ParseHhmmss(edited)
    ensures ParseHhmmss(edited) < 0 ==> r == elapsed
    ensures elapsed >= 0 ==> r >= 0
  {
    var parsed := ParseHhmmss(edited);
    if parsed < 0 then elapsed else parsed
  }

  /** Submitting the duration the dialog prefilled records the elapsed time unchanged. */
  lemma SubmittedDurationUntouched(elapsed: int)
    requires elapsed >= 0
    ensures SubmittedDuration(FormatHhmmss(elapsed), elapsed) == elapsed
  {
    ParseFormatHhmmss(elapsed);
  }

  /** Any text that is not a duration, the cleared box among them, falls back to the elapsed time. */
  lemma SubmittedDurationFallsBack(edited: string, elapsed: int)
    requires ParseHhmmss(edited) < 0
    ensures SubmittedDuration(edited, elapsed) == elapsed
    ensures SubmittedDuration("", elapsed) == elapsed
  {
    ParseHhmmssRejects();
  }

  /** `build_task_record`; the id, the upload instant and the version string are supplied by the caller. */
  function BuildTaskRecord(
    taskId: string, login: string, fullName: string, taskName: string, cadence: Option<string>,
    account: string, coveringFor: string, notes: string, duration: int, partiallyComplete: bool,
    s: Session, now: Instant, appVersion: string): (r: TaskRecord)
    ensures r.taskId == taskId && r.userLogin == login && r.taskName == taskName && r.cadence == cadence
    ensures (r.fullName.None? <==> fullName == "") && (r.fullName.Some? ==> r.fullName.value == fullName)
    ensures (r.companyGroup.None? <==> account == "") && (r.companyGroup.Some? ==> r.companyGroup.value == account)
    ensures r.isCoveringFor <==> !IsBlank(coveringFor)
    ensures (r.coveringFor.None? <==> coveringFor == "") && (r.coveringFor.Some? ==> r.coveringFor.value == coveringFor)
    ensures r.notes.None? <==> IsBlank(notes)
    ensures r.notes.Some? ==> Trimmed(r.notes.value) && r.notes.value == Strip(notes)
    ensures r.start == s.start && r.end == s.end && r.durationSeconds == duration && r.upload == now
    ensures r.partiallyComplete == partiallyComplete && r.appVersion == appVersion
  {
    TaskRecord(taskId, login, NoneIfEmpty(fullName), taskName, cadence, NoneIfEmpty(account),
               IsCovering(coveringFor), NoneIfEmpty(coveringFor), CleanNotes(notes), partiallyComplete,
               s.start, s.end, duration, now, appVersion)
  }

  /** A blank covering name is not covering, yet it is stored as given. */
  lemma BlankCoveringKeptVerbatim(coveringFor: string, s: Session, now: Instant)
    requires coveringFor != "" && IsBlank(coveringFor)
    ensures var r := BuildTaskRecord("", "", "", "", None, "", coveringFor, "", 0, false, s, now, "");
      !r.isCoveringFor && r.coveringFor == Some(coveringFor)
  {
  }

  // ---------------------------------------------------------------------------
  // Publishing the live activity
  // ---------------------------------------------------------------------------

  /** The live activity is written when a started task has a name and a cadence and was not yet written. */
  predicate ShouldPublish(s: Session, taskName: string) {
    (s.phase == Running || s.phase == Paused) && !s.liveSaved && taskName != "" && Truthy(s.selectedCadence)
  }

  /** One rerun's publishing step; the flag says whether the live activity was written. */
  function Render(s: Session, taskName: string, account: string): (r: (Session, bool))
    ensures r.1 <==> ShouldPublish(s, taskName)
    ensures r.1 ==> (r.0.liveSaved && r.0.liveTaskName == taskName && r.0.liveAccount == account
      && r.0.liveCadence == s.selectedCadence.value && r.0.phase == s.phase)
    ensures !r.1 ==> r.0 == s
  {
    if ShouldPublish(s, taskName) then
      (s.(liveSaved := true, liveTaskName := taskName, liveCadence := s.selectedCadence.value,
          liveAccount := account), true)
    else (s, false)
  }

  /** What can happen between two writes of the live activity. */
  datatype Event = Click(button: Button, taskName: string, at: Instant) | Rerun(taskName: string, account: string)

  /** Applies the events in turn and counts how many reruns wrote the live activity. */
  function Publishes(s: Session, events: seq<Event>): nat
    decreases |events|
  {
    if |events| == 0 then 0
    else match events[0]
      case Click(b, task, at) =>
        var next := if Enabled(s, b, task) && Press(s, b, at).Some? then Press(s, b, at).value else s;
        Publishes(next, events[1..])
      case Rerun(task, account) =>
        var (next, wrote) := Render(s, task, account);
        (if wrote then 1 else 0) + Publishes(next, events[1..])
  }

  /** Nothing left to publish: already written, or no task in progress. */
  predicate Quiet(s: Session) {
    s.liveSaved || s.phase == Idle || s.phase == Ended
  }

  predicate NoStart(events: seq<Event>) {
    forall i :: 0 <= i < |events| ==> !(events[i].Click? && events[i].button == StartButton)
  }

  lemma {:induction false} QuietPublishesNothing(s: Session, events: seq<Event>)
    requires Quiet(s) && NoStart(events)
    ensures Publishes(s, events) == 0
    decreases |events|
  {
    if |events| > 0 {
      assert NoStart(events[1..]) by {
        forall i | 0 <= i < |events[1..]| ensures !(events[1..][i].Click? && events[1..][i].button == StartButton) {
          assert events[1..][i] == events[i + 1];
        }
      }
      match events[0]
      case Click(b, task, at) =>
        var next := if Enabled(s, b, task) && Press(s, b, at).Some? then Press(s, b, at).value else s;
        assert Quiet(next);
        QuietPublishesNothing(next, events[1..]);
      case Rerun(task, account) =>
        QuietPublishesNothing(Render(s, task, account).0, events[1..]);
    }
  }

  /** Between two starts the live activity is written at most once. */
  lemma {:induction false} PublishedAtMostOncePerStart(s: Session, events: seq<Event>)
    requires NoStart(events)
    ensures Publishes(s, events) <= 1
    decreases |events|
  {
    if |events| > 0 {
      assert NoStart(events[1..]) by {
        forall i | 0 <= i < |events[1..]| ensures !(events[1..][i].Click? && events[1..][i].button == StartButton) {
          assert events[1..][i] == events[i + 1];
        }
      }
      match events[0]
      case Click(b, task, at) =>
        var next := if Enabled(s, b, task) && Press(s, b, at).Some? then Press(s, b, at).value else s;
        PublishedAtMostOncePerStart(next, events[1..]);
      case Rerun(task, account) =>
        var (next, wrote) := Render(s, task, account);
        if wrote {
          QuietPublishesNothing(next, events[1..]);
        } else {
          PublishedAtMostOncePerStart(next, events[1..]);
        }
    }
  }

  // ---------------------------------------------------------------------------
  // Initialisation
  // ---------------------------------------------------------------------------

  /** The page's initialisation: every missing default is added, existing entries are kept. */
  function FillMissing<K, V>(state: map<K, V>, defaults: map<K, V>): (r: map<K, V>)
    ensures r.Keys == state.Keys + defaults.Keys
    ensures forall k :: k in state ==> r[k] == state[k]
    ensures forall k :: k in defaults && k !in state ==> r[k] == defaults[k]
  {
    defaults + state
  }

  /** Filling twice is filling once. */
  lemma FillMissingIdempotent<K, V>(state: map<K, V>, defaults: map<K, V>)
    ensures FillMissing(FillMissing(state, defaults), defaults) == FillMissing(state, defaults)
  {
  }

  /**
   * The app's initialisation: the first time (no `marker` entry yet) every
   * entry of `initial` is written over what is there; afterwards nothing.
   */
  function InitializeOnce<K, V>(state: map<K, V>, initial: map<K, V>, marker: K): (r: map<K, V>)
    ensures marker in state ==> r == state
    ensures marker !in state ==> (r.Keys == state.Keys + initial.Keys
      && (forall k :: k in initial ==> r[k] == initial[k])
      && (forall k :: k in state && k !in initial ==> r[k] == state[k]))
  {
    if marker in state then state else state + initial
  }

  /** Once the marker is among the initial entries, a second initialisation is a no-op. */
  lemma InitializeOnceIdempotent<K, V>(state: map<K, V>, initial: map<K, V>, marker: K)
    requires marker in initial
    ensures InitializeOnce(InitializeOnce(state, initial, marker), initial, marker)
         == InitializeOnce(state, initial, marker)
  {
  }
}
