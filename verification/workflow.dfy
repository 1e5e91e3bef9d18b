/**
 * The tracker page as a whole: a browser session together with the shared
 * live-activity store and the completed-task lake.  Button presses that
 * touch the stores, the once-per-session restore after a refresh, the
 * publishing rerun, and the submit dialog's write.
 */
module Workflow {
  import opened Wrappers
  import opened Text
  import opened Clock
  import opened Calendar
  import opened Keys
  import opened Files
  import opened Records
  import opened LiveStore
  import opened Completed
  import opened Timer

  datatype World = World(session: Session, live: LiveStore.Store, lake: Lake)

  // ---------------------------------------------------------------------------
  // Restoring after a refresh
  // ---------------------------------------------------------------------------

  /** The key the app restores under: the login capitalised, then sanitised. */
  function AppRestoreKey(login: string): (r: string)
    ensures IsKey(r)
    ensures r == SanitizeKey(login)
  {
    SanitizeCapitalized(login);
    SanitizeKey(Capitalize(login))
  }

  /**
   * The restore step: the first run of a session marks it restored and, if
   * the user has a live activity, takes the timer and the form over from it.
   */
  function Restore(s: Session, loaded: Option<OwnActivity>): (r: Session)
    ensures r.stateRestored
    ensures s.stateRestored ==> r == s
    ensures !s.stateRestored && loaded.None? ==> r == s.(stateRestored := true)
    ensures !s.stateRestored && loaded.Some? ==>
      var a := loaded.value;
      && r.phase == a.state && r.start == a.start && r.pausedSeconds == a.pausedSeconds
      && r.pauseStart == a.pauseStart && r.selectedCadence == Some(a.cadence) && r.liveSaved
      && r.notes == a.notes && r.coveringFor == a.coveringFor && r.lastTaskName == a.taskName
      && r.restoredTaskName == Some(a.taskName) && r.restoredAccount == Some(a.account)
      && r.restoredCoveringFor == Some(a.coveringFor)
      && r.end == s.end && r.resetCounter == s.resetCounter
  {
    if s.stateRestored then s
    else
      var marked := s.(stateRestored := true);
      match loaded
      case None => marked
      case Some(a) =>
        marked.(phase := a.state, start := a.start, pausedSeconds := a.pausedSeconds,
                pauseStart := a.pauseStart, selectedCadence := Some(a.cadence), notes := a.notes,
                coveringFor := a.coveringFor, liveSaved := true, lastTaskName := a.taskName,
                restoredTaskName := Some(a.taskName), restoredAccount := Some(a.account),
                restoredCoveringFor := Some(a.coveringFor))
  }

  /** A session restores at most once, whatever is loaded later. */
  lemma RestoreAtMostOnce(s: Session, first: Option<OwnActivity>, later: Option<OwnActivity>)
    ensures Restore(Restore(s, first), later) == Restore(s, first)
  {
  }

  // ---------------------------------------------------------------------------
  // Presses and reruns that touch the live store
  // ---------------------------------------------------------------------------

  /**
   * A button press with its store effect: pause and resume rewrite the
   * state columns of the user's live activity, end and reset delete it.
   * A resume that raises changes nothing.  `ioFails` makes the store call
   * fail; each of those calls swallows its error.
   */
  function PressWorld(w: World, b: Button, now: Instant, ioFails: bool): (r: World)
    ensures r.lake == w.lake
    ensures w.session.currentUserKey.None? || ioFails ==> r.live == w.live
    ensures b == StartButton || b == UploadButton ==> r.live == w.live
    ensures (b == EndButton || b == ResetButton) && w.session.currentUserKey.Some? && !ioFails ==>
      w.session.currentUserKey.value !in r.live
    ensures Press(w.session, b, now).None? ==> r == w
    ensures Press(w.session, b, now).Some? ==> r.session == Press(w.session, b, now).value
  {
    match Press(w.session, b, now)
    case None => w
    case Some(s) =>
      var live :=
        match w.session.currentUserKey
        case None => w.live
        case Some(k) =>
          match b
          case PauseButton => UpdateState(w.live, k, Paused, s.pausedSeconds, s.pauseStart, ioFails)
          case ResumeButton => UpdateState(w.live, k, Running, s.pausedSeconds, None, ioFails)
          case EndButton => Delete(w.live, k, ioFails)
          case ResetButton => Delete(w.live, k, ioFails)
          case _ => w.live;
      World(s, live, w.lake)
  }

  /** The user's live activity, when there is one, shows the timer's own state. */
  predicate Mirrors(w: World) {
    w.session.currentUserKey.Some? ==>
      var k := w.session.currentUserKey.value;
      var loaded := LoadOwn(w.live, k);
      loaded.Some? ==>
        loaded.value.state == w.session.phase && loaded.value.pausedSeconds == w.session.pausedSeconds
        && loaded.value.pauseStart == w.session.pauseStart
  }

  /**
   * Pausing and resuming keep the live activity in step with the timer,
   * as long as the store's write does not fail.
   */
  lemma PauseResumeKeepMirror(w: World, b: Button, taskName: string, now: Instant)
    requires Mirrors(w) && (b == PauseButton || b == ResumeButton) && Enabled(w.session, b, taskName)
    ensures Mirrors(PressWorld(w, b, now, false))
  {
    var r := PressWorld(w, b, now, false);
    if w.session.currentUserKey.Some? && Press(w.session, b, now).Some? {
      var k := w.session.currentUserKey.value;
      var s := Press(w.session, b, now).value;
      if b == PauseButton {
        UpdateLoadsNewState(w.live, k, Paused, s.pausedSeconds, s.pauseStart, false);
      } else {
        UpdateLoadsNewState(w.live, k, Running, s.pausedSeconds, None, false);
      }
    }
  }

  /**
   * The publishing rerun: when the guard allows, the user's live activity
   * is written from the session.  A failing write (`ioFails`) raises out of
   * the rerun before the session records the publish, so nothing changes.
   */
  function PublishWorld(w: World, login: string, fullName: string, taskName: string, account: string,
                        ioFails: bool): (r: World)
    ensures r.lake == w.lake
    ensures !ShouldPublish(w.session, taskName) || ioFails ==> r == w
    ensures ShouldPublish(w.session, taskName) && !ioFails ==>
      var k := SanitizeKey(login);
      && r.session == Render(w.session, taskName, account).0
      && k in r.live && r.live[k].Whole? && |r.live[k].value| == 1 && r.live[k].value[0].taskName == taskName
      && forall other :: other != k ==> (other in r.live <==> other in w.live)
  {
    var (s, wrote) := Render(w.session, taskName, account);
    if !wrote then w
    else
      var row := NewLiveRow(SanitizeKey(login), login, fullName, taskName, w.session.selectedCadence.value,
                            account, w.session.coveringFor, w.session.notes, w.session.start,
                            w.session.phase, w.session.pausedSeconds, w.session.pauseStart);
      var (live, raised) := Save(w.live, row, ioFails);
      if raised then w else World(s, live, w.lake)
  }

  /** Publishing under the session's own key leaves the live activity mirroring the timer. */
  lemma PublishMirrors(w: World, login: string, fullName: string, taskName: string, account: string)
    requires w.session.currentUserKey == Some(SanitizeKey(login))
    requires ShouldPublish(w.session, taskName)
    ensures Mirrors(PublishWorld(w, login, fullName, taskName, account, false))
  {
    var s := w.session;
    SaveThenLoadOwn(w.live, SanitizeKey(login), login, fullName, taskName, s.selectedCadence.value, account,
                    s.coveringFor, s.notes, s.start, s.phase, s.pausedSeconds, s.pauseStart);
  }

  /**
   * A refresh picks the running task up again: a fresh session restoring
   * under the app's key finds what the last publish wrote.
   */
  lemma RefreshResumesTimer(w: World, login: string, fullName: string, taskName: string, account: string,
                            next: Session)
    requires ShouldPublish(w.session, taskName) && !next.stateRestored
    ensures var published := PublishWorld(w, login, fullName, taskName, account, false);
      var r := Restore(next, LoadOwn(published.live, AppRestoreKey(login)));
      && r.phase == w.session.phase && r.start == w.session.start
      && r.pausedSeconds == w.session.pausedSeconds && r.pauseStart == w.session.pauseStart
      && r.selectedCadence == w.session.selectedCadence && r.liveSaved
      && r.restoredTaskName == Some(taskName)
  {
    var s := w.session;
    SaveThenLoadOwn(w.live, SanitizeKey(login), login, fullName, taskName, s.selectedCadence.value, account,
                    s.coveringFor, s.notes, s.start, s.phase, s.pausedSeconds, s.pauseStart);
  }

  // ---------------------------------------------------------------------------
  // Submitting
  // ---------------------------------------------------------------------------

  /** What the submit dialog is given besides the session. */
  datatype Form = Form(login: string, fullName: string, key: string, taskName: string, account: string,
                       edited: string)

  /** The record the dialog files. */
  function SubmittedRecord(s: Session, f: Form, taskId: string, now: Instant, appVersion: string): TaskRecord {
    BuildTaskRecord(taskId, f.login, f.fullName, f.taskName, s.selectedCadence, f.account, s.coveringFor,
                    s.notes, SubmittedDuration(f.edited, s.elapsedSeconds), s.submitPartiallyComplete,
                    s, now, appVersion)
  }

  /**
   * The page's Submit: write the one-row table to the task's partition,
   * then close the dialog, reset (deleting the live activity) and mark the
   * upload.  A failed write raises before any of that.  A failing deletion
   * (`deleteFails`) is swallowed and leaves the live activity in place.
   */
  function PageSubmit(w: World, root: Path, f: Form, taskId: string, now: Instant, east: EasternZone,
                      appVersion: string, fault: Fault, deleteFails: bool): (r: (World, bool))
    requires w.session.start.Some?
    ensures var path := SubmissionPath(root, f.key, w.session.start.value, east, taskId);
      && (r.1 <==> fault != NoFault)
      && (!r.1 ==> path in r.0.lake && r.0.lake[path] == Whole([SubmittedRecord(w.session, f, taskId, now, appVersion)]))
      && (r.1 ==> r.0.session == w.session && r.0.live == w.live)
      && (r.1 ==> (path in r.0.lake <==> path in w.lake) && (path in w.lake ==> r.0.lake[path] == w.lake[path]))
    ensures !r.1 ==> r.0.session.phase == Idle && r.0.session.uploaded && !r.0.session.confirmOpen
    ensures !r.1 && w.session.currentUserKey.Some? && !deleteFails ==> w.session.currentUserKey.value !in r.0.live
    ensures deleteFails || w.session.currentUserKey.None? ==> r.0.live == w.live
  {
    var s := w.session;
    var record := SubmittedRecord(s, f, taskId, now, appVersion);
    var path := SubmissionPath(root, f.key, s.start.value, east, taskId);
    var (lake, raised) := AtomicWrite(w.lake, path, [record], fault);
    if raised then (w.(lake := lake), true)
    else
      var (after, live) := AfterSubmit(s, w.live, deleteFails);
      (World(after, live, lake), false)
  }

  /** What follows a successful write: close the dialog, reset (deleting the live activity), mark the upload. */
  function AfterSubmit(s: Session, live: LiveStore.Store, deleteFails: bool): (r: (Session, LiveStore.Store))
    ensures r.0.phase == Idle && r.0.uploaded && !r.0.confirmOpen
    ensures s.currentUserKey.Some? && !deleteFails ==> s.currentUserKey.value !in r.1
    ensures deleteFails || s.currentUserKey.None? ==> r.1 == live
  {
    var closed := s.(confirmOpen := false, confirmRendered := false);
    var kept := if s.currentUserKey.Some? then Delete(live, s.currentUserKey.value, deleteFails) else live;
    (ResetAll(closed).(uploaded := true), kept)
  }

  /** A successful submit files a non-negative duration, the one shown unless the text was edited. */
  lemma SubmitFilesDuration(w: World, root: Path, f: Form, taskId: string, now: Instant, east: EasternZone,
                            appVersion: string)
    requires w.session.start.Some? && w.session.elapsedSeconds >= 0
    ensures var path := SubmissionPath(root, f.key, w.session.start.value, east, taskId);
      var r := PageSubmit(w, root, f, taskId, now, east, appVersion, NoFault, false);
      && !r.1 && r.0.lake[path].value[0].durationSeconds >= 0
      && (f.edited == FormatHhmmss(w.session.elapsedSeconds) ==>
            r.0.lake[path].value[0].durationSeconds == w.session.elapsedSeconds)
  {
    SubmittedDurationUntouched(w.session.elapsedSeconds);
  }

  /**
   * The app's Submit as written: it builds the record and the directory,
   * then calls an atomic-write helper that its module never imported, so
   * the call raises `NameError` before anything is written or reset.
   */
  function AppSubmit(w: World, root: Path, f: Form, taskId: string, now: Instant, east: EasternZone,
                     appVersion: string): (r: (World, bool))
    requires w.session.start.Some?
    ensures r.1
    ensures r.0 == w
  {
    var record := SubmittedRecord(w.session, f, taskId, now, appVersion);
    var outDir := BuildOutDir(root, f.key, w.session.start.value, east);
    (w, true)
  }

  /** Whatever the inputs, the app's Submit raises and leaves the lake, the store and the session untouched. */
  lemma AppSubmitNeverFiles(w: World, root: Path, f: Form, taskId: string, now: Instant, east: EasternZone,
                            appVersion: string)
    requires w.session.start.Some?
    ensures var r := AppSubmit(w, root, f, taskId, now, east, appVersion);
      r.1 && r.0.lake == w.lake && r.0.session == w.session && r.0.live == w.live
    ensures var path := SubmissionPath(root, f.key, w.session.start.value, east, taskId);
      !PageSubmit(w, root, f, taskId, now, east, appVersion, NoFault, false).1
      && path in PageSubmit(w, root, f, taskId, now, east, appVersion, NoFault, false).0.lake
  {
  }
}
