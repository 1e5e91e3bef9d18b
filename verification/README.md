# Task tracker core, modelled in Dafny

The program is an internal time-tracking web app. A user picks a task and
a cadence, then starts, pauses, resumes and ends a timer. While the task
runs, a "live activity" row is published so the team can see it. On submit,
one completed-task record is filed into a lake partitioned by user and
Eastern date. The same repository has three other parts:

- a packaging estimator, which takes pasted or uploaded item numbers and
  quantities and cleans them before any lookup;
- a FedEx address-validator page, which renders tracking numbers that a
  spreadsheet turned into scientific notation and lets rows be marked as
  disputed;
- a daily startup job, which keeps exactly one accounts table, plus a
  script that audits the lake's schemas.

This project models the decision logic of those parts. Each part is a
Dafny module of functions, and a few methods that use no heap, over
immutable data:

- `Clock`, `Calendar`, `Keys`: durations and their text forms, dates, and
  the sanitised user key.
- `Files`: file names, suffixes and the write-then-rename protocol.
- `Records`, `LiveStore`, `Completed`: the persisted rows, the
  live-activity store (a map from user key to table) and the
  completed-task lake (a map from path to table).
- `Timer`, `Workflow`: the timer state machine of one browser session,
  and that session together with the two stores.
- `Users`: the login-to-name table and the analytics permission.
- `Decimals`, `Packaging`: Python's `Decimal` reading and fixed-point
  printing, as far as the estimator and the FedEx page use them, and the
  estimator's input pipeline.
- `Fedex`, `Startup`, `LakeAudit`: the validator page's helpers, the
  startup rotation and the lake audit.
- `Wrappers`, `Text`: `Option`/`Result` and string helpers.

The clock, the time-zone database, directory listings and failures are
parameters. Nothing reads them.

## Model

| member | source | states |
|---|---|---|
| Clock.WholeSeconds | utils.py:180 | `int(total_seconds())` of a microsecond span truncates toward zero, on both sides of zero |
| Clock.FormatHhMmParts | utils.py:154-157 | hours have at least two digits and minutes two digits below 60; together with the leftover seconds they add back to the clamped duration |
| Clock.FormatHhmm | utils.py:144-147 | `HH:MM` is the same hour and minute fields as the parts helper, joined by a colon |
| Clock.FormatHhmmss | utils.py:149-152 | `HH:MM:SS` is those fields plus the two-digit leftover seconds |
| Clock.ParseThreeFields | utils.py:162-165 | three digit fields read as h*3600+m*60+s |
| Clock.ParseTwoFields | utils.py:166-168 | two digit fields read as hours and minutes |
| Clock.ParseFormatHhmmss | utils.py:149-171 | parsing the `HH:MM:SS` text gives back the clamped duration (round trip) |
| Clock.ParseFormatHhmm | utils.py:144-171 | parsing the `HH:MM` text gives back the clamped duration rounded down to whole minutes |
| Clock.ParseFields | utils.py:162-171 | anything but two or three fields reads as -1, and so does any field list with a field `int()` rejects |
| Clock.ParseHhmmssShape | utils.py:159-171 | a text that is not, once stripped, two or three colon-separated fields each accepted by `int()` reads as -1 |
| Clock.ParseHhmmssNoColon | utils.py:159-171 | text that holds no colon once stripped is one field, neither two nor three, and reads as -1 |
| Clock.ParseHhmmssRejects | utils.py:159-171 | empty text and text that is not a number read as -1 |
| Clock.ParseHhmmssTooManyFields | utils.py:162-171 | four numeric fields read as -1 |
| Clock.ParseHhmmssMinutesOverflow | utils.py:166-168 | fields are not range-checked: `00:90` is 5400 seconds |
| Clock.ParseHhmmssStrips | utils.py:161 | any whitespace runs before and after a trimmed text leave its parse unchanged |
| Clock.AgoCount | task_tracker_utils.py:123-134 | the chosen unit is the coarsest that fits, the count is the whole number of units, and the unit is minutes below an hour and days from a day on |
| Clock.FormatTimeAgo | task_tracker_utils.py:115-134 | no instant gives the empty label; below 60 s the label is "less than a minute ago"; otherwise it is the whole count of the coarsest fitting unit followed by " min ago", " hr ago", " day ago" (exactly one day) or " days ago" |
| Clock.AgoCountMonotone | task_tracker_utils.py:123-134 | from a minute on, an older instant never gets a finer unit, nor a smaller count in the same unit |
| Calendar.IsoDate | startup.py:80 | `YYYY-MM-DD`, whose three fields read back as the date's year, month and day |
| Calendar.IsoDateInjective | startup.py:78-80 | equal ISO texts mean equal dates |
| Calendar.CompactDate | pages/task-tracker.py:266 | `%Y%m%d` is eight digits whose first four read back as the year, the next two as the month and the last two as the day |
| Calendar.CompactTime | pages/task-tracker.py:266 | `%H%M%S` is six digits whose pairs read back as the hour, the minute and the second |
| Calendar.CompactDateInjective | pages/task-tracker.py:266 | equal compact dates mean equal dates |
| Calendar.CompactTimeInjective | pages/task-tracker.py:266 | equal compact times mean the same hour, minute and second |
| Keys.SanitizeKey | utils.py:136-142 | the key uses only `[a-z0-9_.-]` and is never longer than the login |
| Keys.CollapseSpaces | utils.py:140 | the result has no whitespace and is no longer than the text |
| Keys.CollapseNoSpace | utils.py:140 | a text without whitespace is unchanged |
| Keys.KeepKeyChars | utils.py:141 | the result uses only key characters and is no longer than the text |
| Keys.KeepKeyCharsCounts | utils.py:141 | every key character is kept as often as it occurs, and every other character is dropped |
| Keys.KeepKey | utils.py:141 | a key is unchanged |
| Keys.SanitizeFixedPoints | utils.py:136-142 | a text is its own key exactly when it consists of key characters |
| Keys.SanitizeIdempotent | utils.py:136-142 | sanitising a key again changes nothing |
| Keys.SanitizeJoinsWords | utils.py:139-140 | for any two keys separated by any whitespace run and padded by any whitespace, the key is the two joined by one underscore |
| Keys.SanitizeDropsDisallowed | utils.py:141 | any character that is neither a key character, whitespace nor an upper-case letter is removed from between two keys, not replaced |
| Keys.SanitizeCapitalized | app.py:149-150 | the key of the capitalised login equals the key of the login |
| Keys.LogUserKey | scripts/validate_lake.py:32-34 | the log key is never empty, is a key, is the sanitised login whenever that is non-empty, and is `unknown_user` when it is empty |
| Files.Suffix | utils.py:341 | pathlib's suffix is empty, or a dot-led ending of the name with no further dot and shorter than the name |
| Files.WithSuffix | utils.py:341 | replacing the suffix keeps the parent directories |
| Files.TmpPathDiffers | utils.py:341 | the temporary sibling never equals the target |
| Files.TmpOfParquetName | utils.py:341 | `x.parquet` gets the temporary name `x.parquet.tmp` |
| Files.TmpIsNotParquet | utils.py:341 | the temporary name never matches `*.parquet` |
| Files.AtomicWrite | utils.py:338-344 | after the call the target holds the whole new table and no temporary file is left, or the call raised and the target is unchanged; no other path changes |
| Records.NoneIfEmpty | pages/task-tracker.py:214-219 | the empty text is stored as null and any other text unchanged |
| Records.CleanNotes | pages/task-tracker.py:220 | blank notes are null; other notes are stored stripped and non-empty |
| Records.CleanNotesIdempotent | pages/task-tracker.py:220 | cleaning stored notes again changes nothing |
| LiveStore.LiveFileName | utils.py:397 | the live file is `user=<key>.parquet` |
| LiveStore.LiveFileNameInjective | utils.py:397 | distinct keys never share a live file |
| LiveStore.NewLiveRow | utils.py:380-394 | the row carries the key and login, notes stripped or null, a covering flag set exactly for a non-blank name, the covering name as given, and the timer's state |
| LiveStore.Save | utils.py:363-398 | the call reports a failure exactly when the write fails, and then nothing changes; otherwise the user's file becomes a one-row table and no other user's file changes |
| LiveStore.UpdateState | utils.py:400-420 | a failed write, or a missing, unreadable or empty file, leaves the store alone; otherwise only the three state columns of every row change, and no other user's file changes |
| LiveStore.Delete | utils.py:447-454 | unless the removal fails (which changes nothing) the user's file is gone, whether or not it existed; no other file changes |
| LiveStore.LoadOwn | utils.py:422-445 | a missing, unreadable or empty file gives nothing |
| LiveStore.LoadOwnDefaults | utils.py:440-441 | a missing `PausedSeconds` column reads as 0 and a missing `State` as running |
| LiveStore.SaveThenLoadOwn | utils.py:363-445 | loading after a save gives back the saved task, state, start, paused seconds and pause start |
| LiveStore.UpdateThenLoadOwn | utils.py:400-445 | loading after an update gives the new state and leaves every other loaded field as it was |
| LiveStore.UpdateLoadsNewState | utils.py:400-445 | whenever an activity loads after a successful update, it carries that update's state; after a failed one, it loads as before |
| LiveStore.ListActivities | utils.py:538-563 | any unreadable file empties the view; otherwise the view holds exactly the stored rows not excluded |
| LiveStore.ListByKeyExcludesOwn | utils.py:559-560 | excluding by key drops exactly the rows with that key |
| LiveStore.ListByLoginKeepsOwnRow | task_tracker_utils.py:376 | the login-comparing variant, given the key, still lists the user's own row whenever the login is not already a key |
| LiveStore.ListByKeyHidesOwnRow | utils.py:559-560 | comparing with the key hides the user's own row for every login |
| Completed.DayPart | utils.py:355-357 | the partition has three components: `year=` and the year's digits without leading zero, `month=` and two digits reading back as the month, `day=` and two digits reading back as the day |
| Completed.DayPartInjective | utils.py:355-357 | distinct dates have distinct partitions |
| Completed.BuildOutDir | utils.py:346-361 | the directory is the root, then `user=<key>`, then the partition of the instant's Eastern date |
| Completed.SameDirIffSameDate | utils.py:346-361 | two instants share a directory exactly when they fall on the same Eastern date |
| Completed.OutDirSeparatesUsers | utils.py:346-361 | different keys never share a directory |
| Completed.CompletedFileName | pages/task-tracker.py:266 | the name is `task_`, the compact Eastern start date and time, `_`, the first eight characters of the task id (all of a shorter id) and `.parquet` |
| Completed.SubmissionPath | pages/task-tracker.py:264-267 | a submission lands directly under the directory of its start instant, in a `.parquet` file |
| Completed.SubmissionInScopeIff | utils.py:566-575 | a submission is among today's files for its user, and for everyone, exactly when it started today (Eastern) |
| Completed.Select | utils.py:566-575 | the scanned files are exactly the listed files in today's partition |
| Completed.SortDescending | utils.py:586 | the result is a permutation of the rows, latest start first, with nulls last |
| Completed.HeadCount | utils.py:586 | `head(limit)` keeps `min(limit, n)` rows, and with a negative limit drops that many from the end |
| Completed.TopRows | utils.py:586 | the result is a sub-multiset of the rows of size `head(limit)`, sorted, and no dropped row starts later than a kept one |
| Completed.LoadRecent | utils.py:566-586 | the result is sorted and at most `limit` long; it is empty when no file is in scope or one cannot be read, and otherwise it is drawn from the in-scope files' rows |
| Completed.SubmittedTaskListed | utils.py:566-586 | a record filed today shows up in today's list while there are at most `limit` rows |
| Users.RowLogin | utils.py:625-626 | a row's login is stripped, lower-case and non-empty, or the row has none |
| Users.RowName | utils.py:627 | a name is stripped; a missing name is the stripped text the reader substitutes for a hole: empty for the sheet reader, the `astype(str)` text ("nan" or "None") for the output-file reader |
| Users.FullNameMap | utils.py:607-631 | the keys are exactly the logins of rows with a non-blank name; keys are normalised and names non-empty and stripped |
| Users.FullNameMapLastWins | utils.py:628-630 | a login maps to the name on the last row that names it |
| Users.FullNameFor | utils.py:634-637 | a known login gives its stored name; an unknown one gives the login as typed |
| Users.ShownNameNonEmpty | task_tracker_utils.py:462-469 | with the sheet reader a non-empty login is never shown as empty text |
| Users.FullNameIgnoresCase | utils.py:637 | the lookup ignores letter case in the login |
| Users.MissingNameShownAsText | utils.py:625-637 | a missing name shows as the substituted text through the output-file reader but as the login through the sheet reader |
| Users.CanViewAnalytics | utils.py:702-708 | with no list everyone may view; otherwise exactly users whose login or full name matches an entry, ignoring case |
| Users.ListedLoginAdmitted | utils.py:703-706 | a login listed in upper case is admitted |
| Timer.ComputeElapsed | app.py:173-184 | elapsed time is never negative and is 0 with no start; ended, it runs to the end less the paused total; running, to now less the paused total; paused, to now less the paused total and the open pause |
| Timer.RunningNeverDecreases | app.py:173-184 | while running, later instants never show less time |
| Timer.PausedStandsStill | app.py:173-184 | while paused, the shown time stays within one second of truncation |
| Timer.StartTask | app.py:204-207 | starting runs the timer from now and clears the publish flag; pauses and end are kept |
| Timer.PauseTask | app.py:210-220 | pausing opens a pause now and leaves the paused total, start and end alone |
| Timer.ResumeTask | app.py:223-236 | resuming folds the whole seconds of the open pause into the total and runs again; with no open pause the callback raises |
| Timer.EndTask | app.py:239-243 | ending records the end time and keeps the paused total and any open pause |
| Timer.ResetAll | app.py:187-201 | reset sets every entry of the defaults to its default value, counter 0 included, except `state_restored`; the user key, the upload flag and the partial-submit flag are kept |
| Timer.ResetForgetsTask | app.py:187-201 | two sessions that agree outside the defaults reset to the same session |
| Timer.EndWhilePausedCountsOpenPause | app.py:239-243 | after ending while paused, the open pause counts as working time |
| Timer.Press | app.py:565-607 | only Resume can raise |
| Timer.PressMakesAllowedMove | pages/task-tracker.py:405-435 | every offered button makes one of the allowed phase moves and keeps the session well formed |
| Timer.AllowedMoveHasButton | pages/task-tracker.py:405-435 | every allowed move is made by an offered button; starting needs a task and a cadence |
| Timer.PausedTotalIsSumOfPauses | app.py:210-236 | after any number of pause/resume pairs the paused total is the sum of their whole seconds |
| Timer.ElapsedAfterPauses | app.py:173-236 | a started timer shows the span since the start less every completed pause |
| Timer.AvailableCadences | app.py:507-512 | the cadences offered are exactly the task's non-missing cadences, each once |
| Timer.PageAvailableCadences | pages/task-tracker.py:369-372 | the page offers no cadence until a task is chosen |
| Timer.FirstAvailable | app.py:519-522 | picks the first of Daily, Weekly, Periodic the task offers, or nothing if it offers none of them |
| Timer.AutoSelect | app.py:514-522 | only the cadence and last-task entries change, and only while idle with a task; a valid cadence for the same task is kept; a changed cadence is the first available |
| Timer.AutoSelectIdempotent | app.py:514-522 | the next rerun's selection changes nothing |
| Timer.SubmittedDuration | app.py:289-293 | the typed duration is used when it parses, else the elapsed time, so it is never negative |
| Timer.SubmittedDurationUntouched | app.py:289-293 | submitting the prefilled text files the elapsed time unchanged |
| Timer.SubmittedDurationFallsBack | app.py:289-293 | any text that does not parse, the empty text among them, falls back to the elapsed time |
| Timer.BuildTaskRecord | app.py:246-264 | name, account and covering name are null exactly when empty and otherwise stored as given; notes are stripped or null; covering is flagged exactly for a non-blank name; times come from the timer |
| Timer.BlankCoveringKeptVerbatim | app.py:247-256 | a blank covering name is not flagged yet is stored as given |
| Timer.Render | app.py:618-641 | the live activity is written exactly when the guard holds, and then the flag and the published task are recorded |
| Timer.QuietPublishesNothing | app.py:618-641 | once published, no later rerun publishes again before a new start |
| Timer.PublishedAtMostOncePerStart | app.py:618-641 | between two starts the live activity is written at most once |
| Timer.FillMissing | pages/task-tracker.py:112-115 | missing defaults are added and existing entries kept |
| Timer.FillMissingIdempotent | pages/task-tracker.py:112-115 | filling again changes nothing |
| Timer.InitializeOnce | app.py:133-138 | the first run writes every initial entry, and later runs change nothing |
| Timer.InitializeOnceIdempotent | app.py:133-138 | a second initialisation is a no-op |
| Workflow.AppRestoreKey | app.py:149-150 | the app's restore key is the same key the page writes under |
| Workflow.Restore | pages/task-tracker.py:117-134 | the first run marks the session restored and takes over a loaded activity's timer and form; later runs change nothing |
| Workflow.RestoreAtMostOnce | pages/task-tracker.py:117-134 | restoring again changes nothing, whatever loads |
| Workflow.PressWorld | app.py:565-607 | a press never touches the lake; end and reset delete the user's live file unless that fails, start leaves the store alone, and with no user key or a failing store nothing in it changes |
| Workflow.PauseResumeKeepMirror | app.py:210-236 | pausing and resuming keep the live file in step with the timer |
| Workflow.PublishWorld | app.py:618-641 | publishing writes the live file only when the guard holds and never touches the lake; a failing write raises before the flag is set, so nothing changes |
| Workflow.PublishMirrors | app.py:618-641 | after publishing under the session's key, the live file shows the timer's state |
| Workflow.RefreshResumesTimer | app.py:149-167 | after a refresh the session restores the published task's timer |
| Workflow.PageSubmit | pages/task-tracker.py:264-272 | a successful submit files the record at its path, then resets to idle, deletes the live file unless that fails, and marks the upload; a failed write changes nothing |
| Workflow.SubmitFilesDuration | pages/task-tracker.py:243-247 | the filed duration is never negative, and is the elapsed time when the text was not edited |
| Workflow.AppSubmit | app.py:318-330 | the app's submit raises, and the world it leaves is the one it was given |
| Workflow.AppSubmitNeverFiles | app.py:323 | the app's submit always raises and leaves the lake, the store and the session as they were |
| Decimals.ParseDecimal | pages/fedex-address-validator.py:155 | `Decimal()` of blank text fails |
| Decimals.ParseDecimalSign | pages/packaging-estimator.py:198 | a number read from text is negative exactly when the stripped text without underscores starts with a minus sign |
| Decimals.ParseDigits | pages/packaging-estimator.py:198 | a run of ASCII digits reads as the finite, non-negative number they spell |
| Decimals.FixedText | pages/fedex-address-validator.py:157 | `format(d, "f")` holds a point exactly when the exponent is negative, and is otherwise digits with at most a leading minus sign |
| Decimals.FixedTextPlain | pages/fedex-address-validator.py:157 | the fixed-point text has no surrounding whitespace and no underscore |
| Decimals.ExponentTextFinite | pages/fedex-address-validator.py:153-155 | text with an exponent mark never reads as infinity or NaN |
| Decimals.FixedTextRoundTrip | pages/fedex-address-validator.py:157 | the fixed-point text of a decimal reads back as the same value |
| Decimals.IntValue | pages/packaging-estimator.py:205 | `int()` of a whole decimal has the decimal's sign and is zero only for zero |
| Packaging.NormalizeItem | pages/packaging-estimator.py:179-184 | a missing cell gives empty text; the result has no whitespace and no lower-case letter |
| Packaging.NormalizeItemIdempotent | pages/packaging-estimator.py:179-184 | normalising twice is normalising once |
| Packaging.NormalizeItemIgnoresCase | pages/packaging-estimator.py:179-184 | letter case in the input does not matter |
| Packaging.WholePositive | pages/packaging-estimator.py:202-208 | a value is a quantity exactly when it is whole and above zero, and then the quantity is its `int()` |
| Packaging.QuantityOf | pages/packaging-estimator.py:198-208 | gives a quantity of at least 1 exactly for a finite, whole, positive value |
| Packaging.ParseQuantity | pages/packaging-estimator.py:187-208 | gives a positive quantity exactly when the stripped text without commas reads as a positive whole number |
| Packaging.QuantityAgrees | pages/packaging-estimator.py:198-208 | where the code as written returns, it returns the corrected value; it raises exactly for infinities and signalling NaN |
| Packaging.QuantityOfAsWritten | pages/packaging-estimator.py:198-208 | as written, the conversion raises exactly for an infinity (`OverflowError`) or a signalling NaN (`InvalidOperation`); a quantity it returns is at least 1 |
| Packaging.ParseQuantityAsWritten | pages/packaging-estimator.py:187-208 | as written, a missing or blank cell gives no quantity, only those two exceptions escape, and a returned quantity is at least 1 |
| Packaging.ParseQuantityAgrees | pages/packaging-estimator.py:187-208 | the text-level version of the same agreement |
| Packaging.InfinityQuantityRaises | pages/packaging-estimator.py:202-205 | "inf" raises OverflowError as written, and is rejected when corrected |
| Packaging.QuantityOfDigits | pages/packaging-estimator.py:187-208 | a positive run of digits is that number |
| Packaging.QuantityOfZero | pages/packaging-estimator.py:206-207 | zero is rejected |
| Packaging.QuantityThousands | pages/packaging-estimator.py:193 | `1,000` reads as `1000` |
| Packaging.QuantityNegative | pages/packaging-estimator.py:206-207 | a negative number is rejected |
| Packaging.QuantityFraction | pages/packaging-estimator.py:202-203 | `n.0` is `n` and `n.5` is rejected |
| Packaging.TenthsQuantity | pages/packaging-estimator.py:202-207 | a number of tenths is a quantity exactly when it is whole and positive |
| Packaging.SplitLines | pages/packaging-estimator.py:215 | no produced line holds a line break |
| Packaging.SplitTerminated | pages/packaging-estimator.py:215 | splitting newline-terminated lines gives the lines back |
| Packaging.RowsOfLines | pages/packaging-estimator.py:217-234 | every row comes from a non-blank tabbed line, carries that line's 1-based number and first two fields, and rows are in line order |
| Packaging.ErrorsOfLines | pages/packaging-estimator.py:221-226 | every error names a non-blank line without a tab, in line order |
| Packaging.PastedLineAccounted | pages/packaging-estimator.py:211-238 | each non-blank line gives exactly one row or one error, never both |
| Packaging.BlankLineIgnored | pages/packaging-estimator.py:218-219 | a blank line gives neither a row nor an error |
| Packaging.PastedInput | pages/packaging-estimator.py:228-234 | pasted rows reach validation with their line numbers |
| Packaging.UploadedInput | pages/packaging-estimator.py:931-933 | uploaded rows are numbered from 2, after the header |
| Packaging.CheckRow | pages/packaging-estimator.py:249-262 | with the quantity exceptions of Findings row 5 read as invalid: a row passes exactly when its item is non-blank and its quantity valid; a blank item is reported before the quantity, under `_RowNumber` or the position plus one |
| Packaging.CheckRowAsWritten | pages/packaging-estimator.py:249-255 | as written the quantity is parsed before the item is looked at: the check raises exactly when the quantity does, and otherwise agrees with the corrected check |
| Packaging.Checks | pages/packaging-estimator.py:248-262 | every row is checked at its own position |
| Packaging.ValidateRowsExactly | pages/packaging-estimator.py:241-262 | every row gives exactly one valid line or one error, and nothing else is reported |
| Packaging.ValidLinesPositive | pages/packaging-estimator.py:253-262 | a valid line has a non-empty item and a positive quantity |
| Packaging.AddTo | pages/packaging-estimator.py:267-273 | adding to the table adds the item to its items |
| Packaging.AddToSorted | pages/packaging-estimator.py:267-273 | adding keeps items strictly ascending |
| Packaging.AddToQuantity | pages/packaging-estimator.py:267-273 | adding raises only that item's sum, by the amount added |
| Packaging.AddToTotal | pages/packaging-estimator.py:267-273 | adding raises the total by the amount added |
| Packaging.Aggregate | pages/packaging-estimator.py:267-273 | the aggregate lists exactly the items of the lines |
| Packaging.AggregateCorrect | pages/packaging-estimator.py:267-273 | one line per item, ascending, holding that item's sum; the total is kept; positive inputs stay positive |
| Packaging.ParsePasted | pages/packaging-estimator.py:211-238 | every row and every error names a line of the pasted text of the right kind, and rows and errors are each in line order |
| Packaging.ValidateAndAggregate | pages/packaging-estimator.py:241-274 | the table holds exactly the items of the valid rows, the errors are the rows' errors in order, and each row is either valid or an error |
| Packaging.ValidateAndAggregateCorrect | pages/packaging-estimator.py:241-274 | the cleaned table sums each valid item once, in item order, and the errors are exactly the failing rows' errors |
| Packaging.BlankItemReportedFirst | pages/packaging-estimator.py:253-255 | with the corrected quantity reading, a blank item is reported even when the quantity is also invalid |
| Packaging.BlankItemWithInfinityRaises | pages/packaging-estimator.py:249-255 | a blank item with quantity `inf` raises as written instead of being reported blank |
| Packaging.AlnumLower | pages/packaging-estimator.py:167-168 | a normalised name holds only lower-case letters and digits |
| Packaging.AlnumLowerIdempotent | pages/packaging-estimator.py:167-168 | normalising twice is normalising once |
| Packaging.AlnumLowerIgnoresCase | pages/packaging-estimator.py:299-300 | letter case does not matter |
| Packaging.NoUnderscoreNames | pages/packaging-estimator.py:318-331 | no normalised name equals `__itemnumber` or `__isverified`, so those exact alternatives never match |
| Packaging.FindDefaultColumn | pages/packaging-estimator.py:171-176 | picks the first matching column, else the fallback capped at the last column |
| Packaging.DefaultColumns | pages/packaging-estimator.py:886-898 | the item and quantity columns are distinct columns of the sheet, and the quantity moves only on a clash |
| Packaging.DefaultColumnsFallback | pages/packaging-estimator.py:886-898 | a sheet with neither header picks the first two columns |
| Packaging.ItemHeaderFound | pages/packaging-estimator.py:171-176 | an `Item Number` header is found in any case and spacing |
| Packaging.CoerceSsasFlag | pages/packaging-estimator.py:288-296 | nulls are false, booleans as given, numbers true exactly when non-zero, and text true exactly for the truthy words |
| Packaging.FlagIgnoresCase | pages/packaging-estimator.py:295-296 | flag text ignores letter case |
| Packaging.FlagIgnoresPadding | pages/packaging-estimator.py:295-296 | any whitespace runs before and after a trimmed flag text do not change the flag |
| Packaging.FalseWordsUnverified | pages/packaging-estimator.py:295-296 | `false`, `no` and `0` are unverified |
| Packaging.ColumnName | pages/packaging-estimator.py:303-314 | a column's name is the tuple's first element, else the `name` attribute, else `column_name`, else its text |
| Packaging.ResolveOrdinals | pages/packaging-estimator.py:317-347 | each position is the first column matching exactly or, when none does, the first column containing the word; a missing column is an error |
| Packaging.ResolveOrdinalsCharacterised | pages/packaging-estimator.py:317-347 | the resolution gives a pair exactly when each position is the two-pass choice stated on its own |
| Packaging.OrdinalCharacterised | pages/packaging-estimator.py:326-341 | the two-pass search returns a position exactly when it is the first exact match, or the first containing column when nothing matches exactly |
| Packaging.ExactItemNamePreferred | pages/packaging-estimator.py:326-341 | a column named exactly `ItemNumber` wins over an earlier one that only contains the word |
| Packaging.MissingItemColumnFails | pages/packaging-estimator.py:344-347 | without an item-number column the resolution fails |
| Packaging.MockFlags | pages/packaging-estimator.py:280-285 | every item gets a flag, true exactly when its code-point sum is not a multiple of 5 |
| Packaging.MockFlagPeriodic | pages/packaging-estimator.py:280-285 | appending five copies of a character leaves the flag unchanged |
| Packaging.SplitVerified | pages/packaging-estimator.py:637-646 | the verified half holds exactly the lines flagged true, and the other half the rest |
| Packaging.SplitVerifiedCounts | pages/packaging-estimator.py:637-646 | every line lands in exactly one half |
| Packaging.KeepVerdictSorted | pages/packaging-estimator.py:644-645 | each half keeps the ascending item order |
| Packaging.PackageCount | pages/packaging-estimator.py:704 | at least one package, with enough packages of four for the quantity and no spare one |
| Packaging.PlaceholderDims | pages/packaging-estimator.py:670-672 | length 10-17, width 8-13 and height 4-7, so the volume is 320-1547 |
| Packaging.PlaceholderDimsOnto | pages/packaging-estimator.py:670-672 | every box within those bounds is produced by some seed |
| Fedex.RenderAsWritten | pages/fedex-address-validator.py:157 | as written, the rendering is the fixed-point text with a tail of zeros and points cut off, and never ends in a point |
| Fedex.Render | pages/fedex-address-validator.py:157 | as intended, a number without a fractional part keeps its fixed-point text whole, and only a fractional one is trimmed as written |
| Fedex.RenderTracking | pages/fedex-address-validator.py:150-160 | stripped text without an exponent mark, or that is not a number, comes back unchanged; a number is finite and rendered |
| Fedex.ZerosThenPoint | pages/fedex-address-validator.py:157 | `rstrip("0").rstrip(".")` keeps a prefix and drops only zeros and points |
| Fedex.NormalizeTracking | pages/fedex-address-validator.py:144-160 | missing or blank cells give empty text; text without an exponent mark, or that is not a number, comes back stripped; other text is rendered from its finite value |
| Fedex.TrackingOnlyFinite | pages/fedex-address-validator.py:153-155 | a tracking text with an exponent mark is never rendered from infinity or NaN |
| Fedex.RenderWholeRoundTrip | pages/fedex-address-validator.py:157 | the intended rendering of a whole number is plain digits that read back as that number |
| Fedex.TrackingWholeRoundTrip | pages/fedex-address-validator.py:153-157 | a whole number in scientific notation comes out as plain digits of the same value, without an exponent mark |
| Fedex.TrackingDropsZeros | pages/fedex-address-validator.py:157 | as written, `79483E7` comes out as `79483`; as intended, as `794830000000` |
| Fedex.RenderDropsZeros | pages/fedex-address-validator.py:157 | as written, a whole number loses the zeros of its exponent; as intended, it keeps them |
| Fedex.FirstFilled | pages/fedex-address-validator.py:136-142 | the position of the first candidate column the row fills, or none when it fills none |
| Fedex.FirstPresent | pages/fedex-address-validator.py:136-142 | empty exactly when no candidate is filled, else the stripped value of the first filled one |
| Fedex.WithDisputed | pages/fedex-address-validator.py:109-110 | the column is present afterwards, added with empty cells only when missing |
| Fedex.MarkDisputed | pages/fedex-address-validator.py:104-116 | rows at the given existing positions get `Disputed` = 1; every other row and cell is unchanged |
| Fedex.Shown | pages/fedex-address-validator.py:293-295 | the shown rows are exactly those whose `Disputed` is blank, or all rows without the column, in order |
| Fedex.WithDisputedShowsSame | pages/fedex-address-validator.py:109-110 | adding the empty column hides nothing |
| Fedex.MarkedRowsHidden | pages/fedex-address-validator.py:104-116 | after marking, the shown rows are those shown before minus the marked ones |
| Fedex.SafeName | pages/fedex-address-validator.py:232 | every double quote becomes an underscore and every other character stays |
| Fedex.SafeNameKeepsPlain | pages/fedex-address-validator.py:232 | a name without quotes is kept |
| Fedex.SafeNameIdempotent | pages/fedex-address-validator.py:232 | escaping twice is escaping once |
| Startup.TodaysFilename | startup.py:78-80 | the name is `accounts_`, the ISO date and `.parquet`, 27 characters |
| Startup.TodaysFilenameInjective | startup.py:78-80 | different days never share a file name |
| Startup.CellText | startup.py:105-106 | an empty cell reads as `nan`; any other cell is stripped |
| Startup.LoadAccounts | startup.py:99-113 | the kept rows are the cleaned rows not `nan` in both cells, each as often as it occurs there and in the sheet's order |
| Startup.EmptySheetRowDropped | startup.py:109-111 | a row with both cells empty is dropped |
| Startup.FilledRowKept | startup.py:109-111 | a row with a real code is kept |
| Startup.DeleteAllParquet | startup.py:89-96 | every parquet entry is removed unless deleting it fails; the failures are logged and kept; other entries are untouched |
| Startup.RunStartup | startup.py:155-200 | the run gives the rotation result and logs exactly the failed deletions; it raises exactly when today's file is missing and the sheet cannot be read, after the deletions |
| Startup.Rotated | startup.py:171-191 | with today's file present nothing changes; otherwise every other parquet entry goes unless its deletion fails, other entries stay as they were, and today's file holds the read sheet's accounts exactly when the sheet was read |
| Startup.RotationWritesToday | startup.py:179-191 | afterwards today's file exists exactly when it did before or the sheet was read, holding the sheet's rows when this run wrote it |
| Startup.UnreadableSheetLeavesNoTable | startup.py:179-185 | when the sheet cannot be read after the deletions, the only parquet entries left are those whose deletion failed: no accounts table is written |
| Startup.RotationIdempotent | startup.py:171-174 | once a run has left today's file (it does whenever the file existed or the sheet was read), a second run on the same day changes nothing, whatever fails and whatever the sheet says |
| Startup.RotationLeavesOnlyToday | startup.py:179-191 | without failures, today's file is the only parquet entry left |
| Startup.RotationKeepsOthers | startup.py:89-96 | entries that are not parquet files are never touched |
| Startup.RotationDropsYesterday | startup.py:179-191 | yesterday's file survives only when deleting it failed |
| LakeAudit.BadFiles | scripts/validate_lake.py:66-78 | lists, in order, exactly the files that cannot be read or whose columns are not the expected list |
| LakeAudit.CountBad | scripts/validate_lake.py:62-80 | the count is the number of bad files, at most the number of files, and zero exactly when every file is good |
| LakeAudit.BadFilesConcat | scripts/validate_lake.py:66-78 | the count over two listings is the sum of their counts |
| LakeAudit.BadFilesOrderFree | scripts/validate_lake.py:66 | the listing order does not change the count |
| LakeAudit.ReorderedColumnsBad | scripts/validate_lake.py:70-73 | the expected columns in another order are bad |
| LakeAudit.SwappedColumnsBad | scripts/validate_lake.py:70-73 | swapping the first two columns is such an order |
| LakeAudit.OnlyExpectedPasses | scripts/validate_lake.py:70-73 | only the expected list, in order, passes |

## Left out

- Rendering, layout, dialogs, toasts and styling: presentation only.
- Parquet, pandas, Excel and CSV reading and writing: stores are maps, directory listings are sequences, and an unreadable file is a `Partial` table or an `Unreadable` schema.
- `to_eastern` (utils.py:128-134): the America/New_York conversion depends on the time-zone database, so it is the parameter `EasternZone`.
- `datetime.now` and `now_utc`: the clock is the parameter `now`. Instants are whole microseconds.
- Caching lifetimes: they affect freshness only.
- SSAS, MSAL and pyadomd access, `_dax_escape_string`, `_build_verification_query` and `fetch_verification_flags`: foreign services; only the coercion and the column resolution over their results are modelled.
- Outlook and browser email, openpyxl sheets, and `build_attachment_df`: foreign services and file formats.
- Packaging weights, volumes, prices and display floats: floating point.
- Packaging.PackageCount: `math.ceil(quantity / 4)` divides as a float, and the model divides exactly. The two agree up to 2^53 (9007199254740992). Above that the quotient is rounded first: 9007199254740993 gives 2251799813685248 packages, whose four-per-package capacity falls short of the quantity. From about 7.2e308 on, the division raises `OverflowError`. The contract states the exact ceiling.
- Packaging.AggregateCorrect: `groupby(...).sum()` adds the quantities in an int64 column, which wraps above 2^63-1: two lines of 9223372036854775807 sum to -2. The model's sums are exact, so the kept total and the positivity of the sums hold only while every sum fits in 64 bits.
- Packaging.ValidateAndAggregateCorrect: the same int64 wrap of the summed quantities; the cleaned table's sums are exact in the model.
- Packaging.AddToQuantity: the same int64 wrap; an item's sum rises by exactly the amount added only while it fits in 64 bits.
- Packaging.AddToTotal: the same int64 wrap of the total.
- Packaging.PlaceholderDims: `stable_seed` is SHA-256, so the seed is an arbitrary natural number.
- Packaging.CoerceSsasFlag: a number is a Dafny `real`, which has no NaN, so the NaN case is not modelled.
- Packaging.NormalizeItem: letter case is modelled for ASCII only; Python's Unicode case mapping is not.
- Keys.SanitizeKey: lower-casing is modelled for ASCII only; whitespace is the full `str.isspace` set.
- Keys.SanitizeCapitalized: `str.capitalize` is modelled with ASCII case mapping; Python title-cases the first character with Unicode rules, so `"ßob".capitalize()` is `"Ssob"`, which the model does not produce.
- Workflow.AppRestoreKey: the same ASCII `capitalize` as Keys.SanitizeCapitalized, so logins starting with a character whose Unicode title case is longer (such as `ß`) are not covered.
- Users.RowLogin: `str.lower` is modelled for ASCII letters only; non-ASCII letters keep their case (`"JOSÉ"` lowers to `"josÉ"`, not `"josé"`).
- Users.FullNameFor: the lookup key is lowered with the same ASCII-only mapping.
- Users.FullNameIgnoresCase: case is ignored for ASCII letters only.
- Users.CanViewAnalytics: logins, names and list entries are compared with ASCII-only lower-casing.
- Users.ListedLoginAdmitted: upper case is ASCII upper case.
- Clock.ParseHhmmss: fields are read by a model of `int()` that accepts ASCII digits only; Python also accepts other Unicode decimal digits (`"１:００"` is 3600).
- Decimals.ParseDecimal: `Decimal()` is modelled with ASCII digits only; Python also accepts other Unicode decimal digits.
- Packaging.ParseQuantity: through Decimals.ParseDecimal, quantities in non-ASCII digits are read as invalid.
- Fedex.NormalizeTracking: through Decimals.ParseDecimal, a tracking number in non-ASCII digits is returned stripped instead of rendered.
- Timer.SubmittedDurationUntouched: the duration box's 8-character limit (app.py:294) is not modelled; from 100 hours (360000 s) on the prefilled text has 9 or more characters, so the box could not hold it.
- Workflow.SubmitFilesDuration: the page's box has the same 8-character limit (pages/task-tracker.py:243), which the model does not impose either.
- Packaging.AlnumLower: `isalnum` is modelled for ASCII letters and digits only.
- Timer.ResetAll: the widget entries `task_<n>`, `acct_<n>` and `covering_<n>` it pops (app.py:195-197) are not part of the session model, so the contract says nothing about them.
- Completed.SortDescending: pandas does not fix the order of rows with equal start times; the model picks one order, and the contracts hold for any.
- Completed.LoadRecent: the column projection is not modelled; rows are whole records.
- Startup.RunStartup: a failing table write (`save_parquet`) and the log messages are not modelled; a workbook that cannot be read and a sheet missing one of the two columns both raise in `load_accounts` and are the one absent-sheet case.
- `get_paths`, `find_task_tracker_root`, `get_logger`, `setup_logging`, `log_diagnostics`: path discovery and logging.
- `load_archived_tasks`, `save_archived_task`, `load_all_user_full_names`, `load_tasks` and the `load_accounts` of utils.py: other sheets and stores read the same way as those modelled, and not part of the timer or the lake.
- The refresh fragments, auto-refresh and cross-user concurrency: each user owns one key, so there is nothing beyond map semantics.
- The analytics page: filter-and-chart code over floats.

## Findings

| source | as written | input that shows it | evidently intended | confidence | as-written member | corrected member |
|---|---|---|---|---|---|---|
| app.py:323 | the submit dialog calls `atomic_write_parquet`, which the module never imports (app.py:12-35), so the call raises `NameError` | any submit from the app page | the record is written, then the session resets, as on the tracker page | high; not executed | Workflow.AppSubmitNeverFiles | Workflow.SubmitFilesDuration |
| task_tracker_utils.py:376 | the live view excludes rows whose `UserLogin` equals the argument, but callers pass the sanitised key | login `JSmith` (key `jsmith`): the user's own row stays listed | exclude by `UserKey`, as utils.py:559 does | high; not executed | LiveStore.ListByLoginKeepsOwnRow | LiveStore.ListByKeyHidesOwnRow |
| pages/fedex-address-validator.py:157 | `rstrip("0")` also strips zeros before the point of a whole number | `79483E7` (shown as `7.9483E+11`) gives `79483` | strip zeros only after a decimal point, giving `794830000000` | high; not executed | Fedex.TrackingDropsZeros | Fedex.TrackingWholeRoundTrip |
| utils.py:627 | the name column is converted with `astype(str)` before blank names are skipped, so a missing name becomes the conversion's text for a hole (`nan` for a float column, `None` for an object one) | a users row with a login and no name: the user is shown as that text | skip missing names, as the sheet reader does (task_tracker_utils.py:450-455), and show the login | medium; not executed | Users.MissingNameShownAsText | Users.ShownNameNonEmpty |
| pages/packaging-estimator.py:202-205 | infinities pass the integral test and `int()` raises `OverflowError`; a signalling NaN raises `InvalidOperation` in `to_integral_value()`; neither is caught | quantity `inf` or `sNaN` | reject the row as an invalid quantity | high; not executed | Packaging.InfinityQuantityRaises, Packaging.BlankItemWithInfinityRaises | Packaging.ParseQuantityAgrees, Packaging.CheckRow |
