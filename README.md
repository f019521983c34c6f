# timekeep: task lifecycle model

A Dafny model of the core of `timekeep`, a command-line time tracker. A task is
started into a single "current task" file (JSON). It is ended into a finished
task, which is appended to the `tasks` table of an SQLite database unless it is
discarded, and then the file is removed. A finished task can also be added
directly with explicit times. Durations are formatted as human-readable text.

The model keeps the program's own structure:

- `Durations` (src/tasks.rs:11-83): `rounded_div` and `human_duration`, with
  Rust's truncating `/` written out (`TruncDiv`). `HumanDuration` reassigns its
  locals step by step as the source does, and is proved equal to a closed-form
  reading `Describe` whose meaning is proved separately; `ParseReading`
  reads a rendered text back, which shows that the text determines the
  reading. `Decimal` gives the `{}` formatting of integers, with its round
  trip.
- `Tasks` (src/tasks.rs:85-238): `CurrentTask`, `Task`, the closing
  transitions `EndWithTime` and `EndNow`, and the class `CurrentFile`, whose
  field `task` is the file's content (None when the file does not exist).
- `Database` (src/database.rs): the class `DatabaseFile`, whose fields say
  whether the `tasks` table exists and hold its rows in insertion order.
  `append_task` creates the table lazily and inserts one row.
- `Lifecycle` (src/tasks.rs:240-282) and `Cli` (src/cli.rs:57-158): the
  orchestration methods. Each is proved equal to a specification function
  over the whole disk state (`Disk`: the file's content and the database),
  and the properties are lemmas about those functions.

Instants are integers (milliseconds since the epoch). The clock, the parsing
of date/time arguments and the success or failure of each file-system and
SQLite call are inputs: `now` parameters, a `ParsedTime` value, and the
`SlotIo` and `DbIo` records. The lemmas hold for every choice of these.

A few behaviours worth stating plainly: `start` ends the running task first
unless `overwrite` is set (src/cli.rs:64-70), and only `start_task` itself has
no implicit end; `add` and an end at the clock do not compare the end with the
start; empty project names are accepted; and these files contain no range
query. `Path::exists` answers false when the current-task file's metadata
cannot be read, so such a file is taken for no file at all (`statOk` in
`SlotIo`): ending then reports nothing to end, and `start` writes the new task
over the running one without storing it.

## Model

| member | source | states |
|---|---|---|
| Durations.TruncDiv | src/tasks.rs:33 | Rust's integer `/`: the quotient's magnitude is the floor of the magnitudes and its sign is the sign of a / b (truncation toward zero) |
| Durations.RoundedDivAsWritten | src/tasks.rs:32-34 | `rounded_div` as written, with Rust's truncating `/`: on a non-negative numerator and a positive denominator it is Euclidean `(n + d / 2) / d` |
| Durations.RoundedDivAsWrittenRounds | src/tasks.rs:32-34 | `rounded_div` as written; for a non-negative numerator and positive denominator it rounds to the nearest integer, halves up |
| Durations.RoundedDivAsWrittenExamples | src/tasks.rs:17-21 | the documented non-negative examples hold: (3,2)→2, (2,3)→1, (1,2)→1, (1,3)→0 |
| Durations.RoundedDivAsWrittenNegativeExamples | src/tasks.rs:22-24 | as written, (-3,2) gives -1 and (1,-2) gives 0, not the documented -2 and -1 |
| Durations.RoundedDivIsNearest | src/tasks.rs:11-31 | corrected division: for every sign, the result is the nearest integer to n/d with halves away from zero |
| Durations.RoundedDivAgrees | src/tasks.rs:32-34 | on a non-negative numerator and a positive denominator, the only operands the program passes, the corrected and the as-written division are equal |
| Durations.RoundedDivDocumentedExamples | src/tasks.rs:17-25 | all eight documented examples hold of the corrected division, with -1 for (1,-2) as its comment says |
| Durations.HumanDuration | src/tasks.rs:57-83 | the step-by-step computation gives the text of the closed-form reading `Describe` of the duration |
| Durations.RenderRoundTrip | src/tasks.rs:60-82 | the `format!` texts of `human_duration` determine the reading: splitting at spaces and reading the numbers back gives the reading again, so distinct readings never print alike |
| Durations.DescribeMeaning | src/tasks.rs:58-82 | milliseconds exactly below 1000 ms; otherwise each reading adds back up to the duration rounded to its smaller unit, with the larger unit below its threshold (60 s, 60 min, 24 h) and the smaller below 60 s, at most 60 min or at most 24 h |
| Durations.DescribeCarriesToFullUnit | src/tasks.rs:75-81 | rounding can carry the smaller unit to a full larger one: "1 hours 60 minutes" and "1 days 24 hours" occur |
| Durations.HumanDurationExamples | src/tasks.rs:43-50 | the seven documented examples, from "947 milliseconds" to "7 days 5 hours" |
| Decimal.NatToDecimal | src/tasks.rs:60 | the decimal text of a natural number is a non-empty string of digits with no leading zero |
| Decimal.DecimalRoundTrip | src/tasks.rs:60 | reading the printed digits back gives the number |
| Decimal.IntToDecimal | src/tasks.rs:60 | an integer's text starts with '-' exactly when it is negative, followed by the digits of its magnitude |
| Decimal.ParseIntRoundTrip | src/tasks.rs:60 | reading back the `{}` text of any integer, sign included, gives that integer |
| Decimal.NatToDecimalInjective | src/tasks.rs:60 | distinct natural numbers have distinct digit strings |
| Decimal.IntToDecimalInjective | src/tasks.rs:60-82 | distinct numbers are printed differently |
| Tasks.TaskDuration | src/tasks.rs:194-196 | the duration added to the start gives the end; it is non-negative exactly when the end is not before the start |
| Tasks.EndWithTime | src/tasks.rs:116-131 | fails with end-before-start exactly when the time precedes the start (an equal time is accepted); otherwise copies name, start and description, ends at the time, and has duration time − start ≥ 0 |
| Tasks.EndNow | src/tasks.rs:215-224 | closing at the clock copies name, start and description and ends at the clock reading |
| Tasks.EndNowAgreesWithEndWithTime | src/tasks.rs:116-135 | when the clock is not behind the start both ways of ending give the same task; otherwise only the explicit one refuses and the clock one yields a negative duration |
| Tasks.LoadSpec | src/tasks.rs:144-149 | loading succeeds exactly when the file exists and can be read, and then gives the stored task; a missing file is a not-found error |
| Tasks.CurrentFile.Exists | src/tasks.rs:265 | true exactly when the current-task file exists and its metadata can be read |
| Tasks.CurrentFile.Save | src/tasks.rs:137-142 | a successful save replaces any content by the task and returns that same task; a failed write changes nothing |
| Tasks.CurrentFile.Load | src/tasks.rs:144-149 | reads the file as `LoadSpec` says, changing nothing |
| Tasks.CurrentFile.Remove | src/tasks.rs:280 | removal empties the slot on success, and fails without change when the file is missing or cannot be removed |
| Database.TaskRow | src/database.rs:50-58 | the inserted row holds the name, the RFC 3339 texts of start and end, and the description (None as NULL) |
| Database.TaskRowInjective | src/database.rs:52-57 | a row determines the task it was made from |
| Database.AppendTaskOutcome | src/database.rs:44-61 | an append succeeds exactly when every SQLite call it makes succeeds; it then adds exactly the task's row after all earlier rows, whatever the task's times; a failure keeps every row; an existing table is kept |
| Database.AppendTaskCreatesTable | src/database.rs:46-48 | with no table, a successful append creates it and leaves exactly one row |
| Database.DatabaseFile.TableExists | src/database.rs:8-26 | reports whether the `tasks` table exists, or a database error |
| Database.DatabaseFile.CreateTasksTable | src/database.rs:28-42 | creates the table, keeping the rows; fails when the table already exists |
| Database.DatabaseFile.AppendTask | src/database.rs:44-61 | the outcome and the new database content are those of `AppendTaskSpec`; the no-rows-without-table invariant is kept |
| Lifecycle.NewTask | src/tasks.rs:251-254 | the new running task has the given name and description, and starts at the given time or else at the clock reading |
| Lifecycle.StartTaskOverwrites | src/tasks.rs:240-257 | `start_task` succeeds exactly when the write does; it then replaces any current task with the new one (given start or clock), returns it, and a later load gives it back; a failure changes nothing |
| Lifecycle.StartTask | src/tasks.rs:240-257 | the method's outcome and new file content are those of `StartTaskSpec` |
| Lifecycle.CloseTask | src/tasks.rs:271-274 | closing succeeds exactly when no end time is given or it is not before the start, fails with end-before-start otherwise, and copies name, start and description, ending at the given time or the clock |
| Lifecycle.EndCurrentTaskWhenIdle | src/tasks.rs:265-267 | with no current task, ending returns `Ok(None)` and changes neither file nor database |
| Lifecycle.EndCurrentTaskMissesUnreadableFile | src/tasks.rs:265-267 | when the file's metadata cannot be read, `exists` answers false: `Ok(None)` is returned and the running task stays in its file, unstored |
| Lifecycle.EndCurrentTaskRejectsEarlyEnd | src/tasks.rs:271-272 | an explicit end before the start fails with end-before-start and changes nothing |
| Lifecycle.EndCurrentTaskAtClockNeverRejects | src/tasks.rs:273 | ending without an end time never fails with end-before-start |
| Lifecycle.EndCurrentTaskAppendFailure | src/tasks.rs:276-278 | a failed append returns the database error, keeps the current task and all stored rows |
| Lifecycle.EndCurrentTaskKeepsTaskOnError | src/tasks.rs:269-280 | every failure leaves the current task in its file |
| Lifecycle.EndCurrentTaskSuccess | src/tasks.rs:276-281 | on success the closed task is returned, the file is gone, and the rows grow by exactly its row unless discarded |
| Lifecycle.EndCurrentTaskSucceedsIff | src/tasks.rs:259-282 | ending succeeds exactly when nothing is running or the file goes unseen, or reading, closing, appending (unless discarding) and removing all succeed |
| Lifecycle.EndCurrentTaskRetryAfterFailedRemove | src/tasks.rs:276-280 | removal comes after the append: when it fails, the task is stored and still current, and ending again stores it a second time |
| Lifecycle.EndCurrentTask | src/tasks.rs:259-282 | the method's outcome and the new file and database content are those of `EndCurrentTaskSpec` |
| Cli.StartOverwriting | src/cli.rs:57-86 | with `overwrite` the database is untouched, the running task is replaced without being stored, and the command succeeds exactly when the start time parses and the write succeeds |
| Cli.StartEndsRunningTaskFirst | src/cli.rs:64-70 | without `overwrite` a running task is ended at the clock and its row appended before the new task becomes current |
| Cli.StartStopsWhenEndFails | src/cli.rs:66 | when the implicit end fails, `start` returns that error and the running task stays current |
| Cli.StartWithBadTimeStillEnds | src/cli.rs:64-75 | the start time is parsed after the implicit end: an unparsable one fails the command after the running task was stored and the file removed |
| Cli.StartLosesRunningTaskWhenUnseen | src/cli.rs:64-85 | when `exists` cannot read the current file's metadata, `start` without `overwrite` succeeds, leaves the database unchanged and overwrites the running task with the new one |
| Cli.EndForwards | src/cli.rs:88-105 | `end` passes end time and discard on unchanged, succeeds exactly when ending does, treats "no current task" as success, and changes nothing when the time does not parse |
| Cli.AddAppendsOneTask | src/cli.rs:129-150 | `add` appends exactly one task built from its arguments, without any end-after-start check; an unparsable time changes nothing |
| Cli.StartThenEndScenario | src/cli.rs:57-105 | starting "acme" at T and ending it at T + 30 min from an empty state stores exactly that task and leaves no current task |
| Cli.Start | src/cli.rs:57-86 | the method's outcome and new state are those of `StartSpec` |
| Cli.End | src/cli.rs:88-105 | the method's outcome and new state are those of `EndSpec` |
| Cli.Add | src/cli.rs:129-150 | takes only the database; its outcome and new database content are those of `AddSpec` |
| Cli.View | src/cli.rs:153-158 | returns what `LoadSpec` gives of the current task, changing nothing: it fails exactly when there is none or it cannot be read |

## Left out

- `parse_local_datetime` (src/cli.rs:110-127): chrono's format parsing and `Utc::today()`; its outcome is the `ParsedTime` input.
- The clap argument structures (src/cli.rs:8-55), src/main.rs (dispatch only, and out of step with src/cli.rs) and src/lib.rs (an older copy of the task types): not part of this model.
- The `Display` implementations, `CurrentTask::duration` and every `println!`: presentation and the live clock.
- JSON encoding, SQL text, `rusqlite` connections and file-system calls: replaced by the abstract file and database state; each call's failure (for `Path::exists`, its metadata read) is a boolean input, not a mechanism.
- `Database.Rfc3339`: the RFC 3339 text is represented by its instant; only its injectivity is used, not its characters.
- Instants have millisecond resolution; chrono's nanoseconds are not modelled.
- Durations.RoundedDivAsWritten: does not model `i64` overflow of `numerator + denominator / 2`, because integers are unbounded here; durations in the program stay far from that range.
- Durations.HumanDuration: the duration is given in milliseconds, as `num_milliseconds()` returns them; `i64` limits are not modelled.
- Tasks.CurrentFile.Save: a failed write leaves the old content; a partly written file is not modelled.
- The two clock readings of `start` (at the implicit end and at the new start) are independent inputs; that the clock does not go backwards is not assumed.
- `CurrentTask::new`, `Task::new` and the `Task` getters are the datatype constructors and fields.
- Concurrent runs of the program are not modelled.

## Findings

| source | as written | input that shows it | evidently intended | confidence | as-written member | corrected member |
|---|---|---|---|---|---|---|
| src/tasks.rs:22-33 | `(numerator + (denominator / 2)) / denominator` with truncating division | `rounded_div(-3, 2)` gives -1 where the doc comment promises -2; `rounded_div(1, -2)` gives 0 where the comment says -1 | rounding to the nearest integer with halves away from zero for every sign, as the doc comment describes | medium: the program only calls it with non-negative operands, where both agree; not executed | Durations.RoundedDivAsWrittenNegativeExamples | Durations.RoundedDivIsNearest |
