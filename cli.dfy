/** The commands `start`, `end`, `add` and `view` of the command line
    (src/cli.rs:57-158), as sequences of effects on the current-task file
    and the database. */
module Cli {
  import opened Wrappers
  import opened Tasks
  import opened Database
  import opened Lifecycle

  /** What `parse_local_datetime` made of a date/time argument. */
  datatype ParsedTime = Parsed(instant: Instant) | Unparsable

  /** The optional time a command passes on once its argument is parsed. */
  function GivenTime(arg: Option<ParsedTime>): Option<Instant>
    requires arg != Some(Unparsable)
  {
    if arg.Some? then Some(arg.value.instant) else None
  }

  /** `cli::start` on the disk. Unless `overwrite` is set the current task is
      first ended at the clock reading `endNow` and stored; only then is the
      start time parsed and the new task saved, started at `startNow` when
      no start time is given. */
  function StartSpec(d: Disk, projectName: string, startArg: Option<ParsedTime>, description: Option<string>,
                     overwrite: bool, endNow: Instant, startNow: Instant, sio: SlotIo, dio: DbIo): Step<()>
  {
    var ended := if overwrite then Step(Ok(None), d) else EndCurrentTaskSpec(d, None, false, endNow, sio, dio);
    if ended.result.Err? then Step(Err(ended.result.error), ended.disk)
    else if startArg == Some(Unparsable) then Step(Err(BadDateTime), ended.disk)
    else
      var (r, current) := StartTaskSpec(ended.disk.current, projectName, GivenTime(startArg), description, startNow, sio);
      Step(if r.Ok? then Ok(()) else Err(r.error), ended.disk.(current := current))
  }

  /** `cli::end` on the disk: parse the end time, then end the current task. */
  function EndSpec(d: Disk, endArg: Option<ParsedTime>, discard: bool, now: Instant, sio: SlotIo, dio: DbIo): Step<()>
  {
    if endArg == Some(Unparsable) then Step(Err(BadDateTime), d)
    else
      var ended := EndCurrentTaskSpec(d, GivenTime(endArg), discard, now, sio, dio);
      Step(if ended.result.Ok? then Ok(()) else Err(ended.result.error), ended.disk)
  }

  /** `cli::add` on the database: parse both times, then append the task. */
  function AddSpec(s: Store, projectName: string, startArg: ParsedTime, endArg: ParsedTime,
                   description: Option<string>, dio: DbIo): (Result<(), Error>, Store)
  {
    if startArg.Unparsable? || endArg.Unparsable? then (Err(BadDateTime), s)
    else AppendTaskSpec(s, Task(projectName, startArg.instant, endArg.instant, description), dio)
  }

  /** With `overwrite` the running task is replaced without ever reaching
      the database, which does not change at all; the command succeeds
      exactly when the start time parses and the write succeeds. */
  lemma StartOverwriting(d: Disk, projectName: string, startArg: Option<ParsedTime>, description: Option<string>,
                         endNow: Instant, startNow: Instant, sio: SlotIo, dio: DbIo)
    ensures var step := StartSpec(d, projectName, startArg, description, true, endNow, startNow, sio, dio);
      && step.disk.store == d.store
      && (step.result.Ok? <==> startArg != Some(Unparsable) && sio.writeOk)
      && (step.result.Ok? ==> step.disk.current == Some(NewTask(projectName, GivenTime(startArg), description, startNow)))
      && (step.result.Err? ==> step.disk.current == d.current)
  {
  }

  /** Without `overwrite` a running task is ended at the clock and stored
      before the new one is saved. */
  lemma StartEndsRunningTaskFirst(d: Disk, projectName: string, startArg: Option<ParsedTime>, description: Option<string>,
                                  endNow: Instant, startNow: Instant, sio: SlotIo, dio: DbIo)
    requires ValidStore(d.store) && d.current.Some?
    requires sio.statOk && sio.readOk && sio.removeOk && sio.writeOk && AllOk(dio) && startArg != Some(Unparsable)
    ensures var step := StartSpec(d, projectName, startArg, description, false, endNow, startNow, sio, dio);
      && step.result == Ok(())
      && step.disk.store.rows == d.store.rows + [TaskRow(EndNow(d.current.value, endNow))]
      && step.disk.current == Some(NewTask(projectName, GivenTime(startArg), description, startNow))
  {
  }

  /** When the implicit end fails, `start` returns its error before saving
      the new task: the running task stays current. */
  lemma StartStopsWhenEndFails(d: Disk, projectName: string, startArg: Option<ParsedTime>, description: Option<string>,
                               endNow: Instant, startNow: Instant, sio: SlotIo, dio: DbIo)
    requires EndCurrentTaskSpec(d, None, false, endNow, sio, dio).result.Err?
    ensures var step := StartSpec(d, projectName, startArg, description, false, endNow, startNow, sio, dio);
      step.result == Err(EndCurrentTaskSpec(d, None, false, endNow, sio, dio).result.error) && step.disk.current == d.current
  {
    EndCurrentTaskKeepsTaskOnError(d, None, false, endNow, sio, dio);
  }

  /** The start time is parsed only after the implicit end: with a start
      time that does not parse, `start` fails, yet the running task has been
      ended and stored and no task is current any more. */
  lemma StartWithBadTimeStillEnds(d: Disk, projectName: string, description: Option<string>,
                                  endNow: Instant, startNow: Instant, sio: SlotIo, dio: DbIo)
    requires ValidStore(d.store) && d.current.Some?
    requires sio.statOk && sio.readOk && sio.removeOk && AllOk(dio)
    ensures var step := StartSpec(d, projectName, Some(Unparsable), description, false, endNow, startNow, sio, dio);
      && step.result == Err(BadDateTime)
      && step.disk.current.None?
      && step.disk.store.rows == d.store.rows + [TaskRow(EndNow(d.current.value, endNow))]
  {
  }

  /** When `Path::exists` cannot read the metadata of the current-task file,
      `start` without `overwrite` sees no running task and writes the new one
      over it: the running task is lost, never stored. */
  lemma StartLosesRunningTaskWhenUnseen(d: Disk, projectName: string, startArg: Option<ParsedTime>,
                                        description: Option<string>, endNow: Instant, startNow: Instant,
                                        sio: SlotIo, dio: DbIo)
    requires d.current.Some? && !sio.statOk && sio.writeOk && startArg != Some(Unparsable)
    ensures var step := StartSpec(d, projectName, startArg, description, false, endNow, startNow, sio, dio);
      && step.result == Ok(())
      && step.disk.store == d.store
      && step.disk.current == Some(NewTask(projectName, GivenTime(startArg), description, startNow))
  {
  }

  /** `end` passes its end time and `discard` on unchanged, and reports
      success also when there was no task to end. */
  lemma EndForwards(d: Disk, endArg: Option<ParsedTime>, discard: bool, now: Instant, sio: SlotIo, dio: DbIo)
    ensures endArg == Some(Unparsable) ==> EndSpec(d, endArg, discard, now, sio, dio) == Step(Err(BadDateTime), d)
    ensures endArg != Some(Unparsable) ==>
      var inner := EndCurrentTaskSpec(d, GivenTime(endArg), discard, now, sio, dio);
      var step := EndSpec(d, endArg, discard, now, sio, dio);
      && step.disk == inner.disk
      && (step.result.Ok? <==> inner.result.Ok?)
      && (d.current.None? ==> step == Step(Ok(()), d))
  {
  }

  /** `add` appends exactly one task built from its arguments, without
      comparing its end with its start; a time that does not parse changes
      nothing. */
  lemma AddAppendsOneTask(s: Store, projectName: string, startArg: ParsedTime, endArg: ParsedTime,
                          description: Option<string>, dio: DbIo)
    requires ValidStore(s)
    ensures startArg.Unparsable? || endArg.Unparsable? ==>
      AddSpec(s, projectName, startArg, endArg, description, dio) == (Err(BadDateTime), s)
    ensures startArg.Parsed? && endArg.Parsed? && AllOk(dio) ==>
      AddSpec(s, projectName, startArg, endArg, description, dio)
        == (Ok(()), Store(true, s.rows + [TaskRow(Task(projectName, startArg.instant, endArg.instant, description))]))
  {
  }

  /** Starting "acme" at T with no current task and an empty database, then
      ending it at T + 30 minutes, leaves exactly one stored task and no
      current task. */
  lemma StartThenEndScenario(T: Instant, sio: SlotIo, dio: DbIo)
    requires sio.statOk && sio.readOk && sio.writeOk && sio.removeOk && AllOk(dio)
    ensures var started := StartSpec(Disk(None, Store(false, [])), "acme", None, None, false, T, T, sio, dio);
      var ended := EndSpec(started.disk, Some(Parsed(T + 1800000)), false, T, sio, dio);
      && started.result.Ok?
      && ended.result.Ok?
      && ended.disk == Disk(None, Store(true, [TaskRow(Task("acme", T, T + 1800000, None))]))
  {
    var started := StartSpec(Disk(None, Store(false, [])), "acme", None, None, false, T, T, sio, dio);
    assert started.disk == Disk(Some(CurrentTask("acme", T, None)), Store(false, []));
    AppendTaskCreatesTable(Store(false, []), Task("acme", T, T + 1800000, None), dio);
  }

  /** `cli::start` */
  method Start(file: CurrentFile, db: DatabaseFile, projectName: string, startArg: Option<ParsedTime>,
               description: Option<string>, overwrite: bool, endNow: Instant, startNow: Instant,
               sio: SlotIo, dio: DbIo) returns (r: Result<(), Error>)
    requires db.Valid()
    modifies file, db
    ensures db.Valid()
    ensures Step(r, Disk(file.task, db.Value()))
            == StartSpec(Disk(old(file.task), old(db.Value())), projectName, startArg, description,
                         overwrite, endNow, startNow, sio, dio)
  {
    if !overwrite {
      var ended := EndCurrentTask(file, db, None, false, endNow, sio, dio);
      if ended.Err? {
        return Err(ended.error);
      }
    }

    var startTime: Option<Instant>;
    match startArg {
      case Some(Unparsable) => return Err(BadDateTime);
      case Some(Parsed(st)) => startTime := Some(st);
      case None => startTime := None;
    }

    var started := StartTask(file, projectName, startTime, description, startNow, sio);
    if started.Err? {
      return Err(started.error);
    }
    r := Ok(());
  }

  /** `cli::end` */
  method End(file: CurrentFile, db: DatabaseFile, endArg: Option<ParsedTime>, discard: bool, now: Instant,
             sio: SlotIo, dio: DbIo) returns (r: Result<(), Error>)
    requires db.Valid()
    modifies file, db
    ensures db.Valid()
    ensures Step(r, Disk(file.task, db.Value()))
            == EndSpec(Disk(old(file.task), old(db.Value())), endArg, discard, now, sio, dio)
  {
    var endTime: Option<Instant>;
    match endArg {
      case Some(Unparsable) => return Err(BadDateTime);
      case Some(Parsed(et)) => endTime := Some(et);
      case None => endTime := None;
    }

    var ended := EndCurrentTask(file, db, endTime, discard, now, sio, dio);
    if ended.Err? {
      return Err(ended.error);
    }
    r := Ok(());
  }

  /** `cli::add`: it is given the database only, never the current-task file. */
  method Add(db: DatabaseFile, projectName: string, startArg: ParsedTime, endArg: ParsedTime,
             description: Option<string>, dio: DbIo) returns (r: Result<(), Error>)
    requires db.Valid()
    modifies db
    ensures db.Valid()
    ensures (r, db.Value()) == AddSpec(old(db.Value()), projectName, startArg, endArg, description, dio)
  {
    if startArg.Unparsable? || endArg.Unparsable? {
      return Err(BadDateTime);
    }
    var task := Task(projectName, startArg.instant, endArg.instant, description);
    r := db.AppendTask(task, dio);
  }

  /** `cli::view`: the current task, read without changing anything; it
      fails exactly when there is none or it cannot be read. */
  method View(file: CurrentFile, sio: SlotIo) returns (r: Result<CurrentTask, Error>)
    ensures r == LoadSpec(file.task, sio)
  {
    r := file.Load(sio);
  }
}
