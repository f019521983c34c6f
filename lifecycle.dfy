/** Starting a task into the current-task file and ending the current task
    into the database (src/tasks.rs:240-282). */
module Lifecycle {
  import opened Wrappers
  import opened Tasks
  import opened Database

  /** Everything the program keeps between runs: the current-task file and
      the database. */
  datatype Disk = Disk(current: Option<CurrentTask>, store: Store)

  /** The outcome of an operation together with the disk after it. */
  datatype Step<T> = Step(result: Result<T, Error>, disk: Disk)

  /** The running task `start_task` builds: `CurrentTask::new` with the
      given start time, or `CurrentTask::start` with the clock reading. */
  function NewTask(projectName: string, startTime: Option<Instant>, description: Option<string>, now: Instant): (c: CurrentTask)
    ensures c.projectName == projectName && c.description == description
    ensures startTime.Some? ==> c.startTime == startTime.value
    ensures startTime.None? ==> c.startTime == now
  {
    match startTime
    case Some(st) => CurrentTask(projectName, st, description)
    case None => CurrentTask(projectName, now, description)
  }

  /** `start_task` on the current-task file's content: the outcome and the
      content afterwards. */
  function StartTaskSpec(current: Option<CurrentTask>, projectName: string, startTime: Option<Instant>,
                         description: Option<string>, now: Instant, io: SlotIo): (Result<CurrentTask, Error>, Option<CurrentTask>)
  {
    var c := NewTask(projectName, startTime, description, now);
    if io.writeOk then (Ok(c), Some(c)) else (Err(FileIo), current)
  }

  /** `start_task` succeeds exactly when the write does; it then replaces
      whatever the file held (no implicit end), and returns the task it
      wrote, whose start is the given time or else the clock reading. A
      later load gives that same task back. */
  lemma StartTaskOverwrites(current: Option<CurrentTask>, projectName: string, startTime: Option<Instant>,
                            description: Option<string>, now: Instant, io: SlotIo)
    ensures var (r, current') := StartTaskSpec(current, projectName, startTime, description, now, io);
      && (r.Ok? <==> io.writeOk)
      && (r.Ok? ==> current' == Some(r.value) && r.value.projectName == projectName
                    && r.value.description == description
                    && r.value.startTime == (if startTime.Some? then startTime.value else now))
      && (r.Ok? && io.readOk ==> LoadSpec(current', io) == r)
      && (r.Err? ==> r.error == FileIo && current' == current)
  {
  }

  /** The task `end_current_task` closes: at the given end time, which must
      not precede the start, or at the clock reading, unchecked. */
  function CloseTask(c: CurrentTask, endTime: Option<Instant>, now: Instant): (r: Result<Task, Error>)
    ensures r.Ok? <==> endTime.None? || c.startTime <= endTime.value
    ensures r.Err? ==> r.error == EndBeforeStart(endTime.value, c.startTime)
    ensures r.Ok? ==> && r.value.projectName == c.projectName && r.value.startTime == c.startTime
                      && r.value.description == c.description
                      && r.value.endTime == (if endTime.Some? then endTime.value else now)
  {
    match endTime
    case Some(t) => EndWithTime(c, t)
    case None => Ok(EndNow(c, now))
  }

  /** `end_current_task` on the disk: the outcome and the disk afterwards. */
  function EndCurrentTaskSpec(d: Disk, endTime: Option<Instant>, discard: bool, now: Instant,
                              sio: SlotIo, dio: DbIo): Step<Option<Task>>
  {
    match d.current
    case None => Step(Ok(None), d)
    case Some(c) =>
      if !sio.statOk then Step(Ok(None), d)
      else if !sio.readOk then Step(Err(FileIo), d)
      else
        var closed := CloseTask(c, endTime, now);
        if closed.Err? then Step(Err(closed.error), d)
        else
          var (appended, store) := if discard then (Ok(()), d.store) else AppendTaskSpec(d.store, closed.value, dio);
          if appended.Err? then Step(Err(appended.error), d.(store := store))
          else if !sio.removeOk then Step(Err(FileIo), d.(store := store))
          else Step(Ok(Some(closed.value)), Disk(None, store))
  }

  /** With no current task there is nothing to end: `Ok(None)`, nothing changes. */
  lemma EndCurrentTaskWhenIdle(d: Disk, endTime: Option<Instant>, discard: bool, now: Instant, sio: SlotIo, dio: DbIo)
    requires d.current.None?
    ensures EndCurrentTaskSpec(d, endTime, discard, now, sio, dio) == Step(Ok(None), d)
  {
  }

  /** A current-task file whose metadata cannot be read is taken for no file:
      `Ok(None)`, and the task stays in its file without being stored. */
  lemma EndCurrentTaskMissesUnreadableFile(d: Disk, endTime: Option<Instant>, discard: bool, now: Instant, sio: SlotIo, dio: DbIo)
    requires d.current.Some? && !sio.statOk
    ensures EndCurrentTaskSpec(d, endTime, discard, now, sio, dio) == Step(Ok(None), d)
  {
  }

  /** An explicit end time before the start is refused and changes nothing,
      so the command can be retried with a corrected time. */
  lemma EndCurrentTaskRejectsEarlyEnd(d: Disk, t: Instant, discard: bool, now: Instant, sio: SlotIo, dio: DbIo)
    requires d.current.Some? && sio.statOk && sio.readOk && t < d.current.value.startTime
    ensures EndCurrentTaskSpec(d, Some(t), discard, now, sio, dio)
              == Step(Err(EndBeforeStart(t, d.current.value.startTime)), d)
  {
  }

  /** The end time is checked only when one is given: ending at the clock
      closes the task even when the clock is behind its start. */
  lemma EndCurrentTaskAtClockNeverRejects(d: Disk, discard: bool, now: Instant, sio: SlotIo, dio: DbIo)
    ensures var r := EndCurrentTaskSpec(d, None, discard, now, sio, dio).result;
      r.Err? ==> !r.error.EndBeforeStart?
  {
  }

  /** A failed append keeps the current task in its file and every stored row. */
  lemma EndCurrentTaskAppendFailure(d: Disk, endTime: Option<Instant>, now: Instant, sio: SlotIo, dio: DbIo)
    requires d.current.Some? && sio.statOk && sio.readOk
    requires CloseTask(d.current.value, endTime, now).Ok?
    requires AppendTaskSpec(d.store, CloseTask(d.current.value, endTime, now).value, dio).0.Err?
    ensures var step := EndCurrentTaskSpec(d, endTime, false, now, sio, dio);
      step.result == Err(Database) && step.disk.current == d.current && step.disk.store.rows == d.store.rows
  {
  }

  /** Every failure leaves the current task in its file. */
  lemma EndCurrentTaskKeepsTaskOnError(d: Disk, endTime: Option<Instant>, discard: bool, now: Instant, sio: SlotIo, dio: DbIo)
    ensures var step := EndCurrentTaskSpec(d, endTime, discard, now, sio, dio);
      step.result.Err? ==> step.disk.current == d.current
  {
  }

  /** On success the current task is closed, the file is gone, and the store
      has grown by exactly the closed task's row, unless it was discarded. */
  lemma EndCurrentTaskSuccess(d: Disk, endTime: Option<Instant>, discard: bool, now: Instant, sio: SlotIo, dio: DbIo)
    requires ValidStore(d.store) && d.current.Some? && sio.statOk
    requires EndCurrentTaskSpec(d, endTime, discard, now, sio, dio).result.Ok?
    ensures var step := EndCurrentTaskSpec(d, endTime, discard, now, sio, dio);
      var t := CloseTask(d.current.value, endTime, now).value;
      && CloseTask(d.current.value, endTime, now).Ok?
      && step.result == Ok(Some(t))
      && step.disk.current.None?
      && step.disk.store.rows == d.store.rows + (if discard then [] else [TaskRow(t)])
  {
  }

  /** `end_current_task` succeeds exactly when there is nothing to end, or
      when reading, closing, appending (unless discarding) and removing all
      succeed. */
  lemma EndCurrentTaskSucceedsIff(d: Disk, endTime: Option<Instant>, discard: bool, now: Instant, sio: SlotIo, dio: DbIo)
    ensures EndCurrentTaskSpec(d, endTime, discard, now, sio, dio).result.Ok?
      <==> d.current.None?
           || !sio.statOk
           || (&& sio.readOk
               && CloseTask(d.current.value, endTime, now).Ok?
               && (discard || AppendTaskSpec(d.store, CloseTask(d.current.value, endTime, now).value, dio).0.Ok?)
               && sio.removeOk)
  {
  }

  /** The file is removed only after the append: when the removal fails, the
      closed task is both stored and still current, and ending it again
      stores it a second time. */
  lemma EndCurrentTaskRetryAfterFailedRemove(d: Disk, t: Instant, sio: SlotIo, dio: DbIo)
    requires ValidStore(d.store) && d.current.Some? && t >= d.current.value.startTime
    requires sio.statOk && sio.readOk && !sio.removeOk && AllOk(dio)
    ensures var first := EndCurrentTaskSpec(d, Some(t), false, t, sio, dio);
      var second := EndCurrentTaskSpec(first.disk, Some(t), false, t, sio.(removeOk := true), dio);
      var row := TaskRow(EndWithTime(d.current.value, t).value);
      && first.result == Err(FileIo)
      && first.disk.current == d.current
      && second.result.Ok?
      && second.disk.current.None?
      && second.disk.store.rows == d.store.rows + [row, row]
  {
  }

  /** `start_task` */
  method StartTask(file: CurrentFile, projectName: string, startTime: Option<Instant>,
                   description: Option<string>, now: Instant, io: SlotIo) returns (r: Result<CurrentTask, Error>)
    modifies file
    ensures (r, file.task) == StartTaskSpec(old(file.task), projectName, startTime, description, now, io)
  {
    r := file.Save(NewTask(projectName, startTime, description, now), io);
  }

  /** `end_current_task` */
  method EndCurrentTask(file: CurrentFile, db: DatabaseFile, endTime: Option<Instant>, discard: bool,
                        now: Instant, sio: SlotIo, dio: DbIo) returns (r: Result<Option<Task>, Error>)
    requires db.Valid()
    modifies file, db
    ensures db.Valid()
    ensures Step(r, Disk(file.task, db.Value()))
            == EndCurrentTaskSpec(Disk(old(file.task), old(db.Value())), endTime, discard, now, sio, dio)
  {
    var present := file.Exists(sio);
    if !present {
      return Ok(None);
    }

    var loaded := file.Load(sio);
    if loaded.Err? {
      return Err(loaded.error);
    }

    var task: Task;
    match endTime {
      case Some(t) =>
        var closed := EndWithTime(loaded.value, t);
        if closed.Err? {
          return Err(closed.error);
        }
        task := closed.value;
      case None =>
        task := EndNow(loaded.value, now);
    }

    if !discard {
      var appended := db.AppendTask(task, dio);
      if appended.Err? {
        return Err(appended.error);
      }
    }

    var removed := file.Remove(sio);
    if removed.Err? {
      return Err(removed.error);
    }
    r := Ok(Some(task));
  }
}
