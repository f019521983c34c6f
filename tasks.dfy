/** The running task, the finished task and the transition between them, and
    the current-task file that holds the running task (src/tasks.rs:85-238). */
module Tasks {
  import opened Wrappers

  /** An instant (a chrono `DateTime<Utc>`), in milliseconds since the Unix epoch. */
  type Instant = int

  /** The errors the operations report; the source carries them in `anyhow::Error`. */
  datatype Error =
    | EndBeforeStart(endTime: Instant, startTime: Instant)
    | NoSuchFile    // the current-task file is absent when it is read or removed
    | FileIo        // any other failure to read, decode, write or remove that file
    | Database      // any failure of the SQLite database
    | BadDateTime   // a date/time argument that could not be parsed

  /** A task that has started and is still running (`CurrentTask`). */
  datatype CurrentTask = CurrentTask(projectName: string, startTime: Instant, description: Option<string>)

  /** A finished task (`Task`). Nothing in the type orders its two instants. */
  datatype Task = Task(projectName: string, startTime: Instant, endTime: Instant, description: Option<string>)

  /** `Task::duration`: the time from the start to the end, negative when
      the end precedes the start. */
  function TaskDuration(t: Task): (d: int)
    ensures t.startTime + d == t.endTime
    ensures d >= 0 <==> t.startTime <= t.endTime
  {
    t.endTime - t.startTime
  }

  /** `CurrentTask::end_with_time`: close the task at `time`, refusing a time
      before the start. */
  function EndWithTime(c: CurrentTask, time: Instant): (r: Result<Task, Error>)
    ensures r.Err? <==> time < c.startTime
    ensures r.Err? ==> r.error == EndBeforeStart(time, c.startTime)
    ensures r.Ok? ==> r.value.projectName == c.projectName && r.value.description == c.description
    ensures r.Ok? ==> r.value.startTime == c.startTime && r.value.endTime == time
    ensures r.Ok? ==> TaskDuration(r.value) == time - c.startTime >= 0
  {
    if time < c.startTime then Err(EndBeforeStart(time, c.startTime))
    else Ok(Task(c.projectName, c.startTime, time, c.description))
  }

  /** `CurrentTask::end`, that is `Task::from`: close the task at the clock
      reading `now`, without comparing it with the start. */
  function EndNow(c: CurrentTask, now: Instant): (t: Task)
    ensures t.projectName == c.projectName && t.description == c.description
    ensures t.startTime == c.startTime && t.endTime == now
  {
    Task(c.projectName, c.startTime, now, c.description)
  }

  /** Ending at the clock and ending at an explicit time close to the same
      task whenever the explicit time is accepted; only the explicit form can
      refuse, so `EndNow` yields a task of negative duration when the clock
      is behind the start. */
  lemma EndNowAgreesWithEndWithTime(c: CurrentTask, now: Instant)
    ensures now >= c.startTime ==> EndWithTime(c, now) == Ok(EndNow(c, now))
    ensures now < c.startTime ==> EndWithTime(c, now).Err? && TaskDuration(EndNow(c, now)) < 0
  {
  }

  /** Which file-system calls on the current-task file succeed during one
      command: reading its metadata (`Path::exists` answers false when it
      cannot, even for a file that is there), reading and decoding it,
      encoding and writing it, removing it. */
  datatype SlotIo = SlotIo(statOk: bool, readOk: bool, writeOk: bool, removeOk: bool)

  /** What reading the current-task file gives (`CurrentTask::load`), given
      its content: the stored task, or the reason there is none. */
  function LoadSpec(content: Option<CurrentTask>, io: SlotIo): (r: Result<CurrentTask, Error>)
    ensures r.Ok? <==> content.Some? && io.readOk
    ensures r.Ok? ==> content == Some(r.value)
    ensures content.None? ==> r == Err(NoSuchFile)
    ensures content.Some? && !io.readOk ==> r == Err(FileIo)
  {
    if content.None? then Err(NoSuchFile)
    else if !io.readOk then Err(FileIo)
    else Ok(content.value)
  }

  /** The current-task file. `task` is None when the file does not exist and
      otherwise the task its JSON content decodes to. */
  class CurrentFile {
    var task: Option<CurrentTask>

    constructor (initial: Option<CurrentTask>)
      ensures task == initial
    {
      task := initial;
    }

    /** `current_file.exists()`: true when the file is there and its
        metadata can be read. */
    method Exists(io: SlotIo) returns (present: bool)
      ensures present <==> task.Some? && io.statOk
    {
      present := task.Some? && io.statOk;
    }

    /** `CurrentTask::save`: replace the file's content by `c`, whatever it
        held, and hand `c` back. */
    method Save(c: CurrentTask, io: SlotIo) returns (r: Result<CurrentTask, Error>)
      modifies this
      ensures io.writeOk ==> r == Ok(c) && task == Some(c)
      ensures !io.writeOk ==> r == Err(FileIo) && task == old(task)
    {
      if !io.writeOk {
        return Err(FileIo);
      }
      task := Some(c);
      r := Ok(c);
    }

    /** `CurrentTask::load`: the task the file holds. */
    method Load(io: SlotIo) returns (r: Result<CurrentTask, Error>)
      ensures r == LoadSpec(task, io)
    {
      if task.None? {
        return Err(NoSuchFile);
      }
      if !io.readOk {
        return Err(FileIo);
      }
      r := Ok(task.value);
    }

    /** `fs::remove_file(current_file)` */
    method Remove(io: SlotIo) returns (r: Result<(), Error>)
      modifies this
      ensures old(task).None? ==> r == Err(NoSuchFile) && task == old(task)
      ensures old(task).Some? && !io.removeOk ==> r == Err(FileIo) && task == old(task)
      ensures old(task).Some? && io.removeOk ==> r == Ok(()) && task.None?
    {
      if task.None? {
        return Err(NoSuchFile);
      }
      if !io.removeOk {
        return Err(FileIo);
      }
      task := None;
      r := Ok(());
    }
  }
}
