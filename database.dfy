/** The SQLite database of finished tasks (src/database.rs): a `tasks` table
    created on first use, to which rows are only ever appended. */
module Database {
  import opened Wrappers
  import opened Tasks

  /** The text `DateTime::to_rfc3339` gives of an instant (section 5.6 of
      RFC 3339). Only its injectivity matters to this model, so the text is
      represented by the instant it was made from. */
  datatype Rfc3339 = Rfc3339(instant: Instant)

  /** A row of the `tasks` table. The three first columns are NOT NULL; the
      description column is nullable and None stands for SQL NULL. */
  datatype Row = Row(projectName: string, startTime: Rfc3339, endTime: Rfc3339, description: Option<string>)

  /** The row `append_task` inserts for a task. */
  function TaskRow(t: Task): (row: Row)
    ensures row.projectName == t.projectName && row.description == t.description
    ensures row.startTime == Rfc3339(t.startTime) && row.endTime == Rfc3339(t.endTime)
  {
    Row(t.projectName, Rfc3339(t.startTime), Rfc3339(t.endTime), t.description)
  }

  /** Distinct tasks are stored as distinct rows: a row determines its task. */
  lemma TaskRowInjective(a: Task, b: Task)
    requires TaskRow(a) == TaskRow(b)
    ensures a == b
  {
  }

  /** The database file's content: whether the `tasks` table exists and its
      rows in insertion order. */
  datatype Store = Store(hasTasksTable: bool, rows: seq<Row>)

  /** A database without the table holds no rows. */
  predicate ValidStore(s: Store) {
    !s.hasTasksTable ==> s.rows == []
  }

  /** Which SQLite calls succeed during one append: opening a connection,
      looking the table up in `sqlite_master`, `CREATE TABLE`, `INSERT`. */
  datatype DbIo = DbIo(openOk: bool, lookupOk: bool, createOk: bool, insertOk: bool)

  predicate AllOk(io: DbIo) {
    io.openOk && io.lookupOk && io.createOk && io.insertOk
  }

  /** `append_task` as a function of the database content: its outcome and
      the content afterwards. A failed insert leaves a table it just created. */
  function AppendTaskSpec(s: Store, t: Task, io: DbIo): (Result<(), Error>, Store) {
    if !io.openOk || !io.lookupOk then (Err(Database), s)
    else if !s.hasTasksTable && !io.createOk then (Err(Database), s)
    else if !io.insertOk then (Err(Database), s.(hasTasksTable := true))
    else (Ok(()), Store(true, s.rows + [TaskRow(t)]))
  }

  /** An append succeeds exactly when every SQLite call it makes succeeds
      (`CREATE TABLE` is made only when the table is missing); it then adds
      exactly the task's row after all earlier rows, and it checks nothing
      about the task itself. A failed append keeps every row. */
  lemma AppendTaskOutcome(s: Store, t: Task, io: DbIo)
    requires ValidStore(s)
    ensures var (r, s') := AppendTaskSpec(s, t, io);
      && ValidStore(s')
      && (r.Ok? <==> io.openOk && io.lookupOk && (s.hasTasksTable || io.createOk) && io.insertOk)
      && (r.Ok? ==> s' == Store(true, s.rows + [TaskRow(t)]))
      && (r.Err? ==> s'.rows == s.rows)
      && (s.hasTasksTable ==> s'.hasTasksTable)
  {
  }

  /** With no table yet, a successful append creates it and leaves exactly one row. */
  lemma AppendTaskCreatesTable(s: Store, t: Task, io: DbIo)
    requires ValidStore(s) && !s.hasTasksTable && AllOk(io)
    ensures AppendTaskSpec(s, t, io) == (Ok(()), Store(true, [TaskRow(t)]))
  {
    assert s.rows + [TaskRow(t)] == [TaskRow(t)];
  }

  /** The database file. */
  class DatabaseFile {
    var hasTasksTable: bool
    var rows: seq<Row>

    function Value(): Store
      reads this
    {
      Store(hasTasksTable, rows)
    }

    predicate Valid()
      reads this
    {
      ValidStore(Value())
    }

    constructor (initial: Store)
      requires ValidStore(initial)
      ensures Valid() && Value() == initial
    {
      hasTasksTable := initial.hasTasksTable;
      rows := initial.rows;
    }

    /** `table_exists(file, "tasks")` */
    method TableExists(io: DbIo) returns (r: Result<bool, Error>)
      ensures io.openOk && io.lookupOk ==> r == Ok(hasTasksTable)
      ensures !(io.openOk && io.lookupOk) ==> r == Err(Database)
    {
      if !io.openOk || !io.lookupOk {
        return Err(Database);
      }
      r := Ok(hasTasksTable);
    }

    /** `create_tasks_table`: a plain `CREATE TABLE`, which SQLite refuses
        when the table exists already. */
    method CreateTasksTable(io: DbIo) returns (r: Result<(), Error>)
      modifies this
      ensures rows == old(rows)
      ensures r.Ok? <==> io.openOk && io.createOk && !old(hasTasksTable)
      ensures r.Err? ==> r.error == Database
      ensures hasTasksTable == (old(hasTasksTable) || r.Ok?)
    {
      if !io.openOk || !io.createOk || hasTasksTable {
        return Err(Database);
      }
      hasTasksTable := true;
      r := Ok(());
    }

    /** `append_task`: create the table if the lookup says it is missing,
        then insert the task's row. */
    method AppendTask(t: Task, io: DbIo) returns (r: Result<(), Error>)
      requires Valid()
      modifies this
      ensures Valid()
      ensures (r, Value()) == AppendTaskSpec(old(Value()), t, io)
    {
      if !io.openOk {
        return Err(Database);
      }
      var found := TableExists(io);
      if found.Err? {
        return Err(found.error);
      }
      if !found.value {
        var created := CreateTasksTable(io);
        if created.Err? {
          return Err(created.error);
        }
      }
      if !io.insertOk {
        return Err(Database);
      }
      rows := rows + [TaskRow(t)];
      r := Ok(());
    }
  }
}
