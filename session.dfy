/** The interpreter's state as the program keeps it: the database files and the
    one currently open (currentDB), updated statement by statement. Each
    statement's transaction runs its loops from the Transactions module and the
    SELECT passes from the Query module. */
module Session {
  import opened Wrappers
  import opened Bolt
  import opened Statements
  import opened Query
  import opened Tables
  import opened Transactions
  import opened Executor

  /** createTable's transaction: CreateBucketIfNotExists, then the column loop. */
  method CreateTableTx(s: Store, parsed: Parse<CreateTableStmt>) returns (out: Outcome, after: Store)
    ensures (out, after) == CreateTableFrom(s, parsed)
  {
    match parsed
    case BadSyntax => return InvalidCreateTableSyntax, s;
    case Panics => return Crashed, s;
    case Parsed(stmt) =>
      var b := CreateBucketIfNotExists(s, stmt.table)[stmt.table];
      var defined := DefineColumns(b, stmt.definitions);
      if defined.None? {
        return Crashed, s;
      }
      return TableCreated(stmt.table), s[stmt.table := defined.value];
  }

  /** insertIntoTable's transaction: the bucket must exist. */
  method InsertTx(s: Store, parsed: Parse<InsertStmt>) returns (out: Outcome, after: Store)
    ensures (out, after) == InsertFrom(s, parsed)
  {
    match parsed
    case BadSyntax => return InvalidInsertSyntax, s;
    case Panics => return Crashed, s;
    case Parsed(stmt) =>
      if stmt.table !in s {
        return Failed(InsertingIntoTable, NoSuchTable(stmt.table)), s;
      }
      var inserted := InsertCells(s[stmt.table], stmt.columns, stmt.values);
      if inserted.None? {
        return Crashed, s;
      }
      return RecordInserted(stmt.table), s[stmt.table := inserted.value];
  }

  /** selectFromTable's read-only transaction. */
  method SelectTx(s: Store, parsed: Option<SelectStmt>) returns (out: Outcome)
    ensures out == SelectFrom(s, parsed)
  {
    match parsed
    case None => return Crashed;
    case Some(stmt) =>
      if stmt.table !in s {
        return Failed(SelectingFromTable, NoSuchTable(stmt.table));
      }
      var answer := SelectRows(s[stmt.table], stmt.columns, stmt.where);
      return Selected(answer);
  }

  /** updateTable's transaction. */
  method UpdateTx(s: Store, parsed: Option<UpdateStmt>) returns (out: Outcome, after: Store)
    ensures (out, after) == UpdateFrom(s, parsed)
  {
    match parsed
    case None => return Crashed, s;
    case Some(stmt) =>
      if stmt.table !in s {
        return Failed(UpdatingTable, NoSuchTable(stmt.table)), s;
      }
      var updated := UpdateLoop(s[stmt.table], stmt.setColumn, stmt.setValue, stmt.condition);
      if updated.None? {
        return Crashed, s;
      }
      return TableUpdated(stmt.table), s[stmt.table := updated.value];
  }

  /** deleteFromTable's transaction. */
  method DeleteTx(s: Store, parsed: Option<DeleteStmt>) returns (out: Outcome, after: Store)
    ensures (out, after) == DeleteFrom(s, parsed)
  {
    match parsed
    case None => return Crashed, s;
    case Some(stmt) =>
      if stmt.table !in s {
        return Failed(DeletingFromTable, NoSuchTable(stmt.table)), s;
      }
      var deleted := DeleteLoop(s[stmt.table], stmt.condition);
      if deleted.None? {
        return Crashed, s;
      }
      return RecordsDeleted(stmt.table), s[stmt.table := deleted.value];
  }

  /** The running interpreter: every database file by name, and currentDB. */
  class Interpreter {
    var files: map<string, Store>
    var current: Option<string>

    /** currentDB, when set, is one of the files. */
    predicate Valid()
      reads this
    {
      current.Some? ==> current.value in files
    }

    /** The state as a value. */
    function Now(): State
      reads this
    {
      State(files, current)
    }

    /** Start-up: the files already on disk, no database open. */
    constructor (existing: map<string, Store>)
      ensures files == existing && current == None && Valid()
    {
      files := existing;
      current := None;
    }

    /** createDatabase: open (creating) the file and make it current. */
    method CreateDatabase(name: string) returns (out: Outcome)
      requires Valid()
      modifies this
      ensures Valid()
      ensures out == DatabaseCreated(name) && Now() == Open(old(Now()), name)
    {
      OpenFile(name);
      out := DatabaseCreated(name);
    }

    /** useDatabase: the same as createDatabase but for the message. */
    method UseDatabase(name: string) returns (out: Outcome)
      requires Valid()
      modifies this
      ensures Valid()
      ensures out == UsingDatabase(name) && Now() == Open(old(Now()), name)
    {
      OpenFile(name);
      out := UsingDatabase(name);
    }

    /** Close the open database and bolt.Open the named file, creating it empty. */
    method OpenFile(name: string)
      modifies this
      ensures files == old(if name in files then files else files[name := map[]])
      ensures current == Some(name)
    {
      if name !in files {
        files := files[name := map[]];
      }
      current := Some(name);
    }

    /** Run a transaction on the open database and keep what it leaves. */
    method Commit(after: Store)
      requires current.Some?
      modifies this
      ensures files == old(files[current.value := after]) && current == old(current)
    {
      files := files[current.value := after];
    }

    method CreateTable(query: string) returns (out: Outcome)
      requires Valid()
      modifies this
      ensures Valid()
      ensures (out, Now()) == OnOpen(old(Now()), Command.CreateTable, query)
    {
      if current.None? {
        return NoDatabaseSelected;
      }
      var after;
      out, after := CreateTableTx(files[current.value], ParseCreateTable(query));
      Commit(after);
    }

    method InsertIntoTable(query: string) returns (out: Outcome)
      requires Valid()
      modifies this
      ensures Valid()
      ensures (out, Now()) == OnOpen(old(Now()), Command.Insert, query)
    {
      if current.None? {
        return NoDatabaseSelected;
      }
      var after;
      out, after := InsertTx(files[current.value], ParseInsert(query));
      Commit(after);
    }

    method SelectFromTable(query: string) returns (out: Outcome)
      requires Valid()
      ensures (out, Now()) == OnOpen(Now(), Command.Select, query)
    {
      if current.None? {
        return NoDatabaseSelected;
      }
      out := SelectTx(files[current.value], ParseSelect(query));
      assert out == SelectIn(files[current.value], query);
      SelectOnOpen(Now(), query);
    }

    method UpdateTable(query: string) returns (out: Outcome)
      requires Valid()
      modifies this
      ensures Valid()
      ensures (out, Now()) == OnOpen(old(Now()), Command.Update, query)
    {
      if current.None? {
        return NoDatabaseSelected;
      }
      var after;
      out, after := UpdateTx(files[current.value], ParseUpdate(query));
      Commit(after);
    }

    method DeleteFromTable(query: string) returns (out: Outcome)
      requires Valid()
      modifies this
      ensures Valid()
      ensures (out, Now()) == OnOpen(old(Now()), Command.Delete, query)
    {
      if current.None? {
        return NoDatabaseSelected;
      }
      var after;
      out, after := DeleteTx(files[current.value], ParseDelete(query));
      Commit(after);
    }

    /** dropTable: tx.DeleteBucket, which fails on a missing bucket. */
    method DropTable(name: string, query: string) returns (out: Outcome)
      requires Valid()
      modifies this
      ensures Valid()
      ensures (out, Now()) == OnOpen(old(Now()), Command.DropTable(name), query)
    {
      if current.None? {
        return NoDatabaseSelected;
      }
      var s := files[current.value];
      if name !in s {
        assert files[current.value := s] == files;
        return Failed(DroppingTable, BucketNotFound);
      }
      Commit(s - {name});
      out := TableDropped(name);
    }

    /** processQuery: split the line into words and dispatch on the first. */
    method ProcessQuery(query: string) returns (out: Outcome)
      requires Valid()
      modifies this
      ensures Valid()
      ensures (out, Now()) == Step(old(Now()), query)
    {
      out := DispatchCommand(Classify(query), query);
    }

    /** The switch of processQuery on a classified line. */
    method DispatchCommand(c: Command, query: string) returns (out: Outcome)
      requires Valid()
      modifies this
      ensures Valid()
      ensures (out, Now()) == Dispatch(old(Now()), c, query)
    {
      match c
      case NoCommand => out := NoCommandProvided;
      case InvalidCreate => out := InvalidCreateCommand;
      case InvalidDrop => out := InvalidDropCommand;
      case Unknown => out := UnknownCommand;
      case Panic => out := Crashed;
      case CreateDatabase(name) => out := CreateDatabase(name);
      case Use(name) => out := UseDatabase(name);
      case CreateTable => out := CreateTable(query);
      case Insert => out := InsertIntoTable(query);
      case Select => out := SelectFromTable(query);
      case Update => out := UpdateTable(query);
      case Delete => out := DeleteFromTable(query);
      case DropTable(name) => out := DropTable(name, query);
    }
  }
}
