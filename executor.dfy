/** What one line does: the message it prints and the databases afterwards.
    Each statement runs in one read-write (or read-only) transaction, so a panic
    inside it leaves the database as it was. */
module Executor {
  import opened Wrappers
  import opened GoStrings
  import opened Bolt
  import opened Keys
  import opened Statements
  import opened Query
  import opened Tables

  /** The statement an "Error ...:" message names. */
  datatype Action = CreatingTable | InsertingIntoTable | SelectingFromTable | UpdatingTable | DeletingFromTable | DroppingTable

  /** Why a transaction failed: the executor's own "table %s does not exist", or
      the store's "bucket not found" from DeleteBucket. */
  datatype Cause = NoSuchTable(table: string) | BucketNotFound

  /** What processQuery prints, as data. Crashed is a runtime panic, which ends the
      interpreter. */
  datatype Outcome =
    | NoCommandProvided
    | InvalidCreateCommand
    | InvalidDropCommand
    | UnknownCommand
    | NoDatabaseSelected
    | InvalidCreateTableSyntax
    | InvalidInsertSyntax
    | DatabaseCreated(name: string)
    | UsingDatabase(name: string)
    | TableCreated(table: string)
    | RecordInserted(table: string)
    | Selected(answer: Answer)
    | TableUpdated(table: string)
    | RecordsDeleted(table: string)
    | TableDropped(table: string)
    | Failed(action: Action, cause: Cause)
    | Crashed

  /** The database files by name, and the one currently open. */
  datatype State = State(disk: map<string, Store>, current: Option<string>)

  predicate Valid(st: State) {
    st.current.Some? ==> st.current.value in st.disk
  }

  /** createDatabase and useDatabase alike: close the open database, then open
      (creating when missing) the file of that name and make it current. */
  function Open(st: State, name: string): (r: State)
    ensures Valid(r) && r.current == Some(name)
    ensures r.disk.Keys == st.disk.Keys + {name}
    ensures forall n | n in st.disk :: r.disk[n] == st.disk[n]
    ensures name !in st.disk ==> r.disk[name] == map[]
  {
    State(if name in st.disk then st.disk else st.disk[name := map[]], Some(name))
  }

  /** CREATE TABLE on the open database. Only success writes anything. */
  function CreateTableIn(s: Store, query: string): (r: (Outcome, Store))
    ensures !r.0.TableCreated? ==> r.1 == s
    ensures r.0.TableCreated? ==> r.0.table in r.1 && r.1 == s[r.0.table := r.1[r.0.table]]
  {
    CreateTableFrom(s, ParseCreateTable(query))
  }

  /** CREATE TABLE after its statement has been read, or failed to be. */
  function CreateTableFrom(s: Store, p: Parse<CreateTableStmt>): (r: (Outcome, Store))
    ensures !r.0.TableCreated? ==> r.1 == s
    ensures r.0.TableCreated? ==> r.0.table in r.1 && r.1 == s[r.0.table := r.1[r.0.table]]
  {
    match p
    case BadSyntax => (InvalidCreateTableSyntax, s)
    case Panics => (Crashed, s)
    case Parsed(stmt) => CreateTableParsed(s, stmt)
  }

  /** The transaction of CREATE TABLE once the statement is read; a blank
      definition panics on its first word. */
  function CreateTableParsed(s: Store, stmt: CreateTableStmt): (r: (Outcome, Store))
    ensures r.0.Crashed? <==> AnyBlank(stmt.definitions)
    ensures r.0.Crashed? ==> r.1 == s
    ensures !r.0.Crashed? ==> r.0 == TableCreated(stmt.table)
    ensures !r.0.Crashed? ==> stmt.table in r.1 && r.1 == s[stmt.table := r.1[stmt.table]]
    ensures !AnyBlank(stmt.definitions) ==> r.1 == DefineTable(s, stmt.table, stmt.definitions)
  {
    if AnyBlank(stmt.definitions) then (Crashed, s)
    else (TableCreated(stmt.table), DefineTable(s, stmt.table, stmt.definitions))
  }

  /** CreateBucketIfNotExists, then one Put per column definition. */
  function DefineTable(s: Store, table: string, definitions: seq<string>): (r: Store)
    requires !AnyBlank(definitions)
    ensures table in r && r == s[table := r[table]]
    ensures Contents(r[table]) ==
      (if table in s then Contents(s[table]) else map[]) + Overlay(SchemaEntries(definitions))
    ensures r[table].sequence == (if table in s then s[table].sequence else 0)
  {
    var b := CreateBucketIfNotExists(s, table)[table];
    s[table := PutAll(b, SchemaEntries(definitions))]
  }

  /** INSERT INTO on the open database. Only success writes anything, and only
      to the named table. */
  function InsertIn(s: Store, query: string): (r: (Outcome, Store))
    ensures !r.0.RecordInserted? ==> r.1 == s
    ensures r.0.RecordInserted? ==>
      r.0.table in s && r.0.table in r.1 && r.1 == s[r.0.table := r.1[r.0.table]]
  {
    InsertFrom(s, ParseInsert(query))
  }

  /** INSERT after its statement has been read, or failed to be. */
  function InsertFrom(s: Store, p: Parse<InsertStmt>): (r: (Outcome, Store))
    ensures !r.0.RecordInserted? ==> r.1 == s
    ensures r.0.RecordInserted? ==>
      r.0.table in s && r.0.table in r.1 && r.1 == s[r.0.table := r.1[r.0.table]]
  {
    match p
    case BadSyntax => (InvalidInsertSyntax, s)
    case Panics => (Crashed, s)
    case Parsed(stmt) => InsertParsed(s, stmt)
  }

  /** The transaction of INSERT once the statement is read. */
  function InsertParsed(s: Store, stmt: InsertStmt): (r: (Outcome, Store))
    ensures r.0.Failed? <==> stmt.table !in s
    ensures r.0.Crashed? <==> stmt.table in s && |stmt.values| < |stmt.columns|
    ensures !r.0.RecordInserted? ==> r.1 == s
    ensures r.0.RecordInserted? ==>
      r.0.table == stmt.table && stmt.table in s && stmt.table in r.1 && r.1 == s[stmt.table := r.1[stmt.table]]
    ensures r.0.RecordInserted? ==> InsertRow(s[stmt.table], stmt.columns, stmt.values) == Some(r.1[stmt.table])
  {
    if stmt.table !in s then (Failed(InsertingIntoTable, NoSuchTable(stmt.table)), s)
    else
      match InsertRow(s[stmt.table], stmt.columns, stmt.values)
      case None => (Crashed, s)
      case Some(b) => (RecordInserted(stmt.table), s[stmt.table := b])
  }

  /** SELECT on the open database; it never changes it. */
  function SelectIn(s: Store, query: string): (r: Outcome)
    ensures r.Crashed? <==> ParseSelect(query).None?
    ensures r.Failed? <==> ParseSelect(query).Some? && ParseSelect(query).value.table !in s
    ensures r.Crashed? || r.Failed? || r.Selected?
  {
    SelectFrom(s, ParseSelect(query))
  }

  /** SELECT after its statement has been read; None is the panic of
      parseSelectQuery. */
  function SelectFrom(s: Store, p: Option<SelectStmt>): (r: Outcome)
    ensures r.Crashed? <==> p.None?
    ensures r.Failed? <==> p.Some? && p.value.table !in s
    ensures r.Selected? ==> r.answer == Answered(s[p.value.table], p.value.columns, p.value.where)
  {
    match p
    case None => Crashed
    case Some(stmt) =>
      if stmt.table !in s then Failed(SelectingFromTable, NoSuchTable(stmt.table))
      else Selected(Answered(s[stmt.table], stmt.columns, stmt.where))
  }

  /** UPDATE on the open database. Only success writes anything, and only to
      the named table. */
  function UpdateIn(s: Store, query: string): (r: (Outcome, Store))
    ensures !r.0.TableUpdated? ==> r.1 == s
    ensures r.0.TableUpdated? ==>
      r.0.table in s && r.0.table in r.1 && r.1 == s[r.0.table := r.1[r.0.table]]
  {
    UpdateFrom(s, ParseUpdate(query))
  }

  /** UPDATE after its statement has been read; None is a parsing panic. */
  function UpdateFrom(s: Store, p: Option<UpdateStmt>): (r: (Outcome, Store))
    ensures !r.0.TableUpdated? ==> r.1 == s
    ensures r.0.Crashed? <==> p.None? || (p.value.table in s && AnyBroken(Snapshot(s[p.value.table].entries)))
    ensures r.0.TableUpdated? ==>
      && r.0.table == p.value.table && r.0.table in s
      && r.1 == s[r.0.table := UpdateRows(s[r.0.table], p.value.setColumn, p.value.setValue, p.value.condition).value]
  {
    match p
    case None => (Crashed, s)
    case Some(stmt) =>
      if stmt.table !in s then (Failed(UpdatingTable, NoSuchTable(stmt.table)), s)
      else
        match UpdateRows(s[stmt.table], stmt.setColumn, stmt.setValue, stmt.condition)
        case None => (Crashed, s)
        case Some(b) => (TableUpdated(stmt.table), s[stmt.table := b])
  }

  /** DELETE on the open database. Only success writes anything, and only to
      the named table. */
  function DeleteIn(s: Store, query: string): (r: (Outcome, Store))
    ensures !r.0.RecordsDeleted? ==> r.1 == s
    ensures r.0.RecordsDeleted? ==>
      r.0.table in s && r.0.table in r.1 && r.1 == s[r.0.table := r.1[r.0.table]]
  {
    DeleteFrom(s, ParseDelete(query))
  }

  /** DELETE after its statement has been read; None is a parsing panic. */
  function DeleteFrom(s: Store, p: Option<DeleteStmt>): (r: (Outcome, Store))
    ensures !r.0.RecordsDeleted? ==> r.1 == s
    ensures r.0.Crashed? <==> p.None? || (p.value.table in s && AnyBroken(Snapshot(s[p.value.table].entries)))
    ensures r.0.RecordsDeleted? ==>
      && r.0.table == p.value.table && r.0.table in s
      && r.1 == s[r.0.table := DeleteRows(s[r.0.table], p.value.condition).value]
  {
    match p
    case None => (Crashed, s)
    case Some(stmt) =>
      if stmt.table !in s then (Failed(DeletingFromTable, NoSuchTable(stmt.table)), s)
      else
        match DeleteRows(s[stmt.table], stmt.condition)
        case None => (Crashed, s)
        case Some(b) => (RecordsDeleted(stmt.table), s[stmt.table := b])
  }

  /** DROP TABLE on the open database: the bucket and all it holds go; a missing
      bucket is the store's "bucket not found". */
  function DropIn(s: Store, table: string): (r: (Outcome, Store))
    ensures table in s <==> r.0 == TableDropped(table)
    ensures r.1 == s - {table}
    ensures table !in s ==> r.0 == Failed(DroppingTable, BucketNotFound)
  {
    if table in s then (TableDropped(table), s - {table})
    else (Failed(DroppingTable, BucketNotFound), s)
  }

  /** The commands that work on the open database. */
  predicate OnDatabase(c: Command) {
    c.CreateTable? || c.Insert? || c.Select? || c.Update? || c.Delete? || c.DropTable?
  }

  /** Such a command against the open database. */
  function Run(s: Store, c: Command, line: string): (r: (Outcome, Store))
    requires OnDatabase(c)
    ensures r.0.Crashed? ==> r.1 == s
  {
    match c
    case CreateTable => CreateTableIn(s, line)
    case Insert => InsertIn(s, line)
    case Select => (SelectIn(s, line), s)
    case Update => UpdateIn(s, line)
    case Delete => DeleteIn(s, line)
    case DropTable(name) => DropIn(s, name)
  }

  /** A command on the open database; without one it prints "No database
      selected" and changes nothing. */
  function OnOpen(st: State, c: Command, line: string): (r: (Outcome, State))
    requires Valid(st) && OnDatabase(c)
    ensures Valid(r.1) && r.1.current == st.current
    ensures st.current.None? ==> r.0.NoDatabaseSelected? && r.1 == st
    ensures st.current.Some? ==>
      var db := st.current.value;
      r.1.disk == st.disk[db := r.1.disk[db]] && (r.0.Crashed? ==> r.1 == st)
  {
    match st.current
    case None => (NoDatabaseSelected, st)
    case Some(db) =>
      var r := Run(st.disk[db], c, line);
      (r.0, st.(disk := st.disk[db := r.1]))
  }

  /** SELECT on the open database answers from it and changes nothing. */
  lemma SelectOnOpen(st: State, query: string)
    requires Valid(st) && st.current.Some?
    ensures OnOpen(st, Command.Select, query) == (SelectIn(st.disk[st.current.value], query), st)
  {
    var db := st.current.value;
    var s := st.disk[db];
    assert Run(s, Command.Select, query) == (SelectIn(s, query), s);
    assert st.disk[db := s] == st.disk;
  }

  /** processQuery: one line in, one message out, and the databases afterwards. */
  function Step(st: State, line: string): (r: (Outcome, State))
    requires Valid(st)
    ensures Valid(r.1)
    ensures r.0.Crashed? ==> r.1 == st
    ensures r.1.disk.Keys >= st.disk.Keys
  {
    Dispatch(st, Classify(line), line)
  }

  /** What processQuery does once the line has been classified as c. */
  function Dispatch(st: State, c: Command, line: string): (r: (Outcome, State))
    requires Valid(st)
    ensures Valid(r.1)
    ensures r.0.Crashed? ==> r.1 == st
    ensures r.1.disk.Keys >= st.disk.Keys
  {
    if OnDatabase(c) then OnOpen(st, c, line)
    else
      match c
      case NoCommand => (NoCommandProvided, st)
      case InvalidCreate => (InvalidCreateCommand, st)
      case InvalidDrop => (InvalidDropCommand, st)
      case Unknown => (UnknownCommand, st)
      case Panic => (Crashed, st)
      case CreateDatabase(name) => (DatabaseCreated(name), Open(st, name))
      case Use(name) => (UsingDatabase(name), Open(st, name))
  }

  /** Every table of every database has the shape this program writes. */
  predicate WellFormedState(st: State) {
    forall db, t | db in st.disk && t in st.disk[db] :: WellFormed(st.disk[db][t])
  }

  /** A store whose every table has that shape. */
  predicate WellFormedStore(s: Store) {
    forall t | t in s :: WellFormed(s[t])
  }

  lemma CreateTableKeepsShape(s: Store, p: Parse<CreateTableStmt>)
    requires WellFormedStore(s)
    ensures WellFormedStore(CreateTableFrom(s, p).1)
  {
    if p.Parsed? && !AnyBlank(p.stmt.definitions) {
      var t := p.stmt.table;
      var b := CreateBucketIfNotExists(s, t)[t];
      EmptyWellFormed();
      assert WellFormed(b);
      DefineColumnsWellFormed(b, p.stmt.definitions);
      var defined := PutAll(b, SchemaEntries(p.stmt.definitions));
      TableShapeLifts(s, t, defined);
      assert CreateTableFrom(s, p).1 == s[t := defined];
    }
  }

  /** Replacing one table by a well-formed one keeps the store in shape. */
  lemma TableShapeLifts(s: Store, t: string, b: Bucket)
    requires WellFormedStore(s) && WellFormed(b)
    ensures WellFormedStore(s[t := b])
  {
  }

  lemma InsertKeepsShape(s: Store, query: string)
    requires WellFormedStore(s)
    ensures WellFormedStore(InsertIn(s, query).1)
  {
    var p := ParseInsert(query);
    if p.Parsed? {
      InsertParsedKeepsShape(s, p.stmt);
    }
  }

  /** The INSERT transaction itself keeps the store in shape. */
  lemma InsertParsedKeepsShape(s: Store, stmt: InsertStmt)
    requires WellFormedStore(s)
    ensures WellFormedStore(InsertParsed(s, stmt).1)
  {
    if stmt.table in s && InsertRow(s[stmt.table], stmt.columns, stmt.values).Some? {
      var b := InsertRow(s[stmt.table], stmt.columns, stmt.values).value;
      InsertRowWellFormed(s[stmt.table], stmt.columns, stmt.values);
      TableShapeLifts(s, stmt.table, b);
    }
  }

  lemma UpdateKeepsShape(s: Store, query: string)
    requires WellFormedStore(s)
    ensures WellFormedStore(UpdateIn(s, query).1)
  {
    var r := UpdateIn(s, query);
    if r.0.TableUpdated? {
      var stmt := ParseUpdate(query).value;
      UpdateRowsWellFormed(s[stmt.table], stmt.setColumn, stmt.setValue, stmt.condition);
    }
  }

  lemma DeleteKeepsShape(s: Store, query: string)
    requires WellFormedStore(s)
    ensures WellFormedStore(DeleteIn(s, query).1)
  {
    var r := DeleteIn(s, query);
    if r.0.RecordsDeleted? {
      var stmt := ParseDelete(query).value;
      DeleteRowsWellFormed(s[stmt.table], stmt.condition);
    }
  }

  /** Every statement keeps every table in the shape this program writes; so on
      data it wrote itself, UPDATE and DELETE never panic and INSERT never
      overwrites. */
  lemma {:induction false} StepKeepsShape(st: State, line: string)
    requires Valid(st) && WellFormedState(st)
    ensures WellFormedState(Step(st, line).1)
  {
    DispatchKeepsShape(st, Classify(line), line);
  }

  /** The same, for each kind of command. */
  lemma {:induction false} DispatchKeepsShape(st: State, c: Command, line: string)
    requires Valid(st) && WellFormedState(st)
    ensures WellFormedState(Dispatch(st, c, line).1)
  {
    if OnDatabase(c) {
      if st.current.Some? {
        var db := st.current.value;
        var s := st.disk[db];
        assert WellFormedStore(s);
        RunKeepsShape(s, c, line);
        StoreShapeLifts(st, db, Run(s, c, line).1);
        assert Dispatch(st, c, line).1 == st.(disk := st.disk[db := Run(s, c, line).1]);
      }
    } else {
      match c
      case CreateDatabase(name) => OpenKeepsShape(st, name);
      case Use(name) => OpenKeepsShape(st, name);
      case _ =>
    }
  }

  /** Opening a database adds at most an empty one, so the state stays in shape. */
  lemma OpenKeepsShape(st: State, name: string)
    requires WellFormedState(st)
    ensures WellFormedState(Open(st, name))
  {
    if name !in st.disk {
      StoreShapeLifts(st, name, map[]);
      assert Open(st, name).disk == st.disk[name := map[]];
    }
  }

  /** A command on one store keeps every table of it in shape. */
  lemma RunKeepsShape(s: Store, c: Command, line: string)
    requires OnDatabase(c) && WellFormedStore(s)
    ensures WellFormedStore(Run(s, c, line).1)
  {
    match c
    case CreateTable => CreateTableKeepsShape(s, ParseCreateTable(line));
    case Insert => InsertKeepsShape(s, line);
    case Update => UpdateKeepsShape(s, line);
    case Delete => DeleteKeepsShape(s, line);
    case Select =>
    case DropTable(_) =>
  }

  /** Replacing one database by a store in shape keeps the whole state in shape. */
  lemma StoreShapeLifts(st: State, db: string, s: Store)
    requires WellFormedState(st) && WellFormedStore(s)
    ensures WellFormedState(st.(disk := st.disk[db := s]))
  {
  }

  /** On a table this program wrote, UPDATE and DELETE do not panic. */
  lemma NoPanicOnOwnData(s: Store, query: string)
    requires WellFormedStore(s)
    ensures UpdateIn(s, query).0 == Crashed ==> ParseUpdate(query).None?
    ensures DeleteIn(s, query).0 == Crashed ==> ParseDelete(query).None?
  {
    if ParseUpdate(query).Some? && ParseUpdate(query).value.table in s {
      WellFormedHasNoBroken(s[ParseUpdate(query).value.table]);
    }
    if ParseDelete(query).Some? && ParseDelete(query).value.table in s {
      WellFormedHasNoBroken(s[ParseDelete(query).value.table]);
    }
  }

  /** A statement on a table the open database lacks reports "table ... does
      not exist" and writes nothing. */
  lemma MissingTableFails(s: Store, insert: InsertStmt, select: SelectStmt, update: UpdateStmt, delete: DeleteStmt)
    ensures insert.table !in s ==>
      InsertFrom(s, Parsed(insert)) == (Failed(InsertingIntoTable, NoSuchTable(insert.table)), s)
    ensures select.table !in s ==>
      SelectFrom(s, Some(select)) == Failed(SelectingFromTable, NoSuchTable(select.table))
    ensures update.table !in s ==>
      UpdateFrom(s, Some(update)) == (Failed(UpdatingTable, NoSuchTable(update.table)), s)
    ensures delete.table !in s ==>
      DeleteFrom(s, Some(delete)) == (Failed(DeletingFromTable, NoSuchTable(delete.table)), s)
  {
  }

  /** Without an open database only CREATE DATABASE and USE change anything. */
  lemma NoDatabaseNoChange(st: State, line: string)
    requires Valid(st) && st.current.None?
    requires !Classify(line).CreateDatabase? && !Classify(line).Use?
    ensures Step(st, line).1 == st
    ensures OnDatabase(Classify(line)) ==> Step(st, line).0.NoDatabaseSelected?
  {
  }

  /** DROP TABLE removes that table and nothing else; dropping it again fails. */
  lemma DropThenDrop(st: State, name: string)
    requires Valid(st) && st.current.Some? && name in st.disk[st.current.value]
    requires name != [] && NoSpace(name)
    ensures var line := "DROP TABLE " + name;
      var r1 := Step(st, line);
      var db := st.current.value;
      && r1.0 == TableDropped(name)
      && r1.1.disk == st.disk[db := st.disk[db] - {name}]
      && Step(r1.1, line).0 == Failed(DroppingTable, BucketNotFound)
  {
    var line := "DROP TABLE " + name;
    var db := st.current.value;
    DropLineClassifies(name);
    var r1 := Step(st, line);
    assert r1 == OnOpen(st, DropTable(name), line);
    assert r1 == (TableDropped(name), st.(disk := st.disk[db := st.disk[db] - {name}]));
    assert Step(r1.1, line) == OnOpen(r1.1, DropTable(name), line);
  }

  /** "DROP TABLE <name>" is read as dropping that table. */
  lemma DropLineClassifies(name: string)
    requires name != [] && NoSpace(name)
    ensures Classify("DROP TABLE " + name) == DropTable(name)
  {
    DropWordsClassify(name);
    DropLineWords(name);
  }

  /** The words of "DROP TABLE <name>". */
  lemma DropLineWords(name: string)
    requires name != [] && NoSpace(name)
    ensures Fields("DROP TABLE " + name) == ["DROP", "TABLE", name]
  {
    DropLineSpelled(name);
    FieldsOfThree("DROP", "TABLE", name);
  }

  lemma DropLineSpelled(name: string)
    ensures NoSpace("DROP") && NoSpace("TABLE")
    ensures "DROP TABLE " + name == "DROP" + " " + ("TABLE" + " " + name)
  {
  }
}
