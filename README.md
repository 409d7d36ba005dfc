# A verified model of Go-Simple-Sql-Interpreter's query layer

The interpreter reads one line at a time and maps a small SQL-like language
onto an embedded bbolt key-value store. A database is one bbolt file. A table
is a bucket in it. The bucket holds two kinds of keys:

- schema keys `"col:<name>"`, which hold the column definition text as it was
  written in `CREATE TABLE`;
- data keys `"<id>:<column>"`, one per cell, where `<id>` is the decimal value
  drawn from the bucket's `NextSequence` counter when the row was inserted.

This project models that mapping in Dafny: the dispatch of `processQuery`, the
string-splitting parsers of every statement, the key encoding, and the
executor of each statement over the store.

## Structure

- `wrappers.dfy` (`Wrappers`): the `Option` type.
- `strings.dfy` (`GoStrings`): the parts of Go's `strings` package the program
  uses: `Fields`, `TrimSpace`, `Split`, `SplitN(…, 2)`, `Index`, `Contains`,
  `TrimPrefix`, `TrimSuffix`, `ToUpper`. Each comes with the facts the
  parsers need, such as `Join(Split(s, sep), sep) == s`.
- `bolt.dfy` (`Bolt`): the store as a value. A `Store` maps bucket names to
  buckets. A `Bucket` is its pairs in strictly increasing byte order (the order
  `ForEach` visits) plus the sequence counter. `Put`, `Delete`, `NextSequence`
  and `CreateBucketIfNotExists` are functions on these values.
- `keys.dfy` (`Keys`): schema keys, cell keys, the `%d` rendering of row ids,
  and how `strings.Split(k, ":")` takes a key apart.
- `statements.dfy` (`Statements`): `processQuery`'s classification of a line,
  and the parsers of CREATE TABLE, INSERT, SELECT, UPDATE and DELETE.
- `tables.dfy` (`Tables`): what each statement writes into or removes from one
  bucket, and the bucket shape (`WellFormed`) that the statements preserve.
- `query.dfy` (`Query`): SELECT. It covers header resolution, the grouping of
  cells into rows, `filterRows`, and the rendered rows. Each loop of the source
  is a method proved equal to its specification function.
- `transactions.dfy` (`Transactions`): the loops inside the read-write
  transactions, as methods proved equal to the functions of `Tables`.
- `executor.dfy` (`Executor`): one statement on the whole state. It returns the
  message printed (`Outcome`) and the databases afterwards.
- `session.dfy` (`Session`): the `Interpreter` class. It holds the database
  files and `currentDB`, and its methods update them statement by statement.

A Go panic (an index out of range) is the outcome `Crashed`. It ends the
program. A panic inside `db.Update`/`db.View` rolls the transaction back, so
the store is left unchanged. Each `Update`/`View` callback is one atomic
function on the store value.

## Behaviour of the code worth knowing

Each point below is a consequence of `main.go` as written, proved about the
model by the member named beside it.

- `SELECT *` lists the columns in the byte order of their `"col:"` keys, not in
  declaration order. `CREATE TABLE users (name text, age text)` shows `age`
  before `name` (`Query.SelectStarSortsByName`).
- UPDATE and DELETE take all the text after `WHERE ` as the condition. They
  compare it with the column part of each data key. So `WHERE name = Alice`
  matches no cell of a table whose column names hold no `=`
  (`Tables.EqualsConditionHitsNothing`).
- DELETE removes only the matched key. The other cells of that row stay
  (`Tables.DeleteLeavesRestOfRow`).
- INSERT does not check that the column and value lists have the same length.
  Fewer values than columns panics at `values[i]`, and extra values are ignored
  (`Tables.CellWrites`).
- A WHERE condition on a missing cell compares against `""`. So a condition
  with a non-empty value drops every row that lacks its column
  (`Query.MissingCellFails`), and one on a column that is not selected returns
  no rows at all (`Query.WhereOnUnselectedColumn`).
- Dropping a missing table reports bbolt's "bucket not found", not "table does
  not exist" (`Executor.DropIn`).
- The select list is never empty. The `len(columns) == 0` test at main.go:205
  cannot be true (`Statements.SelectList`).

## Model

| member | source | states |
|---|---|---|
| `GoStrings.TrimSpace` | main.go:264 | the result has no white space at either end and is the input with only white space cut from its two ends (it sits at some offset `i`, all white space before and after); it is empty exactly when the input is all white space |
| `GoStrings.TrimSpaceKeepsAbsence` | main.go:277 | trimming cannot introduce a rune the input lacks |
| `GoStrings.Fields` | main.go:35 | every field is a non-empty run without white space; there are no fields exactly when the line is all white space |
| `GoStrings.FieldsKeepsText` | main.go:35 | the fields concatenated are the line without its white space: nothing is lost or reordered |
| `GoStrings.FieldsOfThree` | main.go:35 | three words separated by single spaces are exactly three fields |
| `GoStrings.FieldsLayout` | main.go:35 | the line is its fields interleaved with gaps that are all white space, every inner gap non-empty: the fields are the maximal runs without white space |
| `GoStrings.Index` | main.go:326 | the result is -1 or the position of the first occurrence; no occurrence lies before it |
| `GoStrings.Split` | main.go:111 | the pieces are never an empty list and none holds the separator |
| `GoStrings.JoinSplit` | main.go:111 | joining the pieces of `Split` with the separator gives back the input |
| `GoStrings.SplitCount` | main.go:275 | splitting on one rune gives one more piece than there are occurrences of it |
| `GoStrings.SplitOnce` | main.go:103 | `SplitN(s, sep, 2)`: one piece exactly when `sep` does not occur; otherwise the text before and after its first occurrence |
| `GoStrings.TrimPrefix` | main.go:197 | the prefix is cut off when present, else the input is unchanged |
| `GoStrings.TrimSuffix` | main.go:110 | one copy of the suffix is cut off when present, else the input is unchanged |
| `GoStrings.ToUpper` | main.go:41 | upper-casing keeps the length of the word |
| `GoStrings.ToUpperMatchesKeyword` | main.go:41-61 | a word upper-cases to a keyword of capital letters exactly when it spells it letter by letter ignoring case, where `ı` also spells `I` and `ſ` also spells `S` |
| `Bolt.AsMapAt` | main.go:195 | in a bucket, each visited key carries the value stored with it |
| `Bolt.OrderedPairwise` | main.go:219 | `ForEach` visits keys in strictly increasing order |
| `Bolt.PutEntry` | main.go:121 | writing into the ordered pairs keeps them ordered and maps the key to the new value |
| `Bolt.DeleteEntry` | main.go:387 | removing a key keeps the pairs ordered and removes exactly that key |
| `Bolt.Put` | main.go:163 | `Bucket.Put`: the contents afterwards are the old contents with `k := v`; the counter is unchanged |
| `Bolt.Delete` | main.go:387 | `Bucket.Delete`: the contents afterwards lack `k` and are otherwise unchanged; a missing key is no error |
| `Bolt.OverlayKeys` | main.go:119-125 | a run of writes touches exactly the keys it names |
| `Bolt.OverlayLast` | main.go:119-125 | of several writes to one key the last one stays |
| `Bolt.PutAll` | main.go:160-167 | a run of Puts leaves the old contents overlaid by the writes, later writes winning |
| `Bolt.DeleteAll` | main.go:381-391 | a run of Deletes removes exactly the keys named |
| `Bolt.NextSequence` | main.go:159 | the counter goes up by one, its new value is returned, and the pairs are unchanged |
| `Bolt.CreateBucketIfNotExists` | main.go:115 | an existing bucket is kept as it is; a missing one is added empty; other buckets are unchanged |
| `Keys.SchemaKeyRoundTrip` | main.go:196-197 | stripping `"col:"` from the schema key of a name gives the name back |
| `Keys.Decimal` | main.go:161 | `%d` of a row id is a non-empty run of digits with no leading zero |
| `Keys.DecimalRoundTrip` | main.go:161 | reading back the digits `%d` wrote gives the id again |
| `Keys.DecimalInjective` | main.go:161 | distinct row ids are rendered as distinct strings |
| `Keys.DecimalOfValue` | main.go:161 | a digit string with no leading zero is the `%d` rendering of its value |
| `Keys.CellKeyDecodes` | main.go:221-226 | a cell key `"<id>:<col>"` splits back into that id and column when neither holds `:` |
| `Keys.DecodableShape` | main.go:337-339 | a key that splits into two or more parts starts with its row id and `:` |
| `Keys.CellKeyNotSchema` | main.go:161 | a key written by INSERT is never taken for a schema key |
| `Keys.RowKeyNotSchema` | main.go:342 | a key written by UPDATE is never a schema key |
| `Statements.Classify` | main.go:35-38 | a line gives no command exactly when it is all white space; names taken from it are among its words |
| `Statements.ClassifyWords` | main.go:41-69 | INSERT, SELECT, UPDATE and DELETE are chosen exactly when the first word upper-cases to that keyword; CREATE TABLE exactly when the first two words upper-case to CREATE and TABLE; CREATE DATABASE, USE and DROP TABLE take the name from the word after the keyword(s); CREATE or DROP without a valid second word is "Invalid"; any other word is "Unknown command"; a missing name panics |
| `Statements.DropWordsClassify` | main.go:61-63 | the words DROP TABLE t drop table t |
| `Statements.ParseCreateTable` | main.go:103-111 | no `(` is a syntax error; fewer than three words before it panics; else the table is the third word and the definitions, never an empty list, joined with `,` are the text after `(` less one trailing `)` |
| `Statements.ParseInsert` | main.go:142-152 | no `(` is a syntax error; it panics exactly when fewer than three words precede the first `(`, no `)` follows it, or no `(` follows that `)`; a parsed insert lays the line out as words `(` columns `)` text `(` values, with the table the third word; the columns joined with `,` and the values joined with `,` give back that text, no column or value holds a `,`, and neither list is empty (empty text gives one empty piece) |
| `Statements.SelectList` | main.go:275-278 | the select list is the comma-free pieces whose join with `,` is the text between SELECT and FROM, each trimmed, one per piece |
| `Statements.TableAndWhere` | main.go:265-273 | with `WHERE`, the table and clause are the trimmed text before and after its first occurrence; without it, the clause is empty |
| `Statements.ParseSelect` | main.go:262-281 | panics exactly when `FROM` is missing or starts before position 7; otherwise the columns come from `query[7:from]` and the table and clause from the text after `FROM` |
| `Statements.WhereCondition` | main.go:326-327 | the condition is the raw text after `WHERE` and one more rune, or everything after the fifth rune when there is no `WHERE`; a short line panics |
| `Statements.ParseUpdate` | main.go:318-327 | the table is the second word before `SET`; the column and value are the first and third words after it (one `;` dropped); fewer words panic |
| `Statements.ParseDelete` | main.go:368-372 | the table is the first word after `FROM`; the condition is `WhereCondition`; a missing `FROM` or word panics |
| `Tables.ColumnName` | main.go:120 | the column name is the first word of the definition: it stands at some offset with only white space before it and white space or the end after it; a blank definition panics |
| `Tables.SchemaEntries` | main.go:119-121 | CREATE TABLE writes `"col:"+name` holding each definition as written, in order |
| `Tables.SchemaEntriesKeys` | main.go:119-121 | every key CREATE TABLE writes is a schema key, one per declared name |
| `Tables.CellWrites` | main.go:160-163 | INSERT writes `"<id>:"+trim(col)` holding `trim(values[i])` for each column; fewer values than columns panics |
| `Tables.InsertRow` | main.go:159-167 | INSERT draws exactly one id, shared by all its cells, and raises the counter by one |
| `Tables.UpdateWrites` | main.go:335-350 | every write of UPDATE stores the SET value; a key without `:` panics |
| `Tables.UpdateWritesOverlay` | main.go:335-350 | UPDATE writes the SET value under exactly the keys `"<id>:"+setColumn` of the data keys whose column is the condition |
| `Tables.UpdateRows` | main.go:329-352 | after UPDATE the contents are the old ones plus the target keys holding the SET value; nothing is removed; the counter is unchanged |
| `Tables.DeleteKeys` | main.go:381-391 | the DELETE loop panics exactly on a data key without `:` |
| `Tables.DeleteKeysHits` | main.go:381-391 | DELETE removes exactly the data keys whose column part equals the condition |
| `Tables.DeleteRows` | main.go:374-393 | after DELETE the contents are the old ones less the hit keys; nothing is added; the counter is unchanged |
| `Tables.WellFormedHasNoBroken` | main.go:337-339 | on a table this program wrote, every data key splits at `:`, so UPDATE and DELETE cannot panic |
| `Tables.DefineColumnsWellFormed` | main.go:119-125 | CREATE TABLE keeps the bucket shape |
| `Tables.InsertRowWellFormed` | main.go:159-167 | INSERT keeps the bucket shape: its cells belong to the id just drawn |
| `Tables.UpdateRowsWellFormed` | main.go:335-350 | UPDATE keeps the bucket shape: it writes only into existing rows |
| `Tables.DeleteRowsWellFormed` | main.go:381-391 | DELETE keeps the bucket shape |
| `Tables.IssuedIsNotNext` | main.go:159 | an id the bucket has issued is never the next one it draws |
| `Tables.InsertIsFresh` | main.go:159-163 | on a well-formed bucket every key INSERT writes is new |
| `Tables.InsertKeepsExisting` | main.go:159-163 | INSERT leaves every existing pair as it was |
| `Tables.UpdateKeepsSchema` | main.go:336-343 | UPDATE never removes a key and never adds, removes or changes a schema key |
| `Tables.TargetsNotSchema` | main.go:342 | every key UPDATE writes is a data key |
| `Tables.DeleteLeavesRestOfRow` | main.go:381-388 | DELETE keeps every key whose column is not the condition, including the other cells of a matched row |
| `Tables.SchemaKeyInjective` | main.go:121 | distinct column names have distinct schema keys |
| `Tables.DefineColumnsStores` | main.go:119-121 | after CREATE TABLE, `"col:"+name` holds the last definition declaring that name |
| `Tables.DefineColumnsKeepsData` | main.go:114-126 | CREATE TABLE on an existing table leaves every data key as it was |
| `Tables.DefineColumnsTwice` | main.go:115-121 | repeating a CREATE TABLE changes nothing more |
| `Tables.InsertsDrawDistinctIds` | main.go:159-161 | two inserts in a row draw consecutive ids and write disjoint sets of keys |
| `Tables.CellWritesOfDistinctIds` | main.go:161 | the cells of two different row ids never share a key |
| `Tables.EqualsConditionHitsNothing` | main.go:326-341 | a condition holding `=` (as in `WHERE c = v`) makes UPDATE and DELETE change nothing on a table whose columns hold no `=` |
| `Transactions.DefineColumns` | main.go:119-125 | the CREATE TABLE loop issues exactly the schema writes, or panics exactly on a blank definition |
| `Transactions.InsertCells` | main.go:154-168 | the INSERT transaction produces exactly `InsertRow` |
| `Transactions.UpdateLoop` | main.go:335-350 | the UPDATE loop over a snapshot of the keys produces exactly `UpdateRows` |
| `Transactions.DeleteLoop` | main.go:381-391 | the DELETE loop over a snapshot of the keys produces exactly `DeleteRows` |
| `Query.AllHeadersDeclared` | main.go:195-200 | a name is among the `*` headers exactly when its schema key is in the bucket |
| `Query.AllHeadersIncreasing` | main.go:195-200 | the `*` headers come in strictly increasing byte order |
| `Query.GroupedCell` | main.go:219-236 | a grouped row has a cell exactly when the column is selected and a data key of that row and column exists; schema keys and keys without `:` never contribute |
| `Query.GroupedRowNonEmpty` | main.go:228-233 | a grouped row is created with its first cell, so none is empty |
| `Query.GroupedValue` | main.go:232 | of several keys for one cell, the last visited gives the value |
| `Query.LastCell` | main.go:219-236 | the last key holding a given cell is found |
| `Query.ParseCondition` | main.go:292-297 | a conjunct without `=` is skipped; otherwise the trimmed conjunct is `c + "=" + v` with no `=` in `c`, and the column and value are `c` and `v` trimmed |
| `Query.ConditionsOfPieces` | main.go:290-292 | the conditions are `ParseCondition` of each piece, in order, of pieces without `AND` whose join with `AND` is the clause |
| `Query.Filtered` | main.go:283-308 | an empty clause keeps the rows unchanged; otherwise a row is kept, with its cells, exactly when it satisfies every condition |
| `Query.Matches` | main.go:290-302 | the inner loop answers whether the row satisfies every condition |
| `Query.KeepMatching` | main.go:288-306 | the outer loop keeps exactly the matching rows |
| `Query.FilterRows` | main.go:283-308 | `filterRows` returns exactly `Filtered` |
| `Query.NoConditionKeepsAll` | main.go:292-295 | a clause without `=` keeps every row |
| `Query.PieceHasNoEquals` | main.go:291 | a piece of the clause holds no `=` the clause lacks |
| `Query.MissingCellFails` | main.go:298 | a missing cell reads as `""`, so a condition with a non-empty value drops the row |
| `Query.NoRowPasses` | main.go:298 | a condition with a non-empty value on a column no row has leaves no rows |
| `Query.RenderRow` | main.go:246-249 | a rendered row has one cell per header, the row's value or `""` |
| `Query.Answered` | main.go:202-215 | the headers are the declared columns for `*`, else the list as written; every rendered row has one cell per header |
| `Query.AnsweredRows` | main.go:218-239 | a row id is answered exactly when it has a data key in a shown column and, when there is a clause, its grouped row satisfies every condition |
| `Query.SelectStarHeaders` | main.go:205-209 | `SELECT *` shows each declared column once, in increasing name order |
| `Query.SelectStarSortsByName` | main.go:195-209 | a table with columns `name` and `age` shows the headers `age`, `name` |
| `Query.SelectCell` | main.go:219-249 | a shown cell is the value of the last data key of that row and column, or `""` when there is none |
| `Query.WhereOnUnselectedColumn` | main.go:228-239 | a condition with a non-empty value on a column that is not selected returns no rows |
| `Query.CollectHeaders` | main.go:194-200 | the first `ForEach` collects exactly the `*` headers |
| `Query.SelectColumns` | main.go:203-215 | the header list and the selected set are those of `Headers` |
| `Query.GroupCells` | main.go:218-236 | the second `ForEach` groups exactly as `GroupRows` |
| `Query.RenderCells` | main.go:247-249 | the cell loop renders exactly `RenderRow` |
| `Query.RenderRows` | main.go:245-251 | one rendered row per remaining row id |
| `Query.SelectRows` | main.go:193-253 | the SELECT transaction on an existing bucket produces exactly `Answered` |
| `Executor.Open` | main.go:72-94 | opening makes the database current, adds an empty file when missing, and leaves the other files unchanged |
| `Executor.CreateTableIn` | main.go:96-134 | only a successful CREATE TABLE changes the store, and only its own table |
| `Executor.CreateTableFrom` | main.go:103-127 | a syntax error or a panic leaves the store unchanged |
| `Executor.CreateTableParsed` | main.go:114-127 | the transaction panics exactly on a blank definition, leaving the store unchanged; otherwise it reports the table created and the store is `DefineTable` of it |
| `Executor.DefineTable` | main.go:114-126 | the table afterwards holds its old contents (or none, when new) overlaid with the schema writes, its counter is kept (zero for a new bucket), and other tables are unchanged |
| `Executor.InsertIn` | main.go:136-176 | only a successful INSERT changes the store, only in an existing table |
| `Executor.InsertFrom` | main.go:142-169 | a syntax error or a panic leaves the store unchanged |
| `Executor.InsertParsed` | main.go:154-169 | a missing table is reported and nothing is written; too few values panic; otherwise the table becomes exactly `InsertRow` of it and no other table changes |
| `Executor.SelectIn` | main.go:178-260 | SELECT never changes the store; it panics exactly when parsing does and fails exactly on a missing table |
| `Executor.SelectFrom` | main.go:185-191 | a missing table is reported; otherwise the answer is `Answered` |
| `Executor.UpdateIn` | main.go:311-359 | only a successful UPDATE changes the store, only in an existing table |
| `Executor.UpdateFrom` | main.go:329-352 | a missing table is reported with no writes; a panic leaves the store as it was; success replaces the table by `UpdateRows` |
| `Executor.DeleteIn` | main.go:361-400 | only a successful DELETE changes the store, only in an existing table |
| `Executor.DeleteFrom` | main.go:374-393 | a missing table is reported with no writes; a panic leaves the store as it was; success replaces the table by `DeleteRows` |
| `Executor.DropIn` | main.go:402-417 | DROP TABLE removes exactly that table and leaves the others; a missing one is "bucket not found" |
| `Executor.Run` | main.go:53-63 | a statement that panics leaves the store as it was |
| `Executor.OnOpen` | main.go:97-100 | with no database open the statement reports "No database selected" and changes nothing; otherwise only the open database changes |
| `Executor.Step` | main.go:34-69 | a line keeps the state valid, never removes a database file, and a panic changes nothing |
| `Executor.Dispatch` | main.go:42-68 | each branch of the command switch keeps the state valid, never removes a database file, and a panic changes nothing |
| `Executor.CreateTableKeepsShape` | main.go:114-126 | CREATE TABLE keeps every table well-formed |
| `Executor.InsertKeepsShape` | main.go:154-169 | INSERT keeps every table well-formed |
| `Executor.UpdateKeepsShape` | main.go:329-352 | UPDATE keeps every table well-formed |
| `Executor.DeleteKeepsShape` | main.go:374-393 | DELETE keeps every table well-formed |
| `Executor.StepKeepsShape` | main.go:34-69 | every line keeps every table of every database in the shape this program writes |
| `Executor.NoPanicOnOwnData` | main.go:335-339 | on tables this program wrote, UPDATE and DELETE panic only while parsing |
| `Executor.MissingTableFails` | main.go:155-158 | INSERT, SELECT, UPDATE and DELETE on a missing table report "table does not exist" and leave the store unchanged |
| `Executor.NoDatabaseNoChange` | main.go:97-100 | with no database open, every line except CREATE DATABASE and USE leaves the state unchanged |
| `Executor.DropThenDrop` | main.go:402-417 | `DROP TABLE t` removes t and nothing else, and a second one fails |
| `Executor.DropLineClassifies` | main.go:61-63 | the line `DROP TABLE t` is read as dropping table t |
| `Session.CreateTableTx` | main.go:114-127 | the CREATE TABLE transaction produces exactly `CreateTableFrom` |
| `Session.InsertTx` | main.go:154-169 | the INSERT transaction produces exactly `InsertFrom` |
| `Session.SelectTx` | main.go:187-255 | the SELECT transaction produces exactly `SelectFrom` |
| `Session.UpdateTx` | main.go:329-352 | the UPDATE transaction produces exactly `UpdateFrom` |
| `Session.DeleteTx` | main.go:374-393 | the DELETE transaction produces exactly `DeleteFrom` |
| `Session.Interpreter.constructor` | main.go:14 | the interpreter starts with no database open |
| `Session.Interpreter.CreateDatabase` | main.go:72-82 | `createDatabase` opens the file and makes it current |
| `Session.Interpreter.UseDatabase` | main.go:84-94 | `useDatabase` does the same, with its own message |
| `Session.Interpreter.OpenFile` | main.go:77 | opening adds an empty file when missing and makes it current |
| `Session.Interpreter.Commit` | main.go:114 | a committed transaction replaces the open database and nothing else |
| `Session.Interpreter.CreateTable` | main.go:96-134 | `createTable` changes the state as `OnOpen` says |
| `Session.Interpreter.InsertIntoTable` | main.go:136-176 | `insertIntoTable` changes the state as `OnOpen` says |
| `Session.Interpreter.SelectFromTable` | main.go:178-260 | `selectFromTable` changes nothing and answers as `OnOpen` says |
| `Session.Interpreter.UpdateTable` | main.go:311-359 | `updateTable` changes the state as `OnOpen` says |
| `Session.Interpreter.DeleteFromTable` | main.go:361-400 | `deleteFromTable` changes the state as `OnOpen` says |
| `Session.Interpreter.DropTable` | main.go:402-417 | `dropTable` changes the state as `OnOpen` says |
| `Session.Interpreter.ProcessQuery` | main.go:34-69 | `processQuery` changes the state and answers as `Step` says |
| `Session.Interpreter.DispatchCommand` | main.go:42-68 | the switch of `processQuery` calls the handler of the classified command, with the effect `Dispatch` gives it |

## Left out

- The read-eval-print loop in `main`: reading stdin, the prompt, the
  `TrimSpace` of each line and `EXIT` (main.go:16-32). The model starts at
  `processQuery` with the line `main` passes to it.
- File I/O of `createDatabase`/`useDatabase`: `bolt.Open` on `Dbs/<name>.db`,
  `Close`, and `log.Fatal` when opening fails. The files are a map from database
  name to store, and opening never fails.
- bbolt internals: pages, the B+tree, commit and rollback, durability. Each
  `Update`/`View` is one atomic function on the store value.
- bbolt's size limits on keys and values. Every `Put` succeeds in the model. In
  the source, a failing `Put` inside the UPDATE `ForEach` would stop the loop
  and still commit the earlier writes.
- Changing a bucket inside `ForEach`. The model loops over a snapshot of the
  keys taken before the loop. bbolt's cursor may skip keys after a `Delete`
  during iteration.
- `tablewriter` rendering and the `fmt.Println` messages. They are `Outcome`
  values, and a SELECT answer is its headers plus one rendered row per row id.
  Go visits a map in random order, so the order of printed rows is not modelled.
- Bytes versus runes. Go strings are UTF-8 bytes and the model's strings are
  code points. Positions such as `parts[0][7:]` and `query[whereIndex+6:]`
  agree on ASCII text only. Invalid UTF-8 is not modelled.
- `GoStrings.ToUpper`: only the runes whose upper case is an ASCII letter are
  mapped. Every comparison is with an ASCII keyword, so this is exact there.
- `Bolt.NextSequence`: the 64-bit counter is unbounded, so its wrap-around after
  2^64-1 inserts is not modelled.
- The commented-out `itob` (main.go:419-430), which is dead code.
