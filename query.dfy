/** What SELECT reads out of a table bucket: the header list, the rows grouped
    by row id, the WHERE filter and the rendered cells. */
module Query {
  import opened Wrappers
  import opened GoStrings
  import opened Bolt
  import opened Keys

  /** One row: its cells by column name. */
  type Row = map<string, string>

  /** Keys in strictly increasing order, pairwise. */
  predicate Sorted(es: seq<Entry>) {
    forall i, j | 0 <= i < j < |es| :: Less(es[i].key, es[j].key)
  }

  /** Strictly increasing strings, pairwise. */
  predicate Increasing(hs: seq<string>) {
    forall i, j | 0 <= i < j < |hs| :: Less(hs[i], hs[j])
  }

  /** The column names of the schema keys, in the order ForEach visits them. */
  function AllHeaders(es: seq<Entry>): seq<string>
    decreases |es|
  {
    if es == [] then []
    else
      var last := es[|es| - 1];
      AllHeaders(es[..|es| - 1]) + (if IsSchemaKey(last.key) then [SchemaName(last.key)] else [])
  }

  /** A schema key is "col:" followed by the name it declares. */
  lemma SchemaKeyOfName(k: string)
    requires IsSchemaKey(k)
    ensures SchemaKey(SchemaName(k)) == k
  {
  }

  /** The headers are exactly the names that have a schema key. */
  lemma {:induction false} AllHeadersDeclared(es: seq<Entry>, h: string)
    ensures h in AllHeaders(es) <==> SchemaKey(h) in KeySet(es)
    decreases |es|
  {
    if es != [] {
      var init, last := es[..|es| - 1], es[|es| - 1];
      AllHeadersDeclared(init, h);
      assert es == init + [last];
      KeySetAppend(init, last);
      SchemaKeyRoundTrip(h);
      if IsSchemaKey(last.key) {
        SchemaKeyOfName(last.key);
      }
    }
  }

  /** Less is decided after a common prefix. */
  lemma {:induction false} LessAfterPrefix(p: string, a: string, b: string)
    requires Less(p + a, p + b)
    ensures Less(a, b)
    decreases |p|
  {
    if p != [] {
      var pa, pb := p + a, p + b;
      assert pa[0] == p[0] == pb[0];
      assert pa[1..] == p[1..] + a && pb[1..] == p[1..] + b;
      assert Less(pa[1..], pb[1..]);
      LessAfterPrefix(p[1..], a, b);
    } else {
      assert p + a == a && p + b == b;
    }
  }

  /** Over sorted pairs the headers come out in increasing order, which is the
      byte order of "col:<name>" and not the order of the CREATE TABLE list. */
  lemma {:induction false} AllHeadersIncreasing(es: seq<Entry>)
    requires Sorted(es)
    ensures Increasing(AllHeaders(es))
    decreases |es|
  {
    if es != [] {
      var init, last := es[..|es| - 1], es[|es| - 1];
      AllHeadersIncreasing(init);
      if IsSchemaKey(last.key) {
        var hs := AllHeaders(init);
        forall i | 0 <= i < |hs| ensures Less(hs[i], SchemaName(last.key)) {
          AllHeadersDeclared(init, hs[i]);
          var j := KeySetIndex(init, SchemaKey(hs[i]));
          assert Less(es[j].key, last.key);
          SchemaKeyOfName(last.key);
          LessAfterPrefix(SchemaPrefix, hs[i], SchemaName(last.key));
        }
      }
    }
  }

  /** The headers a SELECT shows: the declared columns for "*", else the list as
      written. */
  function Headers(columns: seq<string>, all: seq<string>): seq<string> {
    if |columns| == 0 || columns[0] == "*" then all else columns
  }

  /** Entry e is a data cell of row id, column col. */
  predicate CellOf(e: Entry, id: string, col: string) {
    !IsSchemaKey(e.key) && Decodable(e.key) && RowIdOf(e.key) == id && ColumnOf(e.key) == col
  }

  /** One step of the grouping pass: a decodable data key of a selected column
      sets that cell of its row, creating the row on first use. */
  function AddCell(rows: map<string, Row>, e: Entry, selected: set<string>): map<string, Row> {
    if IsSchemaKey(e.key) || !Decodable(e.key) then rows
    else
      var id, col := RowIdOf(e.key), ColumnOf(e.key);
      if col !in selected then rows
      else rows[id := (if id in rows then rows[id] else map[])[col := e.value]]
  }

  /** The grouping pass over the pairs, in order. */
  function GroupRows(es: seq<Entry>, selected: set<string>): map<string, Row>
    decreases |es|
  {
    if es == [] then map[] else AddCell(GroupRows(es[..|es| - 1], selected), es[|es| - 1], selected)
  }

  /** Some entry of es is a cell of row id, column col. */
  predicate HasCell(es: seq<Entry>, id: string, col: string) {
    exists i | 0 <= i < |es| :: CellOf(es[i], id, col)
  }

  lemma HasCellSnoc(es: seq<Entry>, id: string, col: string)
    requires es != []
    ensures HasCell(es, id, col) <==> HasCell(es[..|es| - 1], id, col) || CellOf(es[|es| - 1], id, col)
  {
    if HasCell(es[..|es| - 1], id, col) {
      HasCellOfFront(es, id, col);
    }
    if HasCell(es, id, col) && !CellOf(es[|es| - 1], id, col) {
      HasCellInFront(es, id, col);
    }
  }

  lemma HasCellOfFront(es: seq<Entry>, id: string, col: string)
    requires es != [] && HasCell(es[..|es| - 1], id, col)
    ensures HasCell(es, id, col)
  {
    var init := es[..|es| - 1];
    var i :| 0 <= i < |init| && CellOf(init[i], id, col);
    assert init[i] == es[i];
  }

  lemma HasCellInFront(es: seq<Entry>, id: string, col: string)
    requires es != [] && HasCell(es, id, col) && !CellOf(es[|es| - 1], id, col)
    ensures HasCell(es[..|es| - 1], id, col)
  {
    var init := es[..|es| - 1];
    var i :| 0 <= i < |es| && CellOf(es[i], id, col);
    assert i != |es| - 1;
    assert init[i] == es[i];
  }

  /** A row holds a cell exactly when a data key of that row and a selected
      column exists. */
  lemma {:induction false} GroupedCell(es: seq<Entry>, selected: set<string>, id: string, col: string)
    ensures var rows := GroupRows(es, selected);
      (id in rows && col in rows[id]) <==> col in selected && HasCell(es, id, col)
    decreases |es|
  {
    if es != [] {
      var init, last := es[..|es| - 1], es[|es| - 1];
      GroupedCell(init, selected, id, col);
      HasCellSnoc(es, id, col);
    }
  }

  /** Rows are created with their first cell, so none is empty. */
  lemma {:induction false} GroupedRowNonEmpty(es: seq<Entry>, selected: set<string>, id: string)
    requires id in GroupRows(es, selected)
    ensures GroupRows(es, selected)[id] != map[]
    decreases |es|
  {
    var init, last := es[..|es| - 1], es[|es| - 1];
    var before := GroupRows(init, selected);
    if id in before {
      GroupedRowNonEmpty(init, selected, id);
      var c :| c in before[id];
      assert c in GroupRows(es, selected)[id];
    } else {
      assert ColumnOf(last.key) in GroupRows(es, selected)[id];
    }
  }

  /** Of several keys for one cell, the one visited last gives the value. */
  lemma {:induction false} GroupedValue(es: seq<Entry>, selected: set<string>, i: nat, id: string, col: string)
    requires i < |es| && CellOf(es[i], id, col) && col in selected
    requires forall j | i < j < |es| :: !CellOf(es[j], id, col)
    ensures var rows := GroupRows(es, selected);
      id in rows && col in rows[id] && rows[id][col] == es[i].value
    decreases |es|
  {
    if i < |es| - 1 {
      GroupedValue(es[..|es| - 1], selected, i, id, col);
    }
  }

  /** The cell shown for a column the row lacks is the empty string. */
  function Cell(row: Row, col: string): string {
    if col in row then row[col] else ""
  }

  /** One equality test of a WHERE clause: column and value, trimmed. */
  datatype Condition = Condition(column: string, value: string)

  /** A piece of the clause between two "AND"s, cut at its first '='; a piece
      without '=' is no condition and is skipped. */
  function ParseCondition(text: string): (r: Option<Condition>)
    ensures r.None? <==> !Contains(TrimSpace(text), "=")
    ensures r.Some? ==> Trimmed(r.value.column) && Trimmed(r.value.value) && !Contains(r.value.column, "=")
    ensures r.Some? ==> exists c, v ::
      CutAt(TrimSpace(text), "=", c, v) && r.value.column == TrimSpace(c) && r.value.value == TrimSpace(v)
  {
    var parts := SplitOnce(TrimSpace(text), "=");
    if |parts| != 2 then None
    else
      TrimSpaceKeepsAbsence(parts[0], '=');
      assert CutAt(TrimSpace(text), "=", parts[0], parts[1]);
      Some(Condition(TrimSpace(parts[0]), TrimSpace(parts[1])))
  }

  /** The conditions of a clause: its pieces between "AND"s, each parsed. */
  function Conditions(where: string): seq<Option<Condition>> {
    ParseEach(Split(where, "AND"))
  }

  /** Each of the pieces parsed. */
  function ParseEach(ps: seq<string>): (r: seq<Option<Condition>>)
    ensures |r| == |ps| && forall i | 0 <= i < |ps| :: r[i] == ParseCondition(ps[i])
  {
    seq(|ps|, i requires 0 <= i < |ps| => ParseCondition(ps[i]))
  }

  /** The conditions are those of the pieces of the clause between the
      occurrences of "AND", one each, in order. */
  lemma ConditionsOfPieces(where: string)
    ensures exists ps ::
      && PiecesOf(where, "AND", ps) && |Conditions(where)| == |ps|
      && forall i | 0 <= i < |ps| :: Conditions(where)[i] == ParseCondition(ps[i])
  {
    JoinSplit(where, "AND");
    assert PiecesOf(where, "AND", Split(where, "AND"));
  }

  /** The row passes a condition; a piece that is no condition passes every row. */
  predicate Passes(row: Row, c: Option<Condition>) {
    c.Some? ==> Cell(row, c.value.column) == c.value.value
  }

  /** The declarative reading of a WHERE clause: every condition holds. */
  predicate Satisfies(row: Row, cs: seq<Option<Condition>>) {
    forall i | 0 <= i < |cs| :: Passes(row, cs[i])
  }

  /** The rows a WHERE clause keeps: all of them for an empty clause, else those
      satisfying every condition of the clause split on "AND". */
  function Filtered(rows: map<string, Row>, where: string): (r: map<string, Row>)
    ensures where == "" ==> r == rows
    ensures forall id | id in r :: id in rows && r[id] == rows[id]
    ensures where != "" ==> forall id | id in rows :: id in r <==> Satisfies(rows[id], Conditions(where))
  {
    if where == "" then rows
    else map id | id in rows && Satisfies(rows[id], Conditions(where)) :: rows[id]
  }

  /** The rows among done that a clause keeps. */
  function Kept(rows: map<string, Row>, pieces: seq<Option<Condition>>, done: set<string>): map<string, Row> {
    map id | id in rows && id in done && Satisfies(rows[id], pieces) :: rows[id]
  }

  lemma KeptStep(rows: map<string, Row>, pieces: seq<Option<Condition>>, done: set<string>, id: string)
    requires id in rows
    ensures Kept(rows, pieces, done + {id}) ==
      if Satisfies(rows[id], pieces) then Kept(rows, pieces, done)[id := rows[id]] else Kept(rows, pieces, done)
  {
  }

  lemma KeptNone(rows: map<string, Row>, pieces: seq<Option<Condition>>)
    ensures Kept(rows, pieces, {}) == map[]
  {
  }

  lemma KeptAll(rows: map<string, Row>, where: string)
    requires where != ""
    ensures Kept(rows, Conditions(where), rows.Keys) == Filtered(rows, where)
  {
  }

  /** The inner loop of filterRows: conditions are tried in order, and the first
      that fails ends the loop. */
  method Matches(row: Row, pieces: seq<Option<Condition>>) returns (matched: bool)
    ensures matched == Satisfies(row, pieces)
  {
    matched := true;
    var j := 0;
    while j < |pieces|
      invariant 0 <= j <= |pieces|
      invariant matched && Satisfies(row, pieces[..j])
    {
      var condition := pieces[j];
      if condition.Some? && Cell(row, condition.value.column) != condition.value.value {
        assert !Passes(row, pieces[j]);
        matched := false;
        break;
      }
      assert pieces[..j + 1] == pieces[..j] + [pieces[j]];
      j := j + 1;
    }
    assert matched ==> pieces[..j] == pieces;
  }

  /** filterRows: an empty clause keeps the rows as they are; otherwise every
      row, in no particular order, is kept when it matches. */
  method FilterRows(rows: map<string, Row>, where: string) returns (filtered: map<string, Row>)
    ensures filtered == Filtered(rows, where)
  {
    if where == "" {
      return rows;
    }
    filtered := KeepMatching(rows, Conditions(where));
    KeptAll(rows, where);
  }

  /** The loop of filterRows over the rows. */
  method KeepMatching(rows: map<string, Row>, conditions: seq<Option<Condition>>) returns (filtered: map<string, Row>)
    ensures filtered == Kept(rows, conditions, rows.Keys)
  {
    filtered := map[];
    var done: set<string> := {};
    var todo := rows.Keys;
    KeptNone(rows, conditions);
    while todo != {}
      invariant todo <= rows.Keys && done == rows.Keys - todo
      invariant filtered == Kept(rows, conditions, done)
      decreases todo
    {
      var id :| id in todo;
      var matched := Matches(rows[id], conditions);
      KeptStep(rows, conditions, done, id);
      if matched {
        filtered := filtered[id := rows[id]];
      }
      done := done + {id};
      todo := todo - {id};
    }
  }

  /** A clause with no '=' anywhere keeps every row. */
  lemma NoConditionKeepsAll(rows: map<string, Row>, where: string)
    requires where != "" && !Contains(where, "=")
    ensures Filtered(rows, where) == rows
  {
    var pieces := Split(where, "AND");
    forall i | 0 <= i < |pieces| ensures Conditions(where)[i].None? {
      PieceHasNoEquals(where, i);
      TrimSpaceKeepsAbsence(pieces[i], '=');
    }
  }

  /** A piece of a split string holds no rune the string lacks. */
  lemma {:induction false} PieceHasNoEquals(where: string, i: nat)
    requires !Contains(where, "=") && i < |Split(where, "AND")|
    ensures !Contains(Split(where, "AND")[i], "=")
    decreases |where|
  {
    var k := Index(where, "AND");
    if k >= 0 {
      var rest := where[k + 3..];
      forall j | 0 <= j < |rest| ensures !OccursAt(rest, "=", j) {
        assert rest[j..j + 1] == where[k + 3 + j..k + 3 + j + 1];
        assert !OccursAt(where, "=", k + 3 + j);
      }
      if i == 0 {
        forall j | 0 <= j < k ensures !OccursAt(where[..k], "=", j) {
          assert where[..k][j..j + 1] == where[j..j + 1];
          assert !OccursAt(where, "=", j);
        }
      } else {
        PieceHasNoEquals(rest, i - 1);
      }
    } else {
      assert Split(where, "AND") == [where];
    }
  }

  /** A condition on a column the row lacks holds only for an empty value: the
      missing cell reads as "". */
  lemma MissingCellFails(rows: map<string, Row>, where: string, i: nat, id: string)
    requires where != "" && i < |Conditions(where)| && Conditions(where)[i].Some?
    requires Conditions(where)[i].value.value != ""
    requires id in rows && Conditions(where)[i].value.column !in rows[id]
    ensures id !in Filtered(rows, where)
  {
    assert !Passes(rows[id], Conditions(where)[i]);
  }

  /** The row of cells shown for one row, in header order. */
  function RenderRow(row: Row, headers: seq<string>): (cells: seq<string>)
    ensures |cells| == |headers|
    ensures forall j | 0 <= j < |headers| :: cells[j] == Cell(row, headers[j])
  {
    seq(|headers|, j requires 0 <= j < |headers| => Cell(row, headers[j]))
  }

  /** What a SELECT shows: the header line and one rendered line per row id. The
      order in which rows are printed is not modelled. */
  datatype Answer = Answer(headers: seq<string>, rows: map<string, seq<string>>)

  /** The whole read side of SELECT on one bucket. */
  function Answered(b: Bucket, columns: seq<string>, where: string): (a: Answer)
    ensures |columns| == 0 || columns[0] == "*" ==> a.headers == AllHeaders(b.entries)
    ensures |columns| > 0 && columns[0] != "*" ==> a.headers == columns
    ensures forall id | id in a.rows :: |a.rows[id]| == |a.headers|
  {
    var headers := Headers(columns, AllHeaders(b.entries));
    var rows := Filtered(GroupRows(b.entries, Members(headers)), where);
    Answer(headers, map id | id in rows :: RenderRow(rows[id], headers))
  }

  /** The rows answered are the grouped rows the WHERE clause keeps. */
  lemma AnsweredKeys(b: Bucket, columns: seq<string>, where: string)
    ensures var headers := Headers(columns, AllHeaders(b.entries));
      Answered(b, columns, where).rows.Keys == Filtered(GroupRows(b.entries, Members(headers)), where).Keys
  {
  }

  /** The row ids a SELECT answers: those with a data key in a shown column,
      kept when their row passes the WHERE clause. */
  lemma AnsweredRows(b: Bucket, columns: seq<string>, where: string, id: string)
    ensures var a := Answered(b, columns, where);
      var grouped := GroupRows(b.entries, Members(a.headers));
      && (id in grouped <==> exists h | h in a.headers :: HasCell(b.entries, id, h))
      && (id in a.rows <==> id in grouped && (where == "" || Satisfies(grouped[id], Conditions(where))))
  {
    var headers := Headers(columns, AllHeaders(b.entries));
    var selected := Members(headers);
    var grouped := GroupRows(b.entries, selected);
    AnsweredKeys(b, columns, where);
    if id in grouped {
      GroupedRowNonEmpty(b.entries, selected, id);
      var h :| h in grouped[id];
      GroupedCell(b.entries, selected, id, h);
    }
    if h :| h in headers && HasCell(b.entries, id, h) {
      GroupedCell(b.entries, selected, id, h);
    }
  }

  /** SELECT * shows each declared column once, in increasing name order. */
  lemma SelectStarHeaders(b: Bucket, where: string, h: string)
    ensures var a := Answered(b, ["*"], where);
      Increasing(a.headers) && (h in a.headers <==> SchemaKey(h) in Contents(b))
  {
    OrderedPairwise(b.entries);
    AllHeadersIncreasing(b.entries);
    AllHeadersDeclared(b.entries, h);
  }

  /** Less never holds between equal strings. */
  lemma LessDistinct(a: string, b: string)
    requires Less(a, b)
    ensures a != b
  {
    LessIrreflexive(a);
  }

  /** SELECT * lists the columns by name, not as they were declared: a table
      declared as (name text, age text) shows "age" before "name". */
  lemma SelectStarSortsByName(b: Bucket, where: string)
    requires forall h :: SchemaKey(h) in Contents(b) <==> h == "name" || h == "age"
    ensures Answered(b, ["*"], where).headers == ["age", "name"]
  {
    var hs := Answered(b, ["*"], where).headers;
    forall h ensures h in hs <==> h == "name" || h == "age" {
      SelectStarHeaders(b, where, h);
    }
    SelectStarHeaders(b, where, "age");
    assert Increasing(hs);
    if |hs| > 2 {
      assert hs[0] in hs && hs[1] in hs && hs[2] in hs;
      LessDistinct(hs[0], hs[1]);
      LessDistinct(hs[1], hs[2]);
      LessTransitive(hs[0], hs[1], hs[2]);
      LessDistinct(hs[0], hs[2]);
      assert false;
    }
    assert "age" in hs && "name" in hs;
    var i :| 0 <= i < |hs| && hs[i] == "age";
    var j :| 0 <= j < |hs| && hs[j] == "name";
    assert |hs| == 2;
    assert !Less("name", "age");
  }

  /** A shown cell is the value of the last data key of that row and column, or
      "" when there is none. */
  lemma SelectCell(b: Bucket, columns: seq<string>, where: string, id: string, j: nat)
    requires var a := Answered(b, columns, where); id in a.rows && j < |a.headers|
    ensures var a := Answered(b, columns, where);
      var col := a.headers[j];
      || (a.rows[id][j] == "" && forall i | 0 <= i < |b.entries| :: !CellOf(b.entries[i], id, col))
      || exists i | 0 <= i < |b.entries| ::
           && CellOf(b.entries[i], id, col) && a.rows[id][j] == b.entries[i].value
           && forall k | i < k < |b.entries| :: !CellOf(b.entries[k], id, col)
  {
    var a := Answered(b, columns, where);
    var es := b.entries;
    var col := a.headers[j];
    var selected := Members(a.headers);
    var grouped := GroupRows(es, selected);
    assert col in selected;
    GroupedCell(es, selected, id, col);
    if HasCell(es, id, col) {
      var i := LastCell(es, id, col);
      GroupedValue(es, selected, i, id, col);
    }
  }

  /** The last position holding a cell of (id, col). */
  lemma LastCell(es: seq<Entry>, id: string, col: string) returns (i: nat)
    requires HasCell(es, id, col)
    ensures i < |es| && CellOf(es[i], id, col)
    ensures forall k | i < k < |es| :: !CellOf(es[k], id, col)
  {
    var w :| 0 <= w < |es| && CellOf(es[w], id, col);
    i := |es| - 1;
    while !CellOf(es[i], id, col)
      invariant w <= i < |es|
      invariant forall k | i < k < |es| :: !CellOf(es[k], id, col)
      decreases i
    {
      i := i - 1;
    }
  }

  /** A WHERE condition on a column that is not selected, with a non-empty
      value, returns no rows at all: grouped rows carry only selected columns. */
  lemma WhereOnUnselectedColumn(b: Bucket, columns: seq<string>, where: string, i: nat)
    requires where != "" && i < |Conditions(where)| && Conditions(where)[i].Some?
    requires var c := Conditions(where)[i].value;
      c.value != "" && c.column !in Headers(columns, AllHeaders(b.entries))
    ensures Answered(b, columns, where).rows == map[]
  {
    var headers := Headers(columns, AllHeaders(b.entries));
    assert Conditions(where)[i].value.column !in Members(headers);
    UnselectedFiltersAll(b.entries, Members(headers), where, i);
    NothingKeptNothingAnswered(b, columns, where);
  }

  /** When the WHERE clause keeps no grouped row, SELECT answers no row. */
  lemma NothingKeptNothingAnswered(b: Bucket, columns: seq<string>, where: string)
    requires Filtered(GroupRows(b.entries, Members(Headers(columns, AllHeaders(b.entries)))), where) == map[]
    ensures Answered(b, columns, where).rows == map[]
  {
    AnsweredKeys(b, columns, where);
    assert Answered(b, columns, where).rows.Keys == {};
  }

  /** The grouping and filtering behind WhereOnUnselectedColumn. */
  lemma UnselectedFiltersAll(es: seq<Entry>, selected: set<string>, where: string, i: nat)
    requires where != "" && i < |Conditions(where)| && Conditions(where)[i].Some?
    requires var c := Conditions(where)[i].value; c.value != "" && c.column !in selected
    ensures Filtered(GroupRows(es, selected), where) == map[]
  {
    var grouped := GroupRows(es, selected);
    var col := Conditions(where)[i].value.column;
    forall id | id in grouped ensures col !in grouped[id] {
      GroupedCell(es, selected, id, col);
    }
    NoRowPasses(grouped, where, i);
  }

  /** A condition with a non-empty value on a column no row has leaves nothing. */
  lemma NoRowPasses(rows: map<string, Row>, where: string, i: nat)
    requires where != "" && i < |Conditions(where)| && Conditions(where)[i].Some?
    requires Conditions(where)[i].value.value != ""
    requires forall id | id in rows :: Conditions(where)[i].value.column !in rows[id]
    ensures Filtered(rows, where) == map[]
  {
    var f := Filtered(rows, where);
    forall id | id in rows ensures id !in f {
      MissingCellFails(rows, where, i, id);
    }
    assert f.Keys == {};
  }

  /** The first ForEach of selectFromTable: the name of every schema key, in
      the order the pairs are visited. */
  method CollectHeaders(b: Bucket) returns (all: seq<string>)
    ensures all == AllHeaders(b.entries)
  {
    var es := b.entries;
    all := [];
    for i := 0 to |es|
      invariant all == AllHeaders(es[..i])
    {
      assert es[..i + 1][..i] == es[..i];
      if HasPrefix(es[i].key, SchemaPrefix) {
        all := all + [TrimPrefix(es[i].key, SchemaPrefix)];
      }
    }
    assert es[..|es|] == es;
  }

  lemma MembersSnoc(ks: seq<string>, i: nat)
    requires i < |ks|
    ensures Members(ks[..i + 1]) == Members(ks[..i]) + {ks[i]}
  {
    assert ks[..i + 1] == ks[..i] + [ks[i]];
  }

  /** The header list and the selectedColumns set: every declared column for an
      empty list or one starting with "*", else the list as written. */
  method SelectColumns(columns: seq<string>, all: seq<string>) returns (headers: seq<string>, selected: set<string>)
    ensures headers == Headers(columns, all)
    ensures selected == Members(headers)
  {
    selected := {};
    if |columns| == 0 || columns[0] == "*" {
      headers := all;
      for i := 0 to |all|
        invariant selected == Members(all[..i])
      {
        MembersSnoc(all, i);
        selected := selected + {all[i]};
      }
      assert all[..|all|] == all;
    } else {
      headers := [];
      for i := 0 to |columns|
        invariant headers == columns[..i] && selected == Members(columns[..i])
      {
        MembersSnoc(columns, i);
        selected := selected + {columns[i]};
        headers := headers + [columns[i]];
      }
      assert columns[..|columns|] == columns;
    }
  }

  /** The second ForEach of selectFromTable: each decodable data key of a selected
      column fills that cell of its row. */
  method GroupCells(b: Bucket, selected: set<string>) returns (rows: map<string, Row>)
    ensures rows == GroupRows(b.entries, selected)
  {
    var es := b.entries;
    rows := map[];
    for i := 0 to |es|
      invariant rows == GroupRows(es[..i], selected)
    {
      assert es[..i + 1][..i] == es[..i];
      var k := es[i].key;
      if !HasPrefix(k, SchemaPrefix) {
        var keyParts := Split(k, ":");
        if |keyParts| >= 2 {
          var id, col := keyParts[0], keyParts[1];
          if col in selected {
            if id !in rows {
              rows := rows[id := map[]];
            }
            rows := rows[id := rows[id][col := es[i].value]];
          }
        }
      }
    }
    assert es[..|es|] == es;
  }

  /** The cells of one row, one per header. */
  method RenderCells(row: Row, headers: seq<string>) returns (cells: seq<string>)
    ensures cells == RenderRow(row, headers)
  {
    cells := [];
    for j := 0 to |headers|
      invariant cells == RenderRow(row, headers[..j])
    {
      cells := cells + [Cell(row, headers[j])];
    }
    assert headers[..|headers|] == headers;
  }

  /** The rendering loop of selectFromTable: one line of cells per row. */
  method RenderRows(rows: map<string, Row>, headers: seq<string>) returns (lines: map<string, seq<string>>)
    ensures lines == map id | id in rows :: RenderRow(rows[id], headers)
  {
    lines := map[];
    var todo := rows.Keys;
    while todo != {}
      invariant todo <= rows.Keys
      invariant lines == map id | id in rows.Keys - todo :: RenderRow(rows[id], headers)
      decreases todo
    {
      var id :| id in todo;
      var cells := RenderCells(rows[id], headers);
      lines := lines[id := cells];
      todo := todo - {id};
    }
  }

  /** selectFromTable on an existing bucket: headers, grouping, filterRows, and a
      rendered line per remaining row. */
  method SelectRows(b: Bucket, columns: seq<string>, where: string) returns (a: Answer)
    ensures a == Answered(b, columns, where)
  {
    var all := CollectHeaders(b);
    var headers, selected := SelectColumns(columns, all);
    var rows := GroupCells(b, selected);
    var filtered := FilterRows(rows, where);
    var lines := RenderRows(filtered, headers);
    a := Answer(headers, lines);
  }
}
