/** The statement language: how processQuery picks a command from a line, and
    how each command cuts its arguments out of the line by string splitting. */
module Statements {
  import opened Wrappers
  import opened GoStrings

  /** What processQuery does with a line. */
  datatype Command =
    | NoCommand                      // "No command provided"
    | CreateDatabase(name: string)
    | CreateTable                    // the whole line goes to the CREATE TABLE parser
    | InvalidCreate                  // "Invalid CREATE command"
    | Use(name: string)
    | Insert
    | Select
    | Update
    | Delete
    | DropTable(name: string)
    | InvalidDrop                    // "Invalid DROP command"
    | Unknown                        // "Unknown command"
    | Panic                          // parts[1] or parts[2] is out of range

  const Keywords: set<string> := {"CREATE", "USE", "INSERT", "SELECT", "UPDATE", "DELETE", "DROP"}

  /** The first word decides, compared after upper-casing; CREATE and DROP also
      look at the second word. */
  function Classify(line: string): (c: Command)
    ensures c == NoCommand <==> AllSpace(line)
    ensures c.CreateDatabase? || c.Use? || c.DropTable? ==> c.name in Fields(line)
  {
    ClassifyWords(Fields(line))
  }

  /** The decision on the words of a line. */
  function ClassifyWords(parts: seq<string>): (c: Command)
    requires forall i | 0 <= i < |parts| :: parts[i] != [] && NoSpace(parts[i])
    ensures c == NoCommand <==> parts == []
    ensures c == Unknown <==> parts != [] && ToUpper(parts[0]) !in Keywords
    ensures c == InvalidCreate <==>
      parts != [] && ToUpper(parts[0]) == "CREATE"
      && (|parts| == 1 || ToUpper(parts[1]) !in {"DATABASE", "TABLE"})
    ensures c == InvalidDrop <==>
      parts != [] && ToUpper(parts[0]) == "DROP" && (|parts| == 1 || ToUpper(parts[1]) != "TABLE")
    ensures c == Panic <==>
      || (|parts| == 2 && ToUpper(parts[0]) == "CREATE" && ToUpper(parts[1]) == "DATABASE")
      || (|parts| == 2 && ToUpper(parts[0]) == "DROP" && ToUpper(parts[1]) == "TABLE")
      || (|parts| == 1 && ToUpper(parts[0]) == "USE")
    ensures c == Insert <==> parts != [] && ToUpper(parts[0]) == "INSERT"
    ensures c == Select <==> parts != [] && ToUpper(parts[0]) == "SELECT"
    ensures c == Update <==> parts != [] && ToUpper(parts[0]) == "UPDATE"
    ensures c == Delete <==> parts != [] && ToUpper(parts[0]) == "DELETE"
    ensures c == CreateTable <==>
      |parts| > 1 && ToUpper(parts[0]) == "CREATE" && ToUpper(parts[1]) == "TABLE"
    ensures |parts| > 2 && ToUpper(parts[0]) == "CREATE" && ToUpper(parts[1]) == "DATABASE" ==>
      c == CreateDatabase(parts[2])
    ensures |parts| > 1 && ToUpper(parts[0]) == "USE" ==> c == Use(parts[1])
    ensures |parts| > 2 && ToUpper(parts[0]) == "DROP" && ToUpper(parts[1]) == "TABLE" ==>
      c == DropTable(parts[2])
    ensures c.CreateDatabase? || c.DropTable? ==> |parts| > 2 && c.name == parts[2]
    ensures c.Use? ==> |parts| > 1 && c.name == parts[1]
    ensures c.CreateDatabase? || c.Use? || c.DropTable? ==> c.name != [] && NoSpace(c.name)
  {
    if parts == [] then NoCommand
    else
      var command := ToUpper(parts[0]);
      if command == "CREATE" then
        if |parts| > 1 && ToUpper(parts[1]) == "DATABASE" then
          if |parts| > 2 then CreateDatabase(parts[2]) else Panic
        else if |parts| > 1 && ToUpper(parts[1]) == "TABLE" then CreateTable
        else InvalidCreate
      else if command == "USE" then
        if |parts| > 1 then Use(parts[1]) else Panic
      else if command == "INSERT" then Insert
      else if command == "SELECT" then Select
      else if command == "UPDATE" then Update
      else if command == "DELETE" then Delete
      else if command == "DROP" then
        if |parts| > 1 && ToUpper(parts[1]) == "TABLE" then
          if |parts| > 2 then DropTable(parts[2]) else Panic
        else InvalidDrop
      else Unknown
  }

  /** The words DROP TABLE <name> drop that table. */
  lemma DropWordsClassify(name: string)
    requires name != [] && NoSpace(name)
    ensures ClassifyWords(["DROP", "TABLE", name]) == DropTable(name)
  {
    UpperKeywords();
  }

  lemma UpperKeywords()
    ensures ToUpper("DROP") == "DROP" && ToUpper("TABLE") == "TABLE"
  {
  }

  /** A statement parser's verdict: the parsed statement, the "Invalid ... syntax"
      message, or a runtime panic from an index out of range. */
  datatype Parse<+T> = Parsed(stmt: T) | BadSyntax | Panics

  datatype CreateTableStmt = CreateTableStmt(table: string, definitions: seq<string>)

  /** CREATE TABLE t (d1, d2, ...): the table is the third word before the first
      '('; the text after it, less one trailing ')', is split on ','. */
  function ParseCreateTable(query: string): (r: Parse<CreateTableStmt>)
    ensures r.BadSyntax? <==> !Contains(query, "(")
    ensures r.Panics? <==> Contains(query, "(") && |Fields(query[..Index(query, "(")])| < 3
    ensures r.Parsed? ==>
      var open := Index(query, "(");
      && r.stmt.table == Fields(query[..open])[2]
      && r.stmt.definitions != []
      && Join(r.stmt.definitions, ",") == TrimSuffix(query[open + 1..], ")")
      && forall i | 0 <= i < |r.stmt.definitions| :: !Contains(r.stmt.definitions[i], ",")
  {
    var parts := SplitOnce(query, "(");
    if |parts| < 2 then BadSyntax
    else
      var head := Fields(parts[0]);
      if |head| < 3 then Panics
      else
        var columnsPart := TrimSuffix(parts[1], ")");
        JoinSplit(columnsPart, ",");
        Parsed(CreateTableStmt(head[2], Split(columnsPart, ",")))
  }

  datatype InsertStmt = InsertStmt(table: string, columns: seq<string>, values: seq<string>)

  /** query read as: before "(" columns ")" middle "(" after, each piece cut at the
      first occurrence of the delimiter that ends it. */
  predicate InsertLayout(query: string, before: string, columns: string, middle: string, after: string) {
    && query == before + "(" + columns + ")" + middle + "(" + after
    && !Contains(before, "(") && !Contains(columns, ")") && !Contains(middle, "(")
  }

  /** INSERT INTO t (c1, ...) VALUES (v1, ...): the table is the third word before
      the first '('; the columns are the text up to the next ')', split on ',';
      the values are the text after the '(' that follows, less one trailing ')',
      split on ','. Nothing checks that the two lists have the same length. */
  function ParseInsert(query: string): (r: Parse<InsertStmt>)
    ensures r.BadSyntax? <==> !Contains(query, "(")
    ensures r.Panics? <==>
      && Contains(query, "(")
      && var open := Index(query, "(");
         var rest := query[open + 1..];
         || |Fields(query[..open])| < 3
         || !Contains(rest, ")")
         || !Contains(rest[Index(rest, ")") + 1..], "(")
    ensures r.Parsed? ==>
      exists before, middle, after ::
        && InsertLayout(query, before, Join(r.stmt.columns, ","), middle, after)
        && |Fields(before)| >= 3 && r.stmt.table == Fields(before)[2]
        && Join(r.stmt.values, ",") == TrimSuffix(after, ")")
    ensures r.Parsed? ==> NoPieceHolds(r.stmt.columns, ",") && NoPieceHolds(r.stmt.values, ",")
    ensures r.Parsed? ==> r.stmt.columns != [] && r.stmt.values != []
  {
    var parts := SplitOnce(query, "(");
    if |parts| < 2 then BadSyntax
    else
      var head := Fields(parts[0]);
      if |head| < 3 then Panics
      else
        var columnsPart := SplitOnce(parts[1], ")");
        if |columnsPart| < 2 then Panics
        else
          var valuesPart := SplitOnce(columnsPart[1], "(");
          if |valuesPart| < 2 then Panics
          else Parsed(InsertOfParts(query, parts[0], parts[1], columnsPart[0], columnsPart[1], valuesPart[0], valuesPart[1]))
  }

  /** The statement once the line is cut as before "(" c0 ")" v0 "(" v1: the
      third word of the text before, c0 split on ',', and v1 less one trailing
      ')' split on ','. */
  function InsertOfParts(query: string, p0: string, p1: string, c0: string, c1: string, v0: string, v1: string): (st: InsertStmt)
    requires query == p0 + "(" + p1 && !Contains(p0, "(") && |Fields(p0)| >= 3
    requires p1 == c0 + ")" + c1 && !Contains(c0, ")")
    requires c1 == v0 + "(" + v1 && !Contains(v0, "(")
    ensures InsertLayout(query, p0, Join(st.columns, ","), v0, v1) && st.table == Fields(p0)[2]
    ensures Join(st.values, ",") == TrimSuffix(v1, ")")
    ensures NoPieceHolds(st.columns, ",") && NoPieceHolds(st.values, ",")
    ensures st.columns != [] && st.values != []
  {
    InsertLayoutOfParts(query, p0, p1, c0, c1, v0, v1);
    InsertStmt(Fields(p0)[2], Split(c0, ","), Split(TrimSuffix(v1, ")"), ","))
  }

  lemma InsertLayoutOfParts(query: string, p0: string, p1: string, c0: string, c1: string, v0: string, v1: string)
    requires query == p0 + "(" + p1 && !Contains(p0, "(")
    requires p1 == c0 + ")" + c1 && !Contains(c0, ")")
    requires c1 == v0 + "(" + v1 && !Contains(v0, "(")
    ensures InsertLayout(query, p0, Join(Split(c0, ","), ","), v0, v1)
    ensures Join(Split(TrimSuffix(v1, ")"), ","), ",") == TrimSuffix(v1, ")")
    ensures NoPieceHolds(Split(c0, ","), ",") && NoPieceHolds(Split(TrimSuffix(v1, ")"), ","), ",")
  {
    JoinSplit(c0, ",");
    JoinSplit(TrimSuffix(v1, ")"), ",");
    assert query == p0 + "(" + c0 + ")" + v0 + "(" + v1;
  }

  datatype SelectStmt = SelectStmt(columns: seq<string>, table: string, where: string)

  /** The select list: split on ',' and each piece trimmed. */
  function SelectList(columnsPart: string): (r: seq<string>)
    ensures |r| == CountChar(columnsPart, ',') + 1
    ensures forall i | 0 <= i < |r| :: Trimmed(r[i]) && !Contains(r[i], ",")
    ensures exists ps ::
      && PiecesOf(columnsPart, ",", ps) && |ps| == |r|
      && forall i | 0 <= i < |ps| :: r[i] == TrimSpace(ps[i])
  {
    SelectPieces(columnsPart);
    TrimEach(Split(columnsPart, ","))
  }

  /** Each of the pieces trimmed. */
  function TrimEach(ps: seq<string>): (r: seq<string>)
    ensures |r| == |ps| && forall i | 0 <= i < |ps| :: r[i] == TrimSpace(ps[i])
  {
    seq(|ps|, i requires 0 <= i < |ps| => TrimSpace(ps[i]))
  }

  /** The facts behind SelectList's contract, about the pieces it trims. */
  lemma SelectPieces(columnsPart: string)
    ensures var ps := Split(columnsPart, ",");
      && PiecesOf(columnsPart, ",", ps) && |ps| == CountChar(columnsPart, ',') + 1
      && forall i | 0 <= i < |ps| :: Trimmed(TrimEach(ps)[i]) && !Contains(TrimEach(ps)[i], ",")
  {
    var ps := Split(columnsPart, ",");
    SplitCount(columnsPart, ',');
    JoinSplit(columnsPart, ",");
    var r := TrimEach(ps);
    forall i | 0 <= i < |ps| ensures Trimmed(r[i]) && !Contains(r[i], ",") {
      TrimSpaceKeepsAbsence(ps[i], ',');
    }
  }

  /** The text after FROM: the table before the first "WHERE", the clause after it. */
  function TableAndWhere(tail: string): (r: (string, string))
    ensures Contains(tail, "WHERE") ==>
      var w := Index(tail, "WHERE");
      r.0 == TrimSpace(tail[..w]) && r.1 == TrimSpace(tail[w + 5..])
    ensures !Contains(tail, "WHERE") ==> r == (tail, "")
  {
    if Contains(tail, "WHERE") then
      var whereParts := SplitOnce(tail, "WHERE");
      (TrimSpace(whereParts[0]), TrimSpace(whereParts[1]))
    else (tail, "")
  }

  /** parseSelectQuery: the columns are the text from position 7 to the first
      "FROM", split on ',' and trimmed; after "FROM", the text before the first
      "WHERE" is the table and the text after it the WHERE clause. None when the
      slice parts[0][7:] or the index parts[1] panics. */
  function ParseSelect(query: string): (r: Option<SelectStmt>)
    ensures r.None? <==> Index(query, "FROM") < 7
    ensures r.Some? ==>
      var from := Index(query, "FROM");
      && r.value.columns == SelectList(TrimSpace(query[7..from]))
      && (r.value.table, r.value.where) == TableAndWhere(TrimSpace(query[from + 4..]))
  {
    var parts := SplitOnce(query, "FROM");
    if |parts[0]| < 7 || |parts| < 2 then None
    else
      var clause := TableAndWhere(TrimSpace(parts[1]));
      Some(SelectStmt(SelectList(TrimSpace(parts[0][7..])), clause.0, clause.1))
  }


  /** query[whereIndex+6:] with whereIndex = strings.Index(query, "WHERE"): the raw
      text after "WHERE" and one more rune, or, with no "WHERE", everything after
      the fifth rune. None when the slice is out of range. */
  function WhereCondition(query: string): (r: Option<string>)
    ensures Contains(query, "WHERE") ==>
      var w := Index(query, "WHERE");
      (r.Some? <==> w + 6 <= |query|) && (r.Some? ==> query == query[..w] + "WHERE" + [query[w + 5]] + r.value)
    ensures !Contains(query, "WHERE") ==> (r.Some? <==> 5 <= |query|) && (r.Some? ==> r.value == query[5..])
  {
    var whereIndex := Index(query, "WHERE");
    if whereIndex + 6 > |query| then None
    else
      assert whereIndex >= 0 ==> query == query[..whereIndex] + query[whereIndex..whereIndex + 5] + [query[whereIndex + 5]] + query[whereIndex + 6..];
      Some(query[whereIndex + 6..])
  }

  datatype UpdateStmt = UpdateStmt(table: string, setColumn: string, setValue: string, condition: string)

  /** UPDATE t SET c = v WHERE ...: the table is the second word before the first
      "SET"; the first and third words after it are the column and the value (one
      trailing ';' dropped); the condition is WhereCondition. None on a panic. */
  function ParseUpdate(query: string): (r: Option<UpdateStmt>)
    ensures r.Some? ==>
      var parts := Split(query, "SET");
      && |parts| >= 2 && |Fields(parts[0])| >= 2 && |Fields(parts[1])| >= 3
      && r.value.table == Fields(parts[0])[1]
      && r.value.setColumn == Fields(parts[1])[0]
      && TrimSuffix(Fields(parts[1])[2], ";") == r.value.setValue
      && WhereCondition(query) == Some(r.value.condition)
    ensures r.None? <==>
      var parts := Split(query, "SET");
      |parts| < 2 || |Fields(parts[0])| < 2 || |Fields(parts[1])| < 3 || WhereCondition(query).None?
    ensures r.Some? ==> r.value.table != [] && NoSpace(r.value.table) && NoSpace(r.value.setColumn)
  {
    var parts := Split(query, "SET");
    if |parts| < 2 then None
    else
      var head := Fields(parts[0]);
      if |head| < 2 then None
      else
        var updateParts := Fields(parts[1]);
        if |updateParts| < 3 then None
        else
          match WhereCondition(query)
          case None => None
          case Some(condition) =>
            Some(UpdateStmt(head[1], updateParts[0], TrimSuffix(updateParts[2], ";"), condition))
  }

  datatype DeleteStmt = DeleteStmt(table: string, condition: string)

  /** DELETE FROM t WHERE ...: the table is the first word after the first "FROM";
      the condition is WhereCondition. None on a panic. */
  function ParseDelete(query: string): (r: Option<DeleteStmt>)
    ensures r.Some? ==>
      var parts := Split(query, "FROM");
      && |parts| >= 2 && Fields(parts[1]) != [] && r.value.table == Fields(parts[1])[0]
      && WhereCondition(query) == Some(r.value.condition)
    ensures r.None? <==>
      var parts := Split(query, "FROM");
      |parts| < 2 || Fields(parts[1]) == [] || WhereCondition(query).None?
    ensures r.Some? ==> r.value.table != [] && NoSpace(r.value.table)
  {
    var parts := Split(query, "FROM");
    if |parts| < 2 then None
    else
      var words := Fields(parts[1]);
      if words == [] then None
      else
        match WhereCondition(query)
        case None => None
        case Some(condition) => Some(DeleteStmt(words[0], condition))
  }
}
