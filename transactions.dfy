/** The loops inside the read-write transactions of CREATE TABLE, INSERT, UPDATE
    and DELETE, each proved to issue exactly the writes its specification names.
    A loop that panics returns None: the transaction is rolled back. */
module Transactions {
  import opened Wrappers
  import opened GoStrings
  import opened Bolt
  import opened Keys
  import opened Tables

  /** createTable's loop: a Put of "col:<first word>" per definition, holding
      the definition as written. */
  method DefineColumns(b: Bucket, definitions: seq<string>) returns (r: Option<Bucket>)
    ensures r.None? <==> AnyBlank(definitions)
    ensures r.Some? ==> r.value == PutAll(b, SchemaEntries(definitions))
  {
    var cur := b;
    for i := 0 to |definitions|
      invariant !AnyBlank(definitions[..i])
      invariant cur == PutAll(b, SchemaEntries(definitions[..i]))
    {
      var name := ColumnName(definitions[i]);
      if name.None? {
        assert AllSpace(definitions[i]);
        return None;
      }
      DefineStep(b, definitions, i);
      cur := Put(cur, SchemaKey(name.value), definitions[i]);
    }
    assert definitions[..|definitions|] == definitions;
    return Some(cur);
  }

  /** One turn of that loop. */
  lemma DefineStep(b: Bucket, definitions: seq<string>, i: nat)
    requires i < |definitions| && !AnyBlank(definitions[..i]) && !AllSpace(definitions[i])
    ensures !AnyBlank(definitions[..i + 1])
    ensures PutAll(b, SchemaEntries(definitions[..i + 1])) ==
      Put(PutAll(b, SchemaEntries(definitions[..i])), SchemaKey(ColumnName(definitions[i]).value), definitions[i])
  {
    AnyBlankSnoc(definitions[..i + 1]);
    assert definitions[..i + 1][..i] == definitions[..i];
    SchemaEntriesSnoc(definitions, i);
    PutAllSnoc(b, SchemaEntries(definitions[..i]), SchemaEntry(definitions[i]));
  }

  lemma SchemaEntriesSnoc(definitions: seq<string>, i: nat)
    requires i < |definitions| && !AnyBlank(definitions[..i + 1])
    ensures !AnyBlank(definitions[..i])
    ensures SchemaEntries(definitions[..i + 1]) ==
      SchemaEntries(definitions[..i]) + [SchemaEntry(definitions[i])]
  {
    NoBlankPrefix(definitions, i);
    SchemaEntriesAppend(definitions[..i + 1], definitions[..i], i);
  }

  lemma NoBlankPrefix(definitions: seq<string>, i: nat)
    requires i < |definitions| && !AnyBlank(definitions[..i + 1])
    ensures !AnyBlank(definitions[..i])
  {
    var d, p := definitions[..i + 1], definitions[..i];
    forall j | 0 <= j < i ensures !AllSpace(p[j]) {
      assert p[j] == d[j];
    }
  }

  lemma SchemaEntriesAppend(d: seq<string>, p: seq<string>, i: nat)
    requires |d| == i + 1 && p == d[..i] && !AnyBlank(d) && !AnyBlank(p)
    ensures SchemaEntries(d) == SchemaEntries(p) + [SchemaEntry(d[i])]
  {
    SchemaEntriesPrefix(d, p, i);
    LastSplit(SchemaEntries(d));
  }

  lemma SchemaEntriesPrefix(d: seq<string>, p: seq<string>, i: nat)
    requires |d| == i + 1 && p == d[..i] && !AnyBlank(d) && !AnyBlank(p)
    ensures SchemaEntries(d)[..i] == SchemaEntries(p)
  {
    var a, c := SchemaEntries(d), SchemaEntries(p);
    forall j | 0 <= j < i ensures a[j] == c[j] {
      assert p[j] == d[j];
    }
  }

  /** A non-empty sequence is its front followed by its last element. */
  lemma LastSplit<T>(s: seq<T>)
    requires s != []
    ensures s == s[..|s| - 1] + [s[|s| - 1]]
  {
  }

  /** insertIntoTable's transaction: draw the next id, then a Put of
      "<id>:<column>" per column, holding the value at the same position. */
  method InsertCells(b: Bucket, columns: seq<string>, values: seq<string>) returns (r: Option<Bucket>)
    ensures r == InsertRow(b, columns, values)
  {
    var drawn := NextSequence(b);
    var b1, id := drawn.0, drawn.1;
    var cur := b1;
    for i := 0 to |columns|
      invariant i <= |values|
      invariant CellWrites(id, columns[..i], values).Some?
      invariant cur == PutAll(b1, CellWrites(id, columns[..i], values).value)
    {
      if i >= |values| {
        return None;
      }
      var e := Entry(CellKey(Decimal(id), TrimSpace(columns[i])), TrimSpace(values[i]));
      CellWritesSnoc(id, columns, values, i);
      PutAllSnoc(b1, CellWrites(id, columns[..i], values).value, e);
      cur := Put(cur, e.key, e.value);
    }
    assert columns[..|columns|] == columns;
    return Some(cur);
  }

  lemma CellWritesSnoc(id: nat, columns: seq<string>, values: seq<string>, i: nat)
    requires i < |columns| && i < |values|
    ensures CellWrites(id, columns[..i + 1], values).Some?
    ensures CellWrites(id, columns[..i + 1], values).value ==
      CellWrites(id, columns[..i], values).value + [Entry(CellKey(Decimal(id), TrimSpace(columns[i])), TrimSpace(values[i]))]
  {
    var a, c := CellWrites(id, columns[..i + 1], values).value, CellWrites(id, columns[..i], values).value;
    assert a[..i] == c by {
      forall j | 0 <= j < i ensures a[j] == c[j] {
        assert columns[..i + 1][j] == columns[..i][j];
      }
    }
    assert columns[..i + 1][i] == columns[i];
    LastSplit(a);
  }

  /** updateTable's ForEach, over the keys as they were when it started: a hit
      key's row gets "<id>:<setColumn>" := setValue; a key without ':' panics. */
  method UpdateLoop(b: Bucket, setColumn: string, setValue: string, condition: string) returns (r: Option<Bucket>)
    ensures r == UpdateRows(b, setColumn, setValue, condition)
  {
    var ks := Snapshot(b.entries);
    var cur := b;
    for i := 0 to |ks|
      invariant UpdateWrites(ks[..i], setColumn, setValue, condition).Some?
      invariant cur == PutAll(b, UpdateWrites(ks[..i], setColumn, setValue, condition).value)
    {
      var k := ks[i];
      UpdateWritesSnoc(ks, i, setColumn, setValue, condition);
      if !HasPrefix(k, SchemaPrefix) {
        var parts := Split(k, ":");
        if |parts| < 2 {
          assert Broken(ks[i]);
          return None;
        }
        var id, col := parts[0], parts[1];
        if col == condition {
          var e := Entry(CellKey(id, setColumn), setValue);
          PutAllSnoc(b, UpdateWrites(ks[..i], setColumn, setValue, condition).value, e);
          cur := Put(cur, e.key, e.value);
        }
      }
    }
    assert ks[..|ks|] == ks;
    return Some(cur);
  }

  lemma UpdateWritesSnoc(ks: seq<string>, i: nat, setColumn: string, setValue: string, condition: string)
    requires i < |ks| && UpdateWrites(ks[..i], setColumn, setValue, condition).Some?
    ensures UpdateWrites(ks[..i + 1], setColumn, setValue, condition) ==
      if Broken(ks[i]) then None
      else if Hit(ks[i], condition) then
        Some(UpdateWrites(ks[..i], setColumn, setValue, condition).value + [Entry(CellKey(RowIdOf(ks[i]), setColumn), setValue)])
      else UpdateWrites(ks[..i], setColumn, setValue, condition)
  {
    assert ks[..i + 1][..i] == ks[..i];
  }

  /** deleteFromTable's ForEach, over the keys as they were when it started:
      a hit key is deleted; a key without ':' panics. */
  method DeleteLoop(b: Bucket, condition: string) returns (r: Option<Bucket>)
    ensures r == DeleteRows(b, condition)
  {
    var ks := Snapshot(b.entries);
    var cur := b;
    for i := 0 to |ks|
      invariant DeleteKeys(ks[..i], condition).Some?
      invariant cur == DeleteAll(b, DeleteKeys(ks[..i], condition).value)
    {
      var k := ks[i];
      DeleteKeysSnoc(ks, i, condition);
      if !HasPrefix(k, SchemaPrefix) {
        var parts := Split(k, ":");
        if |parts| < 2 {
          assert Broken(ks[i]);
          return None;
        }
        if parts[1] == condition {
          DeleteAllSnoc(b, DeleteKeys(ks[..i], condition).value, k);
          cur := Delete(cur, k);
        }
      }
    }
    assert ks[..|ks|] == ks;
    return Some(cur);
  }

  lemma DeleteKeysSnoc(ks: seq<string>, i: nat, condition: string)
    requires i < |ks| && DeleteKeys(ks[..i], condition).Some?
    ensures DeleteKeys(ks[..i + 1], condition) ==
      if Broken(ks[i]) then None
      else if Hit(ks[i], condition) then Some(DeleteKeys(ks[..i], condition).value + [ks[i]])
      else DeleteKeys(ks[..i], condition)
  {
    assert ks[..i + 1][..i] == ks[..i];
  }
}
